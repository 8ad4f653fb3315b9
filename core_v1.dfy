/**
 * The shapes of the Kubernetes core/v1 objects that the knode-manager helpers
 * read and write, cut down to the fields they touch plus the fields whose
 * preservation matters (identity and version of an object). A Go nil map,
 * nil pointer or nil slice is None / the empty sequence.
 */
module CoreV1 {
  import opened Wrappers

  type Labels = map<string, string>

  datatype ObjectMeta = ObjectMeta(
    name: string,
    namespace: string,
    resourceVersion: string,
    labels: Option<Labels>,
    annotations: Option<map<string, string>>)

  datatype LocalObjectReference = LocalObjectReference(name: string)

  datatype SecretVolumeSource = SecretVolumeSource(secretName: string, optional: Option<bool>)
  datatype ConfigMapVolumeSource = ConfigMapVolumeSource(name: string, optional: Option<bool>)
  datatype PersistentVolumeClaimVolumeSource = PersistentVolumeClaimVolumeSource(claimName: string, readOnly: bool)
  datatype CephFSVolumeSource = CephFSVolumeSource(monitors: seq<string>, path: string, secretRef: Option<LocalObjectReference>)
  datatype CinderVolumeSource = CinderVolumeSource(volumeID: string, secretRef: Option<LocalObjectReference>)
  datatype RBDVolumeSource = RBDVolumeSource(monitors: seq<string>, image: string, secretRef: Option<LocalObjectReference>)

  /**
   * A pod volume. As in core/v1 every source is a separate optional field,
   * so a value may set several of them and the order in which a consumer
   * tests them is observable. A volume of any other kind (emptyDir,
   * hostPath, ...) sets none of these six.
   */
  datatype Volume = Volume(
    name: string,
    secret: Option<SecretVolumeSource>,
    configMap: Option<ConfigMapVolumeSource>,
    persistentVolumeClaim: Option<PersistentVolumeClaimVolumeSource>,
    cephFS: Option<CephFSVolumeSource>,
    cinder: Option<CinderVolumeSource>,
    rbd: Option<RBDVolumeSource>)

  datatype RestartPolicy = RestartPolicyAlways | RestartPolicyOnFailure | RestartPolicyNever
  datatype PodPhase = PodPending | PodRunning | PodSucceeded | PodFailed | PodUnknown

  datatype PodSpec = PodSpec(
    volumes: seq<Volume>,
    imagePullSecrets: seq<LocalObjectReference>,
    restartPolicy: RestartPolicy)

  datatype PodStatus = PodStatus(phase: PodPhase)

  /** A pod; help.go and k8s.go only read pods, so a pod is a value. */
  datatype Pod = Pod(meta: ObjectMeta, spec: PodSpec, status: PodStatus)

  datatype NodeConditionType = NodeReady | NodeMemoryPressure | NodeDiskPressure | NodePIDPressure | NodeNetworkUnavailable
  datatype ConditionStatus = ConditionTrue | ConditionFalse | ConditionUnknown

  datatype NodeCondition = NodeCondition(condType: NodeConditionType, status: ConditionStatus, reason: string)
  datatype NodeStatus = NodeStatus(conditions: seq<NodeCondition>)

  /** A node, held by pointer and relabelled in place. */
  class Node {
    var meta: ObjectMeta
    var status: NodeStatus
  }

  /** A config map, held by pointer and overwritten in place by UpdateConfigMap. */
  class ConfigMap {
    var meta: ObjectMeta
    var immutable: Option<bool>
    var data: Option<map<string, string>>
    var binaryData: Option<map<string, seq<bv8>>>
  }

  /** A secret, held by pointer and overwritten in place by UpdateSecret. */
  class Secret {
    var meta: ObjectMeta
    var immutable: Option<bool>
    var data: Option<map<string, seq<bv8>>>
    var stringData: Option<map<string, string>>
    var secretType: string
  }

  /**
   * Go's comma-ok index `v, ok := m[key]` on a possibly nil map: a nil map
   * and a missing key both read as ("", false).
   */
  function Lookup(m: Option<Labels>, key: string): (r: (string, bool))
    ensures r.1 <==> m.Some? && key in m.value
    ensures r.1 ==> r.0 == m.value[key]
    ensures !r.1 ==> r.0 == ""
  {
    match m
    case None => ("", false)
    case Some(labels) => if key in labels then (labels[key], true) else ("", false)
  }
}

/**
 * pkg/knode-manager/utils/k8s.go: label predicates on nodes and pods, and the
 * in-place updaters that copy the content of a newer ConfigMap or Secret into
 * the object the manager already holds.
 */
module Utils {
  import opened Wrappers
  import opened CoreV1

  const KosmosPodLabel := "kosmos-pod"
  const KosmosKubeletLabel := "kosmos-kubelet"
  const ClusterID := "clusterID"
  const NodeType := "type"

  /** A node is virtual when its "type" label is "kosmos-kubelet"; a nil node is not. */
  function IsVirtualNode(node: Node?): (virtual: bool)
    reads node
    ensures node == null ==> !virtual
    ensures virtual <==>
      node != null && node.meta.labels.Some? &&
      NodeType in node.meta.labels.value && node.meta.labels.value[NodeType] == KosmosKubeletLabel
  {
    if node == null then false
    else
      var (valStr, exist) := Lookup(node.meta.labels, NodeType);
      if !exist then false else valStr == KosmosKubeletLabel
  }

  /** A pod is virtual when its labels map is non-nil and its "kosmos-pod" label reads "true". */
  function IsVirtualPod(pod: Pod): (virtual: bool)
    ensures virtual <==>
      pod.meta.labels.Some? && KosmosPodLabel in pod.meta.labels.value &&
      pod.meta.labels.value[KosmosPodLabel] == "true"
  {
    // a missing key reads as the zero value "", which is not "true"
    pod.meta.labels.Some? && Lookup(pod.meta.labels, KosmosPodLabel).0 == "true"
  }

  /**
   * The node's "clusterID" label, or "" when the node is nil or has no such
   * label; an empty label value reads the same as a missing one.
   */
  function GetClusterID(node: Node?): (id: string)
    reads node
    ensures node == null ==> id == ""
    ensures node != null && node.meta.labels.Some? && ClusterID in node.meta.labels.value ==>
      id == node.meta.labels.value[ClusterID]
    ensures id != "" ==>
      node != null && node.meta.labels.Some? && ClusterID in node.meta.labels.value
  {
    if node == null then ""
    else
      var (clusterName, exist) := Lookup(node.meta.labels, ClusterID);
      if !exist then "" else clusterName
  }

  /** oldCM already carries the content that UpdateConfigMap copies from newCM. */
  predicate ConfigMapContentEqual(oldCM: ConfigMap, newCM: ConfigMap)
    reads oldCM, newCM
  {
    oldCM.meta.labels == newCM.meta.labels && oldCM.data == newCM.data && oldCM.binaryData == newCM.binaryData
  }

  /**
   * Overwrite the labels, data and binary data of oldCM with those of newCM.
   * Everything else of oldCM (name, namespace, resource version, annotations,
   * immutability) stays, and newCM is not touched. Applying it again changes
   * nothing, so it is idempotent.
   */
  method UpdateConfigMap(oldCM: ConfigMap, newCM: ConfigMap)
    modifies oldCM
    ensures oldCM.meta == old(oldCM.meta).(labels := old(newCM.meta.labels))
    ensures oldCM.data == old(newCM.data) && oldCM.binaryData == old(newCM.binaryData)
    ensures oldCM.immutable == old(oldCM.immutable)
    ensures unchanged(newCM)
    ensures ConfigMapContentEqual(oldCM, newCM)
    ensures old(ConfigMapContentEqual(oldCM, newCM)) ==> unchanged(oldCM)
  {
    oldCM.meta := oldCM.meta.(labels := newCM.meta.labels);
    oldCM.data := newCM.data;
    oldCM.binaryData := newCM.binaryData;
  }

  /** oldSecret already carries the content that UpdateSecret copies from newSecret. */
  predicate SecretContentEqual(oldSecret: Secret, newSecret: Secret)
    reads oldSecret, newSecret
  {
    && oldSecret.meta.labels == newSecret.meta.labels
    && oldSecret.data == newSecret.data
    && oldSecret.stringData == newSecret.stringData
    && oldSecret.secretType == newSecret.secretType
  }

  /**
   * Overwrite the labels, data, string data and type of oldSecret with those
   * of newSecret. Everything else of oldSecret stays, newSecret is not
   * touched, and a second application changes nothing.
   */
  method UpdateSecret(oldSecret: Secret, newSecret: Secret)
    modifies oldSecret
    ensures oldSecret.meta == old(oldSecret.meta).(labels := old(newSecret.meta.labels))
    ensures oldSecret.data == old(newSecret.data) && oldSecret.stringData == old(newSecret.stringData)
    ensures oldSecret.secretType == old(newSecret.secretType)
    ensures oldSecret.immutable == old(oldSecret.immutable)
    ensures unchanged(newSecret)
    ensures SecretContentEqual(oldSecret, newSecret)
    ensures old(SecretContentEqual(oldSecret, newSecret)) ==> unchanged(oldSecret)
  {
    oldSecret.meta := oldSecret.meta.(labels := newSecret.meta.labels);
    oldSecret.data := newSecret.data;
    oldSecret.stringData := newSecret.stringData;
    oldSecret.secretType := newSecret.secretType;
  }
}

/**
 * pkg/knode-manager/adapters/k8s/help.go: what a pod depends on (secrets,
 * config maps, persistent volume claims), node readiness, whether a pod has
 * stopped for good, and custom "key:value" node labels.
 */
module K8sAdapter {
  import opened Wrappers
  import opened GoStrings
  import opened Seqs
  import opened CoreV1
  import opened Utils

  /** Secret volumes whose volume name starts with this are service-account tokens and are skipped. */
  const DefaultTokenPrefix := "default-token"

  // ---------------------------------------------------------------- secrets

  /**
   * The branch getSecrets takes for v dereferences a secret reference that is
   * present (a CephFS, Cinder or RBD source without SecretRef makes Go panic).
   */
  predicate SecretRefDefined(v: Volume)
  {
    v.secret.None? ==>
      if v.cephFS.Some? then v.cephFS.value.secretRef.Some?
      else if v.cinder.Some? then v.cinder.value.secretRef.Some?
      else v.rbd.Some? ==> v.rbd.value.secretRef.Some?
  }

  predicate SecretRefsDefined(pod: Pod)
  {
    forall i :: 0 <= i < |pod.spec.volumes| ==> SecretRefDefined(pod.spec.volumes[i])
  }

  /**
   * The secret one volume contributes: the first source present in the order
   * Secret, CephFS, Cinder, RBD decides, and a Secret source on a volume named
   * "default-token..." contributes nothing.
   */
  function VolumeSecretName(v: Volume): (name: Option<string>)
    requires SecretRefDefined(v)
    ensures v.secret.Some? && DefaultTokenPrefix <= v.name ==> name == None
    ensures v.secret.Some? && !(DefaultTokenPrefix <= v.name) ==> name == Some(v.secret.value.secretName)
    ensures v.secret.None? && v.cephFS.Some? ==> name == Some(v.cephFS.value.secretRef.value.name)
    ensures v.secret.None? && v.cephFS.None? && v.cinder.Some? ==> name == Some(v.cinder.value.secretRef.value.name)
    ensures v.secret.None? && v.cephFS.None? && v.cinder.None? && v.rbd.Some? ==> name == Some(v.rbd.value.secretRef.value.name)
    ensures name.None? <==>
      (v.secret.Some? && DefaultTokenPrefix <= v.name) ||
      (v.secret.None? && v.cephFS.None? && v.cinder.None? && v.rbd.None?)
  {
    if v.secret.Some? then
      if DefaultTokenPrefix <= v.name then None else Some(v.secret.value.secretName)
    else if v.cephFS.Some? then Some(v.cephFS.value.secretRef.value.name)
    else if v.cinder.Some? then Some(v.cinder.value.secretRef.value.name)
    else if v.rbd.Some? then Some(v.rbd.value.secretRef.value.name)
    else None
  }

  /** First match: once a higher-priority source is present, the lower-priority ones are not looked at. */
  lemma SecretSourceShadows(v: Volume, c: Option<CephFSVolumeSource>, d: Option<CinderVolumeSource>, r: Option<RBDVolumeSource>)
    requires SecretRefDefined(v)
    ensures v.secret.Some? ==> VolumeSecretName(v.(cephFS := c, cinder := d, rbd := r)) == VolumeSecretName(v)
    ensures v.secret.None? && v.cephFS.Some? ==> VolumeSecretName(v.(cinder := d, rbd := r)) == VolumeSecretName(v)
    ensures v.secret.None? && v.cephFS.None? && v.cinder.Some? ==> VolumeSecretName(v.(rbd := r)) == VolumeSecretName(v)
  {
  }

  /** The volume's own name matters only to the Secret branch (the default-token rule). */
  lemma SecretVolumeNameOnlyForSecretSource(v: Volume, n: string)
    requires SecretRefDefined(v) && v.secret.None?
    ensures VolumeSecretName(v.(name := n)) == VolumeSecretName(v)
  {
  }

  function PullSecretNames(refs: seq<LocalObjectReference>): (names: seq<string>)
    ensures |names| == |refs|
    ensures forall j :: 0 <= j < |refs| ==> names[j] == refs[j].name
  {
    seq(|refs|, j requires 0 <= j < |refs| => refs[j].name)
  }

  /** The names getSecrets returns. */
  function SecretNamesOf(pod: Pod): seq<string>
    requires SecretRefsDefined(pod)
  {
    FilterMap(pod.spec.volumes, VolumeSecretName) + PullSecretNames(pod.spec.imagePullSecrets)
  }

  /**
   * The layout of getSecrets' result: one name per contributing volume, in
   * volume order, then every image pull secret, in order.
   */
  lemma SecretNamesLayout(pod: Pod)
    requires SecretRefsDefined(pod)
    ensures |SecretNamesOf(pod)| == Hits(pod.spec.volumes, VolumeSecretName) + |pod.spec.imagePullSecrets|
    ensures forall i :: 0 <= i < |pod.spec.volumes| && VolumeSecretName(pod.spec.volumes[i]).Some? ==>
      Hits(pod.spec.volumes[..i], VolumeSecretName) < |SecretNamesOf(pod)| &&
      SecretNamesOf(pod)[Hits(pod.spec.volumes[..i], VolumeSecretName)] == VolumeSecretName(pod.spec.volumes[i]).value
    ensures forall j :: 0 <= j < |pod.spec.imagePullSecrets| ==>
      SecretNamesOf(pod)[Hits(pod.spec.volumes, VolumeSecretName) + j] == pod.spec.imagePullSecrets[j].name
  {
    var vs := pod.spec.volumes;
    forall i | 0 <= i < |vs| && VolumeSecretName(vs[i]).Some?
      ensures Hits(vs[..i], VolumeSecretName) < |SecretNamesOf(pod)|
      ensures SecretNamesOf(pod)[Hits(vs[..i], VolumeSecretName)] == VolumeSecretName(vs[i]).value
    {
      FilterMapAt(vs, VolumeSecretName, i);
    }
  }

  /** A name is among getSecrets' result exactly when a volume contributes it or an image pull secret carries it. */
  lemma SecretNamesMembership(pod: Pod, x: string)
    requires SecretRefsDefined(pod)
    ensures x in SecretNamesOf(pod) <==>
      (exists i :: 0 <= i < |pod.spec.volumes| && VolumeSecretName(pod.spec.volumes[i]) == Some(x)) ||
      (exists j :: 0 <= j < |pod.spec.imagePullSecrets| && pod.spec.imagePullSecrets[j].name == x)
  {
    FilterMapMembership(pod.spec.volumes, VolumeSecretName, x);
    var pulls := PullSecretNames(pod.spec.imagePullSecrets);
    if x in pulls {
      var j :| 0 <= j < |pulls| && pulls[j] == x;
    }
  }

  /** getSecrets, as the loop it is. */
  method GetSecrets(pod: Pod) returns (secretNames: seq<string>)
    requires SecretRefsDefined(pod)
    ensures secretNames == SecretNamesOf(pod)
  {
    secretNames := [];
    var volumes := pod.spec.volumes;
    for i := 0 to |volumes|
      invariant secretNames == FilterMap(volumes[..i], VolumeSecretName)
    {
      var v := volumes[i];
      FilterMapSnoc(volumes[..i], v, VolumeSecretName);
      assert volumes[..i + 1] == volumes[..i] + [v];
      if v.secret.Some? {
        if DefaultTokenPrefix <= v.name {
          continue;
        }
        secretNames := secretNames + [v.secret.value.secretName];
      } else if v.cephFS.Some? {
        secretNames := secretNames + [v.cephFS.value.secretRef.value.name];
      } else if v.cinder.Some? {
        secretNames := secretNames + [v.cinder.value.secretRef.value.name];
      } else if v.rbd.Some? {
        secretNames := secretNames + [v.rbd.value.secretRef.value.name];
      }
    }
    assert volumes[..|volumes|] == volumes;
    var pulls := pod.spec.imagePullSecrets;
    for j := 0 to |pulls|
      invariant secretNames == FilterMap(volumes, VolumeSecretName) + PullSecretNames(pulls[..j])
    {
      assert PullSecretNames(pulls[..j + 1]) == PullSecretNames(pulls[..j]) + [pulls[j].name];
      secretNames := secretNames + [pulls[j].name];
    }
    assert pulls[..|pulls|] == pulls;
  }

  // ------------------------------------------------------------ config maps

  function VolumeConfigMapName(v: Volume): Option<string>
  {
    if v.configMap.Some? then Some(v.configMap.value.name) else None
  }

  /** The names getConfigmaps returns. */
  function ConfigMapNamesOf(pod: Pod): seq<string>
  {
    FilterMap(pod.spec.volumes, VolumeConfigMapName)
  }

  /**
   * getConfigmaps returns exactly the config map names of the volumes with a
   * ConfigMap source, in volume order, so never more names than volumes.
   */
  lemma ConfigMapNamesExact(pod: Pod)
    ensures |ConfigMapNamesOf(pod)| <= |pod.spec.volumes|
    ensures forall x :: x in ConfigMapNamesOf(pod) <==>
      exists i :: 0 <= i < |pod.spec.volumes| && pod.spec.volumes[i].configMap.Some? &&
                  pod.spec.volumes[i].configMap.value.name == x
    ensures forall i :: 0 <= i < |pod.spec.volumes| && pod.spec.volumes[i].configMap.Some? ==>
      Hits(pod.spec.volumes[..i], VolumeConfigMapName) < |ConfigMapNamesOf(pod)| &&
      ConfigMapNamesOf(pod)[Hits(pod.spec.volumes[..i], VolumeConfigMapName)] == pod.spec.volumes[i].configMap.value.name
  {
    var vs := pod.spec.volumes;
    forall x ensures x in ConfigMapNamesOf(pod) <==>
      exists i :: 0 <= i < |vs| && vs[i].configMap.Some? && vs[i].configMap.value.name == x
    {
      FilterMapMembership(vs, VolumeConfigMapName, x);
    }
    forall i | 0 <= i < |vs| && vs[i].configMap.Some?
      ensures Hits(vs[..i], VolumeConfigMapName) < |ConfigMapNamesOf(pod)|
      ensures ConfigMapNamesOf(pod)[Hits(vs[..i], VolumeConfigMapName)] == vs[i].configMap.value.name
    {
      FilterMapAt(vs, VolumeConfigMapName, i);
    }
  }

  /** getConfigmaps, as the loop it is. */
  method GetConfigmaps(pod: Pod) returns (cmNames: seq<string>)
    ensures cmNames == ConfigMapNamesOf(pod)
  {
    cmNames := [];
    var volumes := pod.spec.volumes;
    for i := 0 to |volumes|
      invariant cmNames == FilterMap(volumes[..i], VolumeConfigMapName)
    {
      var v := volumes[i];
      FilterMapSnoc(volumes[..i], v, VolumeConfigMapName);
      assert volumes[..i + 1] == volumes[..i] + [v];
      if v.configMap.None? {
        continue;
      }
      cmNames := cmNames + [v.configMap.value.name];
    }
    assert volumes[..|volumes|] == volumes;
  }

  // --------------------------------------------- persistent volume claims

  function VolumeClaimName(v: Volume): Option<string>
  {
    if v.persistentVolumeClaim.Some? then Some(v.persistentVolumeClaim.value.claimName) else None
  }

  /** The names getPVCs returns. */
  function ClaimNamesOf(pod: Pod): seq<string>
  {
    FilterMap(pod.spec.volumes, VolumeClaimName)
  }

  /**
   * getPVCs returns exactly the claim names of the volumes with a
   * PersistentVolumeClaim source, in volume order.
   */
  lemma ClaimNamesExact(pod: Pod)
    ensures |ClaimNamesOf(pod)| <= |pod.spec.volumes|
    ensures forall x :: x in ClaimNamesOf(pod) <==>
      exists i :: 0 <= i < |pod.spec.volumes| && pod.spec.volumes[i].persistentVolumeClaim.Some? &&
                  pod.spec.volumes[i].persistentVolumeClaim.value.claimName == x
    ensures forall i :: 0 <= i < |pod.spec.volumes| && pod.spec.volumes[i].persistentVolumeClaim.Some? ==>
      Hits(pod.spec.volumes[..i], VolumeClaimName) < |ClaimNamesOf(pod)| &&
      ClaimNamesOf(pod)[Hits(pod.spec.volumes[..i], VolumeClaimName)] == pod.spec.volumes[i].persistentVolumeClaim.value.claimName
  {
    var vs := pod.spec.volumes;
    forall x ensures x in ClaimNamesOf(pod) <==>
      exists i :: 0 <= i < |vs| && vs[i].persistentVolumeClaim.Some? && vs[i].persistentVolumeClaim.value.claimName == x
    {
      FilterMapMembership(vs, VolumeClaimName, x);
    }
    forall i | 0 <= i < |vs| && vs[i].persistentVolumeClaim.Some?
      ensures Hits(vs[..i], VolumeClaimName) < |ClaimNamesOf(pod)|
      ensures ClaimNamesOf(pod)[Hits(vs[..i], VolumeClaimName)] == vs[i].persistentVolumeClaim.value.claimName
    {
      FilterMapAt(vs, VolumeClaimName, i);
    }
  }

  /** getPVCs, as the loop it is. */
  method GetPVCs(pod: Pod) returns (claimNames: seq<string>)
    ensures claimNames == ClaimNamesOf(pod)
  {
    claimNames := [];
    var volumes := pod.spec.volumes;
    for i := 0 to |volumes|
      invariant claimNames == FilterMap(volumes[..i], VolumeClaimName)
    {
      var v := volumes[i];
      FilterMapSnoc(volumes[..i], v, VolumeClaimName);
      assert volumes[..i + 1] == volumes[..i] + [v];
      if v.persistentVolumeClaim.None? {
        continue;
      }
      claimNames := claimNames + [v.persistentVolumeClaim.value.claimName];
    }
    assert volumes[..|volumes|] == volumes;
  }

  // ------------------------------------------------------------- readiness

  predicate ReadyTrue(c: NodeCondition)
  {
    c.condType == NodeReady && c.status == ConditionTrue
  }

  /** A node is ready when some condition says Ready=True. */
  predicate IsReady(conditions: seq<NodeCondition>)
  {
    exists k :: 0 <= k < |conditions| && ReadyTrue(conditions[k])
  }

  /**
   * Where a condition sits and what the other conditions say does not matter:
   * a condition of another type, or a Ready condition that is not True, is
   * ignored (the scan goes on past it), and a Ready=True anywhere decides.
   */
  lemma ReadyInsert(a: seq<NodeCondition>, c: NodeCondition, b: seq<NodeCondition>)
    ensures IsReady(a + [c] + b) <==> ReadyTrue(c) || IsReady(a + b)
  {
    var s, t := a + [c] + b, a + b;
    if IsReady(t) {
      var k :| 0 <= k < |t| && ReadyTrue(t[k]);
      if k < |a| { assert s[k] == t[k]; } else { assert s[k + 1] == t[k]; }
    }
    if ReadyTrue(c) {
      assert s[|a|] == c;
    }
    if IsReady(s) {
      var k :| 0 <= k < |s| && ReadyTrue(s[k]);
      if k < |a| { assert s[k] == t[k]; } else if k > |a| { assert s[k] == t[k - 1]; }
    }
  }

  /** checkNodeStatusReady: scan the conditions, return at the first Ready=True. */
  method CheckNodeStatusReady(node: Node) returns (ready: bool)
    ensures ready == IsReady(node.status.conditions)
  {
    var conditions := node.status.conditions;
    var i := 0;
    while i < |conditions|
      invariant 0 <= i <= |conditions|
      invariant forall k :: 0 <= k < i ==> !ReadyTrue(conditions[k])
    {
      var condition := conditions[i];
      if condition.condType != NodeReady {
        i := i + 1;
        continue;
      }
      if condition.status == ConditionTrue {
        return true;
      }
      i := i + 1;
    }
    return false;
  }

  /** compareNodeStatusReady: the readiness of both nodes. */
  method CompareNodeStatusReady(oldNode: Node, newNode: Node) returns (oldReady: bool, newReady: bool)
    ensures oldReady == IsReady(oldNode.status.conditions)
    ensures newReady == IsReady(newNode.status.conditions)
  {
    oldReady := CheckNodeStatusReady(oldNode);
    newReady := CheckNodeStatusReady(newNode);
  }

  // ------------------------------------------------------------ pod stopped

  /** A pod has stopped for good: it ran to completion or failed, and will not be restarted. */
  function PodStopped(pod: Pod): (stopped: bool)
    ensures stopped ==> pod.status.phase !in {PodPending, PodRunning, PodUnknown}
    ensures pod.spec.restartPolicy != RestartPolicyNever ==> !stopped
    ensures pod.spec.restartPolicy == RestartPolicyNever && pod.status.phase in {PodSucceeded, PodFailed} ==> stopped
  {
    (pod.status.phase == PodSucceeded || pod.status.phase == PodFailed) &&
    pod.spec.restartPolicy == RestartPolicyNever
  }

  // ------------------------------------------------------ custom node label

  /**
   * The labels nodeCustomLabel leaves: a label text with exactly one ':' sets the
   * trimmed text before it to the trimmed text after it; any other label text
   * (no ':' or several) leaves the map as it was. Writing into a nil map
   * panics in Go, so the map must be non-nil whenever a write happens.
   */
  function CustomLabels(labels: Option<Labels>, kv: string): (r: Option<Labels>)
    requires labels.Some? || |Split(kv, ':')| != 2
    ensures Count(kv, ':') != 1 ==> r == labels
    ensures Count(kv, ':') == 1 ==>
      ':' in kv && labels.Some? &&
      r == Some(labels.value[TrimSpace(kv[..IndexOf(kv, ':')]) := TrimSpace(kv[IndexOf(kv, ':') + 1..])])
  {
    var nodelabel := Split(kv, ':');
    if |nodelabel| == 2 then
      SplitAtOnlySeparator(kv, ':');
      Some(labels.value[TrimSpace(nodelabel[0]) := TrimSpace(nodelabel[1])])
    else
      labels
  }

  /** nodeCustomLabel: update the node's labels in place; nothing else of the node changes. */
  method NodeCustomLabel(node: Node, kv: string)
    requires node.meta.labels.Some? || |Split(kv, ':')| != 2
    modifies node
    ensures node.meta == old(node.meta).(labels := CustomLabels(old(node.meta.labels), kv))
    ensures node.status == old(node.status)
  {
    var nodelabel := Split(kv, ':');
    if |nodelabel| == 2 {
      node.meta := node.meta.(labels := Some(node.meta.labels.value[TrimSpace(nodelabel[0]) := TrimSpace(nodelabel[1])]));
    }
  }

  /** Round trip: labelling with "key:value" (both free of ':' and already trimmed) stores exactly value under key. */
  lemma CustomLabelRoundTrip(labels: Labels, key: string, value: string)
    requires ':' !in key && ':' !in value && Trimmed(key) && Trimmed(value)
    ensures CustomLabels(Some(labels), key + ":" + value) == Some(labels[key := value])
  {
    var kv := key + ":" + value;
    assert kv[..|key|] == key && kv[|key| + 1..] == value;
    SplitFirst(kv, ':', |key|);
    SplitNone(value, ':');
    TrimSpaceKeepsTrimmed(key);
    TrimSpaceKeepsTrimmed(value);
  }

  /** A node labelled "type:kosmos-kubelet" by nodeCustomLabel is a virtual node. */
  lemma CustomLabelMakesVirtualNode(node: Node, before: Labels)
    requires node.meta.labels == CustomLabels(Some(before), NodeType + ":" + KosmosKubeletLabel)
    ensures IsVirtualNode(node)
  {
    CustomLabelRoundTrip(before, NodeType, KosmosKubeletLabel);
  }

  /** A node labelled "clusterID:<id>" by nodeCustomLabel reports that id. */
  lemma CustomLabelSetsClusterID(node: Node, before: Labels, id: string)
    requires ':' !in id && Trimmed(id)
    requires node.meta.labels == CustomLabels(Some(before), ClusterID + ":" + id)
    ensures GetClusterID(node) == id
  {
    CustomLabelRoundTrip(before, ClusterID, id);
  }
}

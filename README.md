# knode-manager Kubernetes helpers, modelled in Dafny

This project models the Kubernetes helper code of the kosmos knode-manager.
That is the code that turns a virtual-node pod into the list of objects it
depends on, reads node and pod state, and keeps local copies of config maps
and secrets up to date:

- `pkg/knode-manager/adapters/k8s/help.go` (module `K8sAdapter`) covers the
  following:
  - the secrets, config maps and persistent volume claims a pod references
    (`getSecrets`, `getConfigmaps`, `getPVCs`);
  - node readiness (`checkNodeStatusReady`, `compareNodeStatusReady`);
  - whether a pod has stopped for good (`podStopped`);
  - custom `key:value` node labels (`nodeCustomLabel`).
- `pkg/knode-manager/utils/k8s.go` (module `Utils`) covers the following:
  - the label predicates `IsVirtualNode`, `IsVirtualPod` and `GetClusterID`, with their label constants;
  - the in-place updaters `UpdateConfigMap` and `UpdateSecret`.

Supporting modules:

- `CoreV1` holds the shapes of the core/v1 objects involved. A pod is a
  value. A node, a config map and a secret are classes, because help.go and
  k8s.go change them in place through pointers. Go's nil maps and nil pointers
  become `Option`.
- `GoStrings` models the parts of Go's `strings` package that help.go uses:
  `HasPrefix` (Dafny's own prefix test `<=`), `Split` with a one-character
  separator, and `TrimSpace`. `TrimSpace` uses the full Unicode White_Space
  set of `unicode.IsSpace`. `Count`, `Join` and `IndexOf` are there only to
  state what `Split` means.
- `Seqs` holds `FilterMap`. It is the meaning of a Go loop that walks a slice
  and appends a value for some elements. It comes with lemmas giving the
  output position of every contributing element, and the origin of every
  output element.

Each of the three dependency walks appears twice. It is a specification
function (`SecretNamesOf`, `ConfigMapNamesOf`, `ClaimNamesOf`). It is also
the loop the source runs (`GetSecrets`, `GetConfigmaps`, `GetPVCs`), proved
equal to that function.

## Model

| member | source | states |
|---|---|---|
| `K8sAdapter.GetSecrets` | pkg/knode-manager/adapters/k8s/help.go:10-41 | The looped walk over the volumes, then over the image pull secrets, returns exactly `SecretNamesOf(pod)`. |
| `K8sAdapter.VolumeSecretName` | pkg/knode-manager/adapters/k8s/help.go:13-32 | A volume gives at most one secret name, chosen by first match. A Secret source gives its `secretName`, except on a volume whose own name starts with "default-token", which gives none. Otherwise a CephFS, then a Cinder, then an RBD source gives its `secretRef` name. A volume with none of the four gives nothing. |
| `K8sAdapter.SecretSourceShadows` | pkg/knode-manager/adapters/k8s/help.go:13-29 | First match in the order Secret, CephFS, Cinder, RBD: once a source earlier in that order is present, the later sources do not affect the result. |
| `K8sAdapter.SecretVolumeNameOnlyForSecretSource` | pkg/knode-manager/adapters/k8s/help.go:14-17 | The skip rule tests the volume's own name, and only in the Secret branch. For the other kinds, renaming the volume changes nothing. |
| `K8sAdapter.SecretNamesLayout` | pkg/knode-manager/adapters/k8s/help.go:12-38 | The result holds one name per contributing volume, then one per image pull secret. Volume `i`'s name sits at the number of contributing volumes before it. Pull secret `j` sits right after all volume-derived names. |
| `K8sAdapter.SecretNamesMembership` | pkg/knode-manager/adapters/k8s/help.go:12-38 | A name is in the result if and only if some volume contributes it or some image pull secret carries it. |
| `K8sAdapter.GetConfigmaps` | pkg/knode-manager/adapters/k8s/help.go:43-53 | The looped walk returns exactly `ConfigMapNamesOf(pod)`. |
| `K8sAdapter.ConfigMapNamesExact` | pkg/knode-manager/adapters/k8s/help.go:43-53 | There are never more names than volumes. A name is present if and only if some volume has a ConfigMap source of that name. Each such volume's name sits at its position in volume order. |
| `K8sAdapter.GetPVCs` | pkg/knode-manager/adapters/k8s/help.go:55-65 | The looped walk returns exactly `ClaimNamesOf(pod)`. |
| `K8sAdapter.ClaimNamesExact` | pkg/knode-manager/adapters/k8s/help.go:55-65 | There are never more names than volumes. A claim name is present if and only if some volume has a PersistentVolumeClaim source with that claim. Each sits at its position in volume order. |
| `K8sAdapter.CheckNodeStatusReady` | pkg/knode-manager/adapters/k8s/help.go:68-78 | The scan with early return yields true if and only if some condition is Ready=True. An empty list gives false. |
| `K8sAdapter.ReadyInsert` | pkg/knode-manager/adapters/k8s/help.go:69-76 | Inserting a condition anywhere changes readiness only if it is Ready=True. Other condition types, and Ready conditions that are not True, are skipped, not decisive. |
| `K8sAdapter.CompareNodeStatusReady` | pkg/knode-manager/adapters/k8s/help.go:81-83 | Returns the readiness of the old node and of the new node. |
| `K8sAdapter.PodStopped` | pkg/knode-manager/adapters/k8s/help.go:86-89 | Stopped if and only if the phase is Succeeded or Failed and the restart policy is Never. Any other restart policy, or a Pending, Running or Unknown phase, gives false. |
| `K8sAdapter.CustomLabels` | pkg/knode-manager/adapters/k8s/help.go:92-97 | With exactly one ':' in the text, the trimmed text before it is set to the trimmed text after it, and every other key is kept. With no ':' or several, the labels are unchanged. The map must be non-nil only when a write happens. |
| `K8sAdapter.NodeCustomLabel` | pkg/knode-manager/adapters/k8s/help.go:92-97 | Updates the node's labels in place to `CustomLabels` of the old labels. Nothing else of the node changes. |
| `K8sAdapter.CustomLabelRoundTrip` | pkg/knode-manager/adapters/k8s/help.go:93-95 | Labelling with `key:value`, both free of ':' and already trimmed, stores exactly `value` under `key`. |
| `K8sAdapter.CustomLabelMakesVirtualNode` | pkg/knode-manager/adapters/k8s/help.go:92-97 | A node labelled `type:kosmos-kubelet` this way satisfies `IsVirtualNode`. |
| `K8sAdapter.CustomLabelSetsClusterID` | pkg/knode-manager/adapters/k8s/help.go:92-97 | A node labelled `clusterID:<id>` this way reports `<id>` from `GetClusterID`. |
| `Utils.IsVirtualNode` | pkg/knode-manager/utils/k8s.go:213-222 | False for a nil node. Otherwise true if and only if the "type" label is present with value "kosmos-kubelet". |
| `Utils.IsVirtualPod` | pkg/knode-manager/utils/k8s.go:224-229 | True if and only if the labels map is non-nil and its "kosmos-pod" label is present and equal to "true". An absent key reads as "". |
| `Utils.GetClusterID` | pkg/knode-manager/utils/k8s.go:231-240 | "" for a nil node or a missing "clusterID" label, otherwise that label's value. A non-empty result always comes from a present label. |
| `Utils.UpdateConfigMap` | pkg/knode-manager/utils/k8s.go:242-246 | Afterwards the old object's labels, data and binary data are the new one's. Every other field is unchanged and the new object is untouched. The pair is then in sync, and on an in-sync pair the call changes nothing (idempotence). |
| `Utils.UpdateSecret` | pkg/knode-manager/utils/k8s.go:248-253 | Afterwards the old object's labels, data, string data and type are the new one's. Every other field is unchanged and the new object is untouched. On an in-sync pair the call changes nothing (idempotence). |
| `CoreV1.Lookup` | pkg/knode-manager/utils/k8s.go:217-221 | Go's comma-ok map index. A nil map or a missing key reads as ("", false). A present key reads as (value, true). |
| `Seqs.FilterMap` | pkg/knode-manager/adapters/k8s/help.go:44-50 | The append-in-a-loop result has one entry per contributing element. |
| `Seqs.FilterMapAt` | pkg/knode-manager/adapters/k8s/help.go:44-50 | A contributing element at index `i` lands at the number of contributing elements before `i`. |
| `Seqs.FilterMapOrigin` | pkg/knode-manager/adapters/k8s/help.go:44-50 | Every output entry comes from a contributing element, at that element's position. |
| `Seqs.FilterMapMembership` | pkg/knode-manager/adapters/k8s/help.go:44-50 | A value is in the output if and only if some element contributes it. |
| `GoStrings.Split` | pkg/knode-manager/adapters/k8s/help.go:93 | `strings.Split` returns one piece more than there are separators, so the empty string gives one piece. |
| `GoStrings.SplitJoin` | pkg/knode-manager/adapters/k8s/help.go:93 | Joining the pieces with the separator gives back the input, and no piece holds the separator. |
| `GoStrings.SplitAtOnlySeparator` | pkg/knode-manager/adapters/k8s/help.go:93-94 | With exactly one separator, the two pieces are the text before it and the text after it. |
| `GoStrings.TrimSpace` | pkg/knode-manager/adapters/k8s/help.go:95 | The result neither starts nor ends with white space. |
| `GoStrings.TrimLeft` | pkg/knode-manager/adapters/k8s/help.go:95 | The result is a suffix of the input. Everything dropped is white space, and the result does not start with white space. |
| `GoStrings.TrimRight` | pkg/knode-manager/adapters/k8s/help.go:95 | The result is a prefix of the input. Everything dropped is white space, and the result does not end with white space. |
| `GoStrings.TrimSpaceIdempotent` | pkg/knode-manager/adapters/k8s/help.go:95 | Trimming twice gives the same as trimming once. |

## Left out

- `CreateMergePatch` and `CreateJSONPatch` (pkg/knode-manager/utils/k8s.go:45-79) are not modelled. They only hand JSON encodings to external patch libraries, whose behaviour is not part of this model.
- `SetupSignalHandler` (pkg/knode-manager/utils/k8s.go:81-97) is not modelled. It is OS signal handling with a goroutine, channels and process exit.
- `NewClient`, `NewClientFromByte`, `NewMetricClient` and `NewMetricClientFromByte` (pkg/knode-manager/utils/k8s.go:101-211) are not modelled. They read kubeconfig files and build API clients.
- The `ClustersNodeSelection` struct and the label constants that no modelled function reads are not modelled.
- The `klog` logging in help.go is not modelled. It has no effect on results.
- No network-topology computation is modelled, because none appears in these source files. That includes CIDR allocation, route, FDB and ARP computation, and NodeConfig publication.
- The CRD and deployment manifests under pkg/kosmosctl/manifest hold templates only and are not modelled.
- Nil dereferences are preconditions, not modelled panics:
  - A CephFS, Cinder or RBD source without a SecretRef makes `getSecrets` panic. `SecretRefsDefined` excludes that case.
  - A nil labels map makes `nodeCustomLabel` panic when it writes. The precondition asks for a non-nil map only when a write happens.
  - Nil pod, node or object pointers are excluded by non-null parameter types. The exception is `IsVirtualNode` and `GetClusterID`, which handle nil.
- Map sharing is not modelled. After Go's `UpdateConfigMap` and `UpdateSecret`, the old and new objects share the same label and data maps, so a later in-place write to one shows in the other. Maps here are values.
- Pod phases, restart policies, condition types and condition statuses are the core/v1 constants, as enumerations. An unset or unknown string, such as an empty phase, cannot be written. For `podStopped` it would behave like a non-terminal phase.
- The nil check on `ImagePullSecrets` (help.go:34) has no counterpart. A nil slice and an empty slice are both the empty sequence.

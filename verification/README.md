# OSD pod volume topology (Rook)

A Dafny model of how Rook's Ceph operator builds the volumes and volume
mounts of an OSD pod whose OSD runs on a PersistentVolumeClaim
(`pkg/operator/ceph/cluster/osd/volumes.go`).

An OSD on a claim is prepared by an unprivileged init container and run by
privileged containers. The two sides share the claim's device through a
*bridge*: a memory-backed EmptyDir volume named `<claim>-bridge`. The pod's
volume list is the claim's volume, then its bridge, and — only when the OSD
also has a metadata claim — the metadata claim's volume, then its own bridge.
Three helpers give the mounts of a bridge: at `/mnt` for the data claim, at
`/srv` for the metadata claim, and at a caller-given path for the activate
container, whose sub-path is the last element of that path (Go's
`path.Base`). A separate helper gives the fixed host-path volume and mount
for `/run/udev`.

Files:

- `osd_volumes.dfy`, module `OsdVolumes`: the Kubernetes structures reduced to
  the fields the code sets (`Volume`, `VolumeSource` with its three kinds
  `PersistentVolumeClaim`, `EmptyDir`, `HostPath`, `VolumeMount` with `""` for
  an unset sub-path, as in Go), the five operations, and the properties of the
  volume list they build.
- `go_path.dfy`, module `GoPath`: Go's `path.Base`, written as the library
  computes it (strip trailing slashes, keep the text after the last slash,
  `"."` for the empty path, `"/"` for a path of slashes only), together with an
  independent statement of what the last element of a path is and a proof
  that the two agree.

Every operation is a function: the source builds each result as one struct
literal, and its one update — appending the metadata entries to a local
slice — is a sequence concatenation under an `if`. Being functions, they are
deterministic: building a bridge mount twice for the same claim gives the same
mount.

`getPVCOSDVolumes` has no error path and always returns its list
(`pkg/operator/ceph/cluster/osd/volumes.go:43-92`); the model has none either.

## Model

| member | source | states |
|---|---|---|
| `OsdVolumes.BridgeNameInjective` | pkg/operator/ceph/cluster/osd/volumes.go:33 | two claims get the same `<claim>-bridge` name exactly when they are the same claim |
| `OsdVolumes.BridgeNameDiffersFromClaim` | pkg/operator/ceph/cluster/osd/volumes.go:55 | a bridge volume's name is never the name of the claim volume it accompanies |
| `OsdVolumes.PvcOSDBridgeMount` | pkg/operator/ceph/cluster/osd/volumes.go:32-34 | the mount is named `<claim>-bridge`, is mounted at `/mnt` and has no sub-path |
| `OsdVolumes.PvcOSDBridgeMountActivate` | pkg/operator/ceph/cluster/osd/volumes.go:36-38 | the mount is named `<claim>-bridge`, is mounted at exactly the given path, and its sub-path is non-empty and is the last element of that path in the sense of `GoPath.IsBase` |
| `OsdVolumes.PvcMetadataOSDBridgeMount` | pkg/operator/ceph/cluster/osd/volumes.go:40-42 | the mount is named `<claim>-bridge`, is mounted at `/srv` and has no sub-path |
| `OsdVolumes.PVCOSDVolumes` | pkg/operator/ceph/cluster/osd/volumes.go:43-92 | exactly 2 volumes without a metadata claim and exactly 4 with one; the list is made of pairs, each a claim volume named after its claim followed by that claim's memory-backed bridge; the claims it refers to are the data claim, then the metadata claim only when there is one |
| `OsdVolumes.BridgedPairsDetermined` | pkg/operator/ceph/cluster/osd/volumes.go:44-87 | the pairing rule and the order of claims fix the list completely: two lists of claim/bridge pairs over the same claims in the same order are equal, so the volume list is the only one meeting the properties above |
| `OsdVolumes.PrimaryEntriesFixed` | pkg/operator/ceph/cluster/osd/volumes.go:44-62 | element 0 is the data claim's volume and element 1 its bridge, whatever the metadata claim and flag |
| `OsdVolumes.MetadataOnlyExtends` | pkg/operator/ceph/cluster/osd/volumes.go:64-87 | with a metadata claim the list is the list without one, extended by the metadata claim's volume and then its bridge |
| `OsdVolumes.BridgesFollowTheirClaims` | pkg/operator/ceph/cluster/osd/volumes.go:44-87 | in a list of claim/bridge pairs every EmptyDir volume has medium `Memory`, comes right after a claim volume and is named `<claim>-bridge` for that claim; no volume is a host path |
| `OsdVolumes.BridgeMountsResolve` | pkg/operator/ceph/cluster/osd/volumes.go:32-87 | the data bridge mount and the activate bridge mount of the data claim, and (with a metadata claim) the metadata bridge mount, each name a memory-backed bridge volume of the OSD's volume list |
| `OsdVolumes.VolumeNamesDistinct` | pkg/operator/ceph/cluster/osd/volumes.go:43-87 | the volume names are pairwise distinct exactly when there is no metadata claim, or the metadata claim differs from the data claim and neither claim is named like the other's bridge |
| `OsdVolumes.UdevVolume` | pkg/operator/ceph/cluster/osd/volumes.go:94-108 | the volume and the mount share the name `run-udev`; the volume is the host path `/run/udev` and the mount puts it at `/run/udev` with no sub-path |
| `OsdVolumes.UdevNameIsNotABridge` | pkg/operator/ceph/cluster/osd/volumes.go:26-28 | the udev volume's name is never the bridge name of any claim |
| `GoPath.Base` | pkg/operator/ceph/cluster/osd/volumes.go:37 | `path.Base` never returns the empty string |
| `GoPath.BaseCharacterized` | pkg/operator/ceph/cluster/osd/volumes.go:37 | `Base(p)` is `b` exactly when `b` is `"."` for an empty `p`, `"/"` for a path of slashes only, or otherwise the last run of non-slash characters, which starts the path or follows a slash and is followed only by slashes |
| `GoPath.BaseIgnoresTrailingSlash` | pkg/operator/ceph/cluster/osd/volumes.go:37 | appending a slash to a non-empty mount path does not change the activate mount's sub-path |
| `GoPath.BaseOfJoin` | pkg/operator/ceph/cluster/osd/volumes.go:37 | for a mount path `dir/name` whose last element `name` has no slash, the sub-path is `name` |
| `GoPath.BaseIdempotent` | pkg/operator/ceph/cluster/osd/volumes.go:37 | the base of a base is itself |

## Left out

- `osdProps.onPVCWithMetadata()` is defined outside this file; the model takes
  its answer as the boolean parameter `onPVCWithMetadata`, and the two claims
  as parameters instead of the whole OSD properties structure.
- The fields of the Kubernetes `Volume`, `VolumeMount` and volume source
  structures that the code leaves at their zero values (read-only mounts,
  EmptyDir size limit, host-path type, mount propagation, …) are not modelled.
- In Go the claim volumes point at the OSD properties' own claim structures
  (`&osdProps.pvc`, `&osdProps.metadataPVC`), so the returned volume shares
  them; the model copies the `ClaimSource` value instead. Nothing in the file
  changes either side, so no behaviour of the code is lost, but the sharing
  itself is not modelled.
- Go's `path.Base` belongs to Go's standard library, not to this repository;
  it is modelled from its documented behaviour and its implementation's steps.
- `logger.Debugf` in `getPVCOSDVolumes` only logs; it is left out.
- The constant `osdEncryptionVolName` is not used by any function of the file;
  it is left out.
- No name is checked against Kubernetes' naming rules: the code does not check
  them either, and `VolumeNamesDistinct` states exactly when its names clash.
- The bucket provisioner tests and the kubectl test-harness client of the
  repository are not part of this model: they are tests and cluster I/O, and
  the code they exercise is not among the modelled files.

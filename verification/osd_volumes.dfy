/**
 * The volumes and volume mounts that an OSD pod running on a
 * PersistentVolumeClaim gets from Rook's operator.
 *
 * The unprivileged init container and the privileged OSD containers share the
 * claim's device through a "bridge": a memory-backed EmptyDir volume named
 * `<claim>-bridge`. The pod's volume list holds the claim's volume followed by
 * its bridge, and, when the OSD also has a metadata claim, that claim's volume
 * followed by its own bridge. The udev volume is a fixed host-path volume.
 *
 * Only the fields the operator sets are modelled; every other field of the
 * Kubernetes structures keeps its zero value and is left out.
 */
module OsdVolumes {
  import opened GoPath

  /** Host directory of udev's device database, and the name of its volume. */
  const UdevPath: string := "/run/udev"
  const UdevVolName: string := "run-udev"

  /** Suffix that turns a claim name into the name of its bridge. */
  const BridgeSuffix: string := "-bridge"
  /** EmptyDir medium of every bridge: a tmpfs. */
  const MemoryMedium: string := "Memory"
  /** Where the OSD containers mount the data and the metadata bridges. */
  const DataBridgeMountPath: string := "/mnt"
  const MetadataBridgeMountPath: string := "/srv"

  /** A PersistentVolumeClaim volume source: the claim and its read-only flag. */
  datatype ClaimSource = ClaimSource(claimName: string, readOnly: bool)

  /** The three kinds of volume source this code builds. */
  datatype VolumeSource =
    | PersistentVolumeClaim(claim: ClaimSource)
    | EmptyDir(medium: string)
    | HostPath(path: string)

  datatype Volume = Volume(name: string, source: VolumeSource)

  /** A container's mount of a volume; `subPath` is "" when it is not set. */
  datatype VolumeMount = VolumeMount(name: string, mountPath: string, subPath: string)

  /** The name of the bridge volume of a claim. */
  function BridgeName(claimName: string): string {
    claimName + BridgeSuffix
  }

  /** Different claims never share a bridge name. */
  lemma BridgeNameInjective(a: string, b: string)
    ensures BridgeName(a) == BridgeName(b) <==> a == b
  {
    if BridgeName(a) == BridgeName(b) {
      assert |a| == |b|;
      assert a == BridgeName(a)[..|a|] && b == BridgeName(b)[..|b|];
    }
  }

  /** A bridge name is never the name of the claim it belongs to. */
  lemma BridgeNameDiffersFromClaim(c: string)
    ensures BridgeName(c) != c
  {
    assert |BridgeName(c)| == |c| + 7;
  }

  /** The OSD containers' mount of a claim's bridge at /mnt. */
  function PvcOSDBridgeMount(claimName: string): (m: VolumeMount)
    ensures m.name == BridgeName(claimName)
    ensures m.mountPath == DataBridgeMountPath && m.subPath == ""
  {
    VolumeMount(BridgeName(claimName), DataBridgeMountPath, "")
  }

  /**
   * The activate container's mount of a claim's bridge at `mountPath`; only
   * the last element of that path is taken from the bridge.
   */
  function PvcOSDBridgeMountActivate(mountPath: string, claimName: string): (m: VolumeMount)
    ensures m.name == BridgeName(claimName) && m.mountPath == mountPath
    ensures IsBase(mountPath, m.subPath) && m.subPath != ""
  {
    BaseIsBase(mountPath);
    VolumeMount(BridgeName(claimName), mountPath, Base(mountPath))
  }

  /** The OSD containers' mount of the metadata claim's bridge at /srv. */
  function PvcMetadataOSDBridgeMount(claimName: string): (m: VolumeMount)
    ensures m.name == BridgeName(claimName)
    ensures m.mountPath == MetadataBridgeMountPath && m.subPath == ""
  {
    VolumeMount(BridgeName(claimName), MetadataBridgeMountPath, "")
  }

  /** The volume of a claim, named after the claim. */
  function ClaimVolume(claim: ClaimSource): Volume {
    Volume(claim.claimName, PersistentVolumeClaim(claim))
  }

  /** The memory-backed bridge volume of a claim. */
  function BridgeVolume(claimName: string): Volume {
    Volume(BridgeName(claimName), EmptyDir(MemoryMedium))
  }

  /**
   * `vols` is a run of pairs, each a claim's volume named after the claim
   * and, right after it, that claim's memory-backed bridge.
   */
  predicate BridgedPairs(vols: seq<Volume>)
    decreases |vols|
  {
    || vols == []
    || (&& |vols| >= 2
        && vols[0].source.PersistentVolumeClaim?
        && vols[0].name == vols[0].source.claim.claimName
        && vols[1] == Volume(BridgeName(vols[0].name), EmptyDir(MemoryMedium))
        && BridgedPairs(vols[2..]))
  }

  /** The claims that the volumes of `vols` refer to, in order. */
  function PvcClaims(vols: seq<Volume>): seq<ClaimSource>
    decreases |vols|
  {
    if vols == [] then []
    else if vols[0].source.PersistentVolumeClaim? then [vols[0].source.claim] + PvcClaims(vols[1..])
    else PvcClaims(vols[1..])
  }

  /** The claims of a list that starts with a claim volume and a non-claim volume. */
  lemma PvcClaimsOfPair(vols: seq<Volume>)
    requires |vols| >= 2 && vols[0].source.PersistentVolumeClaim? && !vols[1].source.PersistentVolumeClaim?
    ensures PvcClaims(vols) == [vols[0].source.claim] + PvcClaims(vols[2..])
  {
    assert vols[1..][1..] == vols[2..];
  }

  /** The claims an OSD's pod refers to: its data claim, then its metadata claim if it has one. */
  function OsdClaims(pvc: ClaimSource, metadataPvc: ClaimSource, onPVCWithMetadata: bool): seq<ClaimSource> {
    if onPVCWithMetadata then [pvc, metadataPvc] else [pvc]
  }

  /**
   * The volumes of an OSD on a PVC: the claim and its bridge, then the
   * metadata claim and its bridge when the OSD has one. Whether it has one
   * is decided outside this file and is a parameter here.
   */
  function PVCOSDVolumes(pvc: ClaimSource, metadataPvc: ClaimSource, onPVCWithMetadata: bool): (vols: seq<Volume>)
    ensures |vols| == if onPVCWithMetadata then 4 else 2
    ensures BridgedPairs(vols)
    ensures PvcClaims(vols) == OsdClaims(pvc, metadataPvc, onPVCWithMetadata)
  {
    var volumes := [ClaimVolume(pvc), BridgeVolume(pvc.claimName)];
    if onPVCWithMetadata then
      var metadataVolumes := [ClaimVolume(metadataPvc), BridgeVolume(metadataPvc.claimName)];
      var all := volumes + metadataVolumes;
      assert all[2..] == metadataVolumes && metadataVolumes[2..] == [];
      PvcClaimsOfPair(all);
      PvcClaimsOfPair(metadataVolumes);
      all
    else
      assert volumes[2..] == [];
      PvcClaimsOfPair(volumes);
      volumes
  }

  /**
   * Pairing each claim with its bridge fixes the whole list: two bridged
   * lists that refer to the same claims in the same order are equal.
   */
  lemma {:induction false} BridgedPairsDetermined(v1: seq<Volume>, v2: seq<Volume>)
    requires BridgedPairs(v1) && BridgedPairs(v2)
    requires PvcClaims(v1) == PvcClaims(v2)
    ensures v1 == v2
    decreases |v1|
  {
    if v1 != [] {
      PvcClaimsOfPair(v1);
    }
    if v2 != [] {
      PvcClaimsOfPair(v2);
    }
    if v1 != [] && v2 != [] {
      var cs := PvcClaims(v1);
      assert cs[0] == v1[0].source.claim == v2[0].source.claim;
      assert cs[1..] == PvcClaims(v1[2..]) == PvcClaims(v2[2..]);
      assert v1[0] == v2[0] && v1[1] == v2[1];
      BridgedPairsDetermined(v1[2..], v2[2..]);
      assert v1 == v1[..2] + v1[2..] && v2 == v2[..2] + v2[2..];
    }
  }

  /** The primary entries do not depend on the metadata claim or flag. */
  lemma PrimaryEntriesFixed(pvc: ClaimSource, m1: ClaimSource, f1: bool, m2: ClaimSource, f2: bool)
    ensures PVCOSDVolumes(pvc, m1, f1)[..2] == PVCOSDVolumes(pvc, m2, f2)[..2]
    ensures PVCOSDVolumes(pvc, m1, f1)[0] == ClaimVolume(pvc)
    ensures PVCOSDVolumes(pvc, m1, f1)[1] == BridgeVolume(pvc.claimName)
  {
  }

  /** A metadata claim only appends its volume and bridge after the primary ones. */
  lemma MetadataOnlyExtends(pvc: ClaimSource, metadataPvc: ClaimSource)
    ensures PVCOSDVolumes(pvc, metadataPvc, true)
         == PVCOSDVolumes(pvc, metadataPvc, false) + [ClaimVolume(metadataPvc), BridgeVolume(metadataPvc.claimName)]
  {
  }

  /**
   * In a bridged list every EmptyDir volume is a memory-backed bridge named
   * after the claim volume just before it, and no volume is a host path.
   */
  lemma {:induction false} BridgesFollowTheirClaims(vols: seq<Volume>)
    requires BridgedPairs(vols)
    ensures forall i :: 0 <= i < |vols| && vols[i].source.EmptyDir? ==>
              && 0 < i
              && vols[i - 1].source.PersistentVolumeClaim?
              && vols[i].source.medium == MemoryMedium
              && vols[i].name == BridgeName(vols[i - 1].source.claim.claimName)
    ensures forall i :: 0 <= i < |vols| ==> !vols[i].source.HostPath?
    decreases |vols|
  {
    if vols != [] {
      var rest := vols[2..];
      BridgesFollowTheirClaims(rest);
      forall i | 0 <= i < |vols| && vols[i].source.EmptyDir?
        ensures && 0 < i
                && vols[i - 1].source.PersistentVolumeClaim?
                && vols[i].source.medium == MemoryMedium
                && vols[i].name == BridgeName(vols[i - 1].source.claim.claimName)
      {
        if 2 <= i {
          assert vols[i] == rest[i - 2] && vols[i - 1] == vols[2..][i - 3];
        }
      }
      forall i | 0 <= i < |vols| ensures !vols[i].source.HostPath? {
        if 2 <= i {
          assert vols[i] == rest[i - 2];
        }
      }
    }
  }

  /** There is a memory-backed EmptyDir volume in `vols` that `m` mounts by name. */
  predicate MountsBridge(m: VolumeMount, vols: seq<Volume>) {
    exists i :: 0 <= i < |vols| && vols[i].name == m.name && vols[i].source == EmptyDir(MemoryMedium)
  }

  /**
   * Every bridge mount the helpers give for the OSD's claims refers to a
   * memory-backed bridge volume of the OSD's volume list.
   */
  lemma BridgeMountsResolve(pvc: ClaimSource, metadataPvc: ClaimSource, onPVCWithMetadata: bool, activatePath: string)
    ensures MountsBridge(PvcOSDBridgeMount(pvc.claimName), PVCOSDVolumes(pvc, metadataPvc, onPVCWithMetadata))
    ensures MountsBridge(PvcOSDBridgeMountActivate(activatePath, pvc.claimName), PVCOSDVolumes(pvc, metadataPvc, onPVCWithMetadata))
    ensures onPVCWithMetadata ==>
              MountsBridge(PvcMetadataOSDBridgeMount(metadataPvc.claimName), PVCOSDVolumes(pvc, metadataPvc, true))
  {
    var vols := PVCOSDVolumes(pvc, metadataPvc, onPVCWithMetadata);
    assert vols[1] == BridgeVolume(pvc.claimName);
    if onPVCWithMetadata {
      assert vols[3] == BridgeVolume(metadataPvc.claimName);
    }
  }

  /** No two volumes of `vols` share a name, as a pod spec requires. */
  predicate DistinctNames(vols: seq<Volume>) {
    forall i, j :: 0 <= i < j < |vols| ==> vols[i].name != vols[j].name
  }

  /**
   * The volume names are distinct exactly when the metadata claim, if any,
   * is neither the data claim nor either claim's bridge name.
   */
  lemma VolumeNamesDistinct(pvc: ClaimSource, metadataPvc: ClaimSource, onPVCWithMetadata: bool)
    ensures DistinctNames(PVCOSDVolumes(pvc, metadataPvc, onPVCWithMetadata)) <==>
              (|| !onPVCWithMetadata
               || (&& pvc.claimName != metadataPvc.claimName
                   && pvc.claimName != BridgeName(metadataPvc.claimName)
                   && metadataPvc.claimName != BridgeName(pvc.claimName)))
  {
    var c, m := pvc.claimName, metadataPvc.claimName;
    var vols := PVCOSDVolumes(pvc, metadataPvc, onPVCWithMetadata);
    BridgeNameDiffersFromClaim(c);
    BridgeNameDiffersFromClaim(m);
    BridgeNameInjective(c, m);
    assert vols[0].name == c && vols[1].name == BridgeName(c);
    if onPVCWithMetadata {
      assert vols[2].name == m && vols[3].name == BridgeName(m);
    }
  }

  /** The udev volume and the mount that exposes it at the same path in the container. */
  function UdevVolume(): (r: (Volume, VolumeMount))
    ensures r.0.name == UdevVolName && r.1.name == r.0.name
    ensures r.0.source == HostPath(UdevPath)
    ensures r.1.mountPath == UdevPath && r.1.subPath == ""
  {
    var volume := Volume(UdevVolName, HostPath(UdevPath));
    var volumeMount := VolumeMount(UdevVolName, UdevPath, "");
    (volume, volumeMount)
  }

  /** The udev volume's name is never a bridge name, so its mount cannot reach a bridge. */
  lemma UdevNameIsNotABridge(claimName: string)
    ensures UdevVolume().0.name != BridgeName(claimName)
  {
    var b := BridgeName(claimName);
    if |b| == |UdevVolName| {
      assert b[1] == '-' && UdevVolName[1] == 'u';
    }
  }
}

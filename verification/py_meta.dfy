/**
  pypartition's partition validation (system.py): reading the image-meta
  partition (`load_image_meta`), turning its part_infos into partitions
  (`get_partitions_according_meta`), and deciding whether an image or a
  flash device is fit to use (`get_valid_partitions`).

  Reading the file, md5 and the JSON parser are inputs: whether the meta and
  checksum lines could be read and parsed, the two digests, and the parsed
  meta object.  Whether a partition's checksum holds, which other partitions
  a partition's checksum covers, and the partitions the legacy layout scan
  (`get_partitions`) finds are oracles; partition.py, which computes them,
  is not part of this model.  `sys.exit(1)` is an outcome of its own.
 */
module PyMeta {
  import opened Common
  import opened PyMtd

  /** `FBOBMC_IMAGE_META_LOCATION`, `FBOBMC_IMAGE_META_SIZE`, `FBOBMC_IMAGE_META_VER`. */
  const META_LOCATION: nat := 0xF0000
  const META_SIZE: nat := 64 * 1024
  const META_VER: int := 1

  /**
    The meta version field as the log line's `%d` sees it before the type
    check: a JSON integer; a finite non-integer number or a boolean, which
    `%d` formats; or a value `%d` raises on (a string, null, an array, an
    object, NaN or an infinity).
   */
  datatype MetaVersion = IntVersion(v: int) | OtherNumber | Unformattable

  /** One entry of `part_infos`. */
  datatype PartInfo = PartInfo(kind: string, size: nat, offset: nat, name: string, md5: string)

  /** The parsed meta object: its version and, when present, `part_infos`. */
  datatype MetaInfo = MetaInfo(version: MetaVersion, partInfos: Option<seq<PartInfo>>)

  /**
    What reading the meta partition of an image gives: the image size,
    whether `open` succeeded, whether the reads, the checksum line's JSON
    and its `meta_md5` key succeeded, the md5 of the meta line and the
    expected one, and the meta object (`None` when the meta line is not JSON
    or lacks a logged key).
   */
  datatype MetaRead = MetaRead(size: nat, opens: bool, readOk: bool, dataMd5: string, expectedMd5: string,
                               info: Option<MetaInfo>)

  /**
    The exceptions `load_image_meta` raises.  `MetaOpenFailed` is the
    `OSError` of the `open` outside the `try`; `MetaUnparsable` is the JSON,
    key or formatting error raised after the digest check.
   */
  datatype MetaError = MetaNotFound | MetaCorrupted | MetaVerNotSupport | MetaMissingPartInfos
                     | MetaOpenFailed | MetaUnparsable

  datatype MetaResult = MetaLoaded(parts: seq<PartInfo>) | MetaFailed(error: MetaError)

  predicate VersionSupported(v: MetaVersion) {
    v.IntVersion? && 0 < v.v <= META_VER
  }

  /**
    `load_image_meta`: a too-small image is "not found"; a failed `open`
    raises its own error; a failed read is "not found"; then a digest
    mismatch is "corrupted"; then the meta line must parse and its version
    must format under `%d`; then the version must be an integer in
    1..FBOBMC_IMAGE_META_VER; then `part_infos` must be present.
   */
  function LoadImageMeta(m: MetaRead): (r: MetaResult)
    ensures r == MetaFailed(MetaNotFound) <==> m.size < META_LOCATION + META_SIZE || (m.opens && !m.readOk)
    ensures r == MetaFailed(MetaOpenFailed) <==> m.size >= META_LOCATION + META_SIZE && !m.opens
    ensures r == MetaFailed(MetaCorrupted) <==>
              m.size >= META_LOCATION + META_SIZE && m.opens && m.readOk && m.dataMd5 != m.expectedMd5
    ensures r == MetaFailed(MetaUnparsable) <==>
              m.size >= META_LOCATION + META_SIZE && m.opens && m.readOk && m.dataMd5 == m.expectedMd5
              && (m.info.None? || m.info.value.version == Unformattable)
    ensures r == MetaFailed(MetaVerNotSupport) <==>
              m.size >= META_LOCATION + META_SIZE && m.opens && m.readOk && m.dataMd5 == m.expectedMd5
              && m.info.Some? && m.info.value.version != Unformattable && !VersionSupported(m.info.value.version)
    ensures r == MetaFailed(MetaMissingPartInfos) <==>
              m.size >= META_LOCATION + META_SIZE && m.opens && m.readOk && m.dataMd5 == m.expectedMd5
              && m.info.Some? && VersionSupported(m.info.value.version) && m.info.value.partInfos.None?
    ensures r.MetaLoaded? ==> m.info.Some? && m.info.value.partInfos == Some(r.parts)
  {
    if m.size < META_LOCATION + META_SIZE then MetaFailed(MetaNotFound)
    else if !m.opens then MetaFailed(MetaOpenFailed)
    else if !m.readOk then MetaFailed(MetaNotFound)
    else if m.dataMd5 != m.expectedMd5 then MetaFailed(MetaCorrupted)
    else if m.info.None? || m.info.value.version == Unformattable then MetaFailed(MetaUnparsable)
    else if !VersionSupported(m.info.value.version) then MetaFailed(MetaVerNotSupport)
    else if m.info.value.partInfos.None? then MetaFailed(MetaMissingPartInfos)
    else MetaLoaded(m.info.value.partInfos.value)
  }

  // ---------------------------------------------------------------------------
  // Partitions from part_infos
  // ---------------------------------------------------------------------------

  /** The partition classes of partition.py the meta types map to. */
  datatype PartKind = ExternalChecksum(md5s: seq<string>) | DeviceTree | Plain

  /** A partition: its class, name, offset and size; it ends at offset + size. */
  datatype Part = Part(kind: PartKind, name: string, offset: nat, size: nat)

  function End(p: Part): nat {
    p.offset + p.size
  }

  /** What one part_info becomes: a partition, nothing, or an `AssertionError`. */
  datatype Typed = Made(part: Part) | Skipped | UnknownType

  /**
    The type dispatch of `get_partitions_according_meta`: "raw" is checked
    against the entry's md5, "fit" is a device tree, "data" and "meta" are
    plain, "mtdonly" is plain on a flash device and dropped for an image
    file, and "rom" is plain under hardware enforcement and md5-checked
    otherwise.
   */
  function TypePart(p: PartInfo, isDevice: bool, mode: Vboot): (t: Typed)
    ensures t.Made? ==> t.part.name == p.name && t.part.offset == p.offset && t.part.size == p.size
    ensures t.UnknownType? <==> p.kind !in {"raw", "fit", "data", "meta", "mtdonly", "rom"}
    ensures t.Skipped? <==> p.kind == "mtdonly" && !isDevice
    ensures t.Made? && t.part.kind.ExternalChecksum? ==> t.part.kind.md5s == [p.md5]
    ensures p.kind == "raw" ==> t.Made? && t.part.kind.ExternalChecksum?
    ensures p.kind == "fit" ==> t.Made? && t.part.kind == DeviceTree
    ensures p.kind == "data" || p.kind == "meta" ==> t.Made? && t.part.kind == Plain
    ensures p.kind == "mtdonly" && isDevice ==> t.Made? && t.part.kind == Plain
    ensures p.kind == "rom" ==> t.Made? && (t.part.kind == Plain <==> mode == HardwareEnforce)
    ensures p.kind == "rom" && mode != HardwareEnforce ==> t.part.kind.ExternalChecksum?
  {
    if p.kind == "raw" then Made(Part(ExternalChecksum([p.md5]), p.name, p.offset, p.size))
    else if p.kind == "fit" then Made(Part(DeviceTree, p.name, p.offset, p.size))
    else if p.kind == "data" || p.kind == "meta" then Made(Part(Plain, p.name, p.offset, p.size))
    else if p.kind == "mtdonly" then
      if isDevice then Made(Part(Plain, p.name, p.offset, p.size)) else Skipped
    else if p.kind == "rom" then
      if mode == HardwareEnforce then Made(Part(Plain, p.name, p.offset, p.size))
      else Made(Part(ExternalChecksum([p.md5]), p.name, p.offset, p.size))
    else UnknownType
  }

  /** The partitions of all part_infos in order, or the first entry of unknown type. */
  datatype PartsResult = PartsMade(parts: seq<Part>) | PartsUnknown(info: PartInfo)

  /** Entry `k` is the first whose type is unknown. */
  predicate FirstUnknownAt(infos: seq<PartInfo>, isDevice: bool, mode: Vboot, k: nat) {
    && k < |infos| && TypePart(infos[k], isDevice, mode).UnknownType?
    && forall j :: 0 <= j < k ==> !TypePart(infos[j], isDevice, mode).UnknownType?
  }

  /** `p` is the partition some entry makes. */
  predicate MadeBySome(infos: seq<PartInfo>, isDevice: bool, mode: Vboot, p: Part) {
    exists k :: 0 <= k < |infos| && TypePart(infos[k], isDevice, mode) == Made(p)
  }

  /** `get_partitions_according_meta`. */
  function PartitionsFromMeta(infos: seq<PartInfo>, isDevice: bool, mode: Vboot): (r: PartsResult)
    ensures r.PartsMade? <==> forall k :: 0 <= k < |infos| ==> !TypePart(infos[k], isDevice, mode).UnknownType?
    ensures r.PartsUnknown? ==> exists k: nat :: FirstUnknownAt(infos, isDevice, mode, k) && infos[k] == r.info
    ensures r.PartsMade? ==> |r.parts| <= |infos|
    ensures r.PartsMade? ==> forall p :: p in r.parts <==> MadeBySome(infos, isDevice, mode, p)
  {
    if infos == [] then PartsMade([])
    else
      var t := TypePart(infos[0], isDevice, mode);
      if t.UnknownType? then
        assert FirstUnknownAt(infos, isDevice, mode, 0);
        PartsUnknown(infos[0])
      else
        var rest := PartitionsFromMeta(infos[1..], isDevice, mode);
        if rest.PartsUnknown? then
          UnknownLater(infos, isDevice, mode, rest.info);
          rest
        else
          KnownTail(infos, isDevice, mode);
          MadeFromTail(infos, isDevice, mode, rest.parts);
          if t.Made? then PartsMade([t.part] + rest.parts) else rest
  }

  /** A known first entry shifts the first unknown one of the tail by one. */
  lemma UnknownLater(infos: seq<PartInfo>, isDevice: bool, mode: Vboot, info: PartInfo)
    requires infos != [] && !TypePart(infos[0], isDevice, mode).UnknownType?
    requires exists k: nat :: FirstUnknownAt(infos[1..], isDevice, mode, k) && infos[1..][k] == info
    ensures exists k: nat :: FirstUnknownAt(infos, isDevice, mode, k) && infos[k] == info
  {
    var k: nat :| FirstUnknownAt(infos[1..], isDevice, mode, k) && infos[1..][k] == info;
    forall j | 0 <= j < k + 1
      ensures !TypePart(infos[j], isDevice, mode).UnknownType?
    {
      if j > 0 {
        assert infos[j] == infos[1..][j - 1];
      }
    }
    assert FirstUnknownAt(infos, isDevice, mode, k + 1);
  }

  /** A known first entry and a known tail make every entry known. */
  lemma KnownTail(infos: seq<PartInfo>, isDevice: bool, mode: Vboot)
    requires infos != [] && !TypePart(infos[0], isDevice, mode).UnknownType?
    requires forall k :: 0 <= k < |infos[1..]| ==> !TypePart(infos[1..][k], isDevice, mode).UnknownType?
    ensures forall k :: 0 <= k < |infos| ==> !TypePart(infos[k], isDevice, mode).UnknownType?
  {
    forall k | 0 < k < |infos|
      ensures !TypePart(infos[k], isDevice, mode).UnknownType?
    {
      assert infos[k] == infos[1..][k - 1];
    }
  }

  /** The partitions the whole list makes: those of the first entry and those of the tail. */
  lemma MadeFromTail(infos: seq<PartInfo>, isDevice: bool, mode: Vboot, parts: seq<Part>)
    requires infos != [] && !TypePart(infos[0], isDevice, mode).UnknownType?
    requires forall p :: p in parts <==> MadeBySome(infos[1..], isDevice, mode, p)
    ensures var t := TypePart(infos[0], isDevice, mode);
            forall p :: p in (if t.Made? then [t.part] + parts else parts) <==> MadeBySome(infos, isDevice, mode, p)
  {
    var t := TypePart(infos[0], isDevice, mode);
    forall p | MadeBySome(infos[1..], isDevice, mode, p)
      ensures MadeBySome(infos, isDevice, mode, p)
    {
      var k :| 0 <= k < |infos[1..]| && TypePart(infos[1..][k], isDevice, mode) == Made(p);
      assert infos[k + 1] == infos[1..][k];
    }
    forall p | MadeBySome(infos, isDevice, mode, p) && (t.Made? ==> p != t.part)
      ensures MadeBySome(infos[1..], isDevice, mode, p)
    {
      var k :| 0 <= k < |infos| && TypePart(infos[k], isDevice, mode) == Made(p);
      assert k > 0;
      assert infos[1..][k - 1] == infos[k];
    }
    if t.Made? {
      assert MadeBySome(infos, isDevice, mode, t.part) by {
        assert TypePart(infos[0], isDevice, mode) == Made(t.part);
      }
    }
  }

  // ---------------------------------------------------------------------------
  // get_valid_partitions
  // ---------------------------------------------------------------------------

  /** How `get_valid_partitions` ends: a partition list, `sys.exit(code)`, or an exception. */
  datatype Outcome = Returned(parts: seq<Part>) | SysExit(code: int) | RaisedMeta(error: MetaError)
                   | RaisedUnknownType(info: PartInfo)

  /** The index of the first partition whose checksum fails, or |parts|. */
  function FirstInvalid(parts: seq<Part>, valid: Part -> bool): (i: nat)
    ensures i <= |parts|
    ensures forall j :: 0 <= j < i ==> valid(parts[j])
    ensures i < |parts| ==> !valid(parts[i])
  {
    if parts == [] || !valid(parts[0]) then 0 else 1 + FirstInvalid(parts[1..], valid)
  }

  /** `get_valid_partitions_according_meta`: exit at the first invalid partition; no other check. */
  function ValidPartitionsFromMeta(infos: seq<PartInfo>, isDevice: bool, mode: Vboot, valid: Part -> bool): (o: Outcome)
    ensures o.Returned? <==> PartitionsFromMeta(infos, isDevice, mode).PartsMade?
                              && forall p :: p in PartitionsFromMeta(infos, isDevice, mode).parts ==> valid(p)
    ensures o.Returned? ==> o.parts == PartitionsFromMeta(infos, isDevice, mode).parts
    ensures o.SysExit? ==> o.code == 1
    ensures !o.RaisedMeta?
  {
    match PartitionsFromMeta(infos, isDevice, mode)
    case PartsUnknown(info) => RaisedUnknownType(info)
    case PartsMade(parts) =>
      var i := FirstInvalid(parts, valid);
      if i < |parts| then SysExit(1) else Returned(parts)
  }

  /** Partitions whose failing checksum is tolerated: env and data0, and u-boot under hardware enforcement. */
  function Unvalidated(mode: Vboot): (names: seq<string>)
    ensures "env" in names && "data0" in names
    ensures "u-boot" in names <==> mode == HardwareEnforce
  {
    ["env", "data0"] + (if mode == HardwareEnforce then ["u-boot"] else [])
  }

  /** Every name some partition's checksum covers (`valid_external_partitions`), in order. */
  function Covered(parts: seq<Part>, covers: Part -> seq<string>): (names: seq<string>)
    ensures forall n :: n in names <==> exists k :: 0 <= k < |parts| && n in covers(parts[k])
  {
    if parts == [] then []
    else
      var rest := Covered(parts[1..], covers);
      assert forall k :: 0 <= k < |parts| - 1 ==> parts[1..][k] == parts[k + 1];
      covers(parts[0]) + rest
  }

  /** A legacy partition is acceptable when valid, covered by another checksum, or not validated at all. */
  predicate Acceptable(p: Part, valid: Part -> bool, covered: seq<string>, unvalidated: seq<string>) {
    valid(p) || p.name in covered || p.name in unvalidated
  }

  /** Each partition begins where the previous one ends. */
  predicate Contiguous(parts: seq<Part>) {
    forall i :: 0 < i < |parts| ==> End(parts[i - 1]) == parts[i].offset
  }

  /**
    The final loop of `get_valid_partitions` on the legacy layout: for each
    partition, exit if it is unacceptable, then exit if it does not start
    where the previous one ended.
   */
  method CheckLegacy(parts: seq<Part>, valid: Part -> bool, covered: seq<string>, unvalidated: seq<string>)
    returns (ok: bool)
    ensures ok <==> (forall i :: 0 <= i < |parts| ==> Acceptable(parts[i], valid, covered, unvalidated))
                    && Contiguous(parts)
  {
    var i := 0;
    while i < |parts|
      invariant 0 <= i <= |parts|
      invariant forall j :: 0 <= j < i ==> Acceptable(parts[j], valid, covered, unvalidated)
      invariant forall j :: 0 < j < i ==> End(parts[j - 1]) == parts[j].offset
    {
      if !Acceptable(parts[i], valid, covered, unvalidated) {
        return false;
      }
      if i > 0 && End(parts[i - 1]) != parts[i].offset {
        return false;
      }
      i := i + 1;
    }
    return true;
  }

  /**
    `get_valid_partitions` for `sources` image files or devices: none gives
    an empty list; a single one is validated by its meta partition when it
    has one (a meta error other than "not found" propagates); otherwise the
    legacy scan (`legacy`, `None` when it exits on an unknown magic) is
    checked partition by partition.
   */
  method GetValidPartitions(sources: nat, meta: MetaRead, isDevice: bool, mode: Vboot,
                            legacy: Option<seq<Part>>, valid: Part -> bool, covers: Part -> seq<string>)
    returns (o: Outcome)
    ensures sources == 0 ==> o == Returned([])
    ensures sources == 1 && LoadImageMeta(meta).MetaLoaded? ==>
              o == ValidPartitionsFromMeta(LoadImageMeta(meta).parts, isDevice, mode, valid)
    ensures o.RaisedMeta? <==> sources == 1 && LoadImageMeta(meta).MetaFailed? && LoadImageMeta(meta).error != MetaNotFound
    ensures o.SysExit? ==> o.code == 1
    ensures (sources > 1 || (sources == 1 && LoadImageMeta(meta) == MetaFailed(MetaNotFound))) ==>
              (o.Returned? <==> legacy.Some?
                                && (forall i :: 0 <= i < |legacy.value| ==>
                                      Acceptable(legacy.value[i], valid, Covered(legacy.value, covers), Unvalidated(mode)))
                                && Contiguous(legacy.value))
              && (o.Returned? ==> o.parts == legacy.value)
  {
    if sources == 0 {
      return Returned([]);
    }
    if sources == 1 {
      var r := LoadImageMeta(meta);
      if r.MetaLoaded? {
        return ValidPartitionsFromMeta(r.parts, isDevice, mode, valid);
      } else if r.error != MetaNotFound {
        return RaisedMeta(r.error);
      }
    }
    if legacy.None? {
      return SysExit(1);
    }
    var parts := legacy.value;
    var ok := CheckLegacy(parts, valid, Covered(parts, covers), Unvalidated(mode));
    if ok {
      return Returned(parts);
    }
    return SysExit(1);
  }

  // ---------------------------------------------------------------------------
  // Properties
  // ---------------------------------------------------------------------------

  /** A failing checksum on env or data0 never stops validation; on u-boot, only under hardware enforcement. */
  lemma UnvalidatedTolerated(p: Part, valid: Part -> bool, covered: seq<string>, mode: Vboot)
    requires p.name == "env" || p.name == "data0" || (p.name == "u-boot" && mode == HardwareEnforce)
    ensures Acceptable(p, valid, covered, Unvalidated(mode))
  {
  }

  /** Outside hardware enforcement, an invalid and uncovered u-boot is refused. */
  lemma UbootCheckedUnlessHardwareEnforced(p: Part, valid: Part -> bool, covered: seq<string>, mode: Vboot)
    requires p.name == "u-boot" && !valid(p) && "u-boot" !in covered && mode != HardwareEnforce
    ensures !Acceptable(p, valid, covered, Unvalidated(mode))
  {
  }

  /** A gap or overlap between two neighbouring legacy partitions makes the layout unacceptable. */
  lemma GapRefused(parts: seq<Part>, i: nat)
    requires 0 < i < |parts| && End(parts[i - 1]) != parts[i].offset
    ensures !Contiguous(parts)
  {
  }

  /** A supported meta version with part_infos and matching digests loads exactly those part_infos. */
  lemma WellFormedMetaLoads(m: MetaRead)
    requires m.size >= META_LOCATION + META_SIZE && m.opens && m.readOk && m.dataMd5 == m.expectedMd5
    requires m.info.Some? && m.info.value.version == IntVersion(1) && m.info.value.partInfos.Some?
    ensures LoadImageMeta(m) == MetaLoaded(m.info.value.partInfos.value)
  {
  }
}

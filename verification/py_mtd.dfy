/**
  pypartition's choice of flash devices (`get_mtds` in system.py): which
  /proc/mtd entries are whole-flash devices to write an image to, under each
  verified-boot enforcement mode, and the order they are tried in.

  Parsing /proc/mtd with its regular expression and the hexadecimal size is
  an input (the parsed entries), and so is the enforcement mode, which
  `get_vboot_enforcement` finds by running vboot-util.  The
  `MemoryTechnologyDevice` class lives in virtualcat.py, which is not part
  of this model; it is taken to keep the device, size, name and offset it is
  built with.
 */
module PyMtd {
  import opened Common

  /** What `get_vboot_enforcement` reports. */
  datatype Vboot = NoVboot | SoftwareEnforce | HardwareEnforce

  /** One line of /proc/mtd after the regular expression: device, size and name. */
  datatype MtdEntry = MtdEntry(device: string, size: nat, name: string)

  /** A `MemoryTechnologyDevice`; `offset` is the read-only head in KiB. */
  datatype Mtd = Mtd(device: string, size: nat, name: string, offset: nat)

  /** The hardware-enforce read-only offset of flash1. */
  const HW_OFFSET: nat := 384

  /** The names of whole-flash devices. */
  predicate IsFullFlashName(name: string) {
    name == "flash" || name == "flash0" || name == "flash1" || name == "Partition_000"
  }

  /** The device `get_mtds` offers for writing, if this entry is one. */
  function Selected(e: MtdEntry, mode: Vboot): (m: Option<Mtd>)
    ensures m.Some? ==> IsFullFlashName(e.name) && m.value.device == e.device
                        && m.value.size == e.size && m.value.name == e.name
    ensures mode == NoVboot ==> (m.Some? <==> IsFullFlashName(e.name))
    ensures mode == SoftwareEnforce ==> (m.Some? <==> e.name == "flash0" || e.name == "flash1")
    ensures mode == HardwareEnforce ==> (m.Some? <==> e.name == "flash1")
    ensures m.Some? ==> m.value.offset == (if mode == HardwareEnforce then HW_OFFSET else 0)
  {
    if !IsFullFlashName(e.name) then None
    else if mode == NoVboot || (mode == SoftwareEnforce && (e.name == "flash0" || e.name == "flash1")) then
      Some(Mtd(e.device, e.size, e.name, 0))
    else if mode == HardwareEnforce && e.name == "flash1" then
      Some(Mtd(e.device, e.size, e.name, HW_OFFSET))
    else None
  }

  /** The selected devices, in /proc/mtd order. */
  function Candidates(info: seq<MtdEntry>, mode: Vboot): (c: seq<Mtd>)
    ensures |c| <= |info|
    ensures forall m :: m in c <==> exists k :: 0 <= k < |info| && Selected(info[k], mode) == Some(m)
  {
    if info == [] then []
    else
      var rest := Candidates(info[1..], mode);
      assert forall k :: 0 <= k < |info| - 1 ==> info[1..][k] == info[k + 1];
      var head := Selected(info[0], mode);
      if head.Some? then [head.value] + rest else rest
  }

  /** Every entry as a device with no read-only offset. */
  function AllMtds(info: seq<MtdEntry>): (all: seq<Mtd>)
    ensures |all| == |info|
    ensures forall k :: 0 <= k < |info| ==> all[k] == Mtd(info[k].device, info[k].size, info[k].name, 0)
  {
    if info == [] then [] else [Mtd(info[0].device, info[0].size, info[0].name, 0)] + AllMtds(info[1..])
  }

  // ---------------------------------------------------------------------------
  // Python's string order and the descending sort
  // ---------------------------------------------------------------------------

  /** `a < b` on Python strings: code point by code point, a proper prefix first. */
  predicate StrLess(a: string, b: string)
    decreases |a|
  {
    if a == [] then b != []
    else if b == [] then false
    else if a[0] != b[0] then a[0] < b[0]
    else StrLess(a[1..], b[1..])
  }

  lemma {:induction false} StrLessIrreflexive(a: string)
    ensures !StrLess(a, a)
    decreases |a|
  {
    if a != [] {
      StrLessIrreflexive(a[1..]);
    }
  }

  lemma {:induction false} StrLessTransitive(a: string, b: string, c: string)
    requires StrLess(a, b) && StrLess(b, c)
    ensures StrLess(a, c)
    decreases |a|
  {
    if a != [] && a[0] == b[0] && b[0] == c[0] {
      StrLessTransitive(a[1..], b[1..], c[1..]);
    }
  }

  lemma {:induction false} StrLessTotal(a: string, b: string)
    requires a != b
    ensures StrLess(a, b) || StrLess(b, a)
    decreases |a|
  {
    if a != [] && b != [] && a[0] == b[0] {
      assert a == [a[0]] + a[1..] && b == [b[0]] + b[1..];
      StrLessTotal(a[1..], b[1..]);
    }
  }

  /** Sorted by device name, largest first (`sort(key=device_name, reverse=True)`). */
  predicate SortedDescending(ms: seq<Mtd>) {
    forall i, j :: 0 <= i < j < |ms| ==> !StrLess(ms[i].device, ms[j].device)
  }

  lemma StrLessAsymmetric(a: string, b: string)
    requires StrLess(a, b)
    ensures !StrLess(b, a)
  {
    if StrLess(b, a) {
      StrLessTransitive(a, b, a);
      StrLessIrreflexive(a);
    }
  }

  /** `c <= a < b` gives `c < b`. */
  lemma NotLessThenLess(a: string, b: string, c: string)
    requires !StrLess(a, c) && StrLess(a, b)
    ensures StrLess(c, b)
  {
    if a != c {
      StrLessTotal(a, c);
      StrLessTransitive(c, a, b);
    }
  }

  /** A device larger than the first of a descending list is larger than all of it. */
  lemma AboveHead(x: Mtd, s: seq<Mtd>)
    requires SortedDescending(s) && s != [] && StrLess(s[0].device, x.device)
    ensures forall j :: 0 <= j < |s| ==> !StrLess(x.device, s[j].device)
  {
    StrLessIrreflexive(s[0].device);
    forall j | 0 <= j < |s|
      ensures !StrLess(x.device, s[j].device)
    {
      NotLessThenLess(s[0].device, x.device, s[j].device);
      StrLessAsymmetric(s[j].device, x.device);
    }
  }

  /**
    Insert `x` after every device whose name is not smaller: a descending
    insertion (ties do not arise, /proc/mtd device names being distinct).
   */
  function Insert(x: Mtd, s: seq<Mtd>): (r: seq<Mtd>)
    requires SortedDescending(s)
    ensures |r| == |s| + 1
    ensures multiset(r) == multiset(s) + multiset{x}
    ensures SortedDescending(r)
  {
    if s == [] then [x]
    else if StrLess(s[0].device, x.device) then
      AboveHead(x, s);
      [x] + s
    else
      TailDescending(s);
      var rest := Insert(x, s[1..]);
      HeadStaysFirst(x, s, rest);
      [s[0]] + rest
  }

  lemma TailDescending(s: seq<Mtd>)
    requires s != [] && SortedDescending(s)
    ensures SortedDescending(s[1..])
  {
    forall i, j | 0 <= i < j < |s| - 1
      ensures !StrLess(s[1..][i].device, s[1..][j].device)
    {
      assert s[1..][i] == s[i + 1] && s[1..][j] == s[j + 1];
    }
  }

  /** A head that no element of a descending list exceeds stays in front of it. */
  lemma ConsDescending(h: Mtd, rest: seq<Mtd>)
    requires SortedDescending(rest)
    requires forall j :: 0 <= j < |rest| ==> !StrLess(h.device, rest[j].device)
    ensures SortedDescending([h] + rest)
  {
    var r := [h] + rest;
    forall i, j | 0 <= i < j < |r|
      ensures !StrLess(r[i].device, r[j].device)
    {
      assert r[j] == rest[j - 1];
      if i > 0 {
        assert r[i] == rest[i - 1];
      }
    }
  }

  /** When `x` is not above the head, the head stays first and `x` goes into the tail. */
  lemma HeadStaysFirst(x: Mtd, s: seq<Mtd>, rest: seq<Mtd>)
    requires s != [] && SortedDescending(s) && !StrLess(s[0].device, x.device)
    requires SortedDescending(rest) && multiset(rest) == multiset(s[1..]) + multiset{x}
    ensures SortedDescending([s[0]] + rest)
    ensures multiset([s[0]] + rest) == multiset(s) + multiset{x}
  {
    assert s == [s[0]] + s[1..];
    forall j | 0 <= j < |rest|
      ensures !StrLess(s[0].device, rest[j].device)
    {
      assert rest[j] in multiset(s[1..]) + multiset{x};
      if rest[j] != x {
        assert rest[j] in s[1..];
        var i :| 0 <= i < |s[1..]| && s[1..][i] == rest[j];
        assert s[i + 1] == rest[j];
      }
    }
    ConsDescending(s[0], rest);
  }

  function SortDescending(ms: seq<Mtd>): (r: seq<Mtd>)
    ensures SortedDescending(r)
    ensures multiset(r) == multiset(ms)
  {
    if ms == [] then []
    else
      assert ms == [ms[0]] + ms[1..];
      Insert(ms[0], SortDescending(ms[1..]))
  }

  /**
    `get_mtds`: the whole-flash devices the enforcement mode allows, sorted
    by device name from largest to smallest, and every entry of /proc/mtd.
   */
  function GetMtds(info: seq<MtdEntry>, mode: Vboot): (r: (seq<Mtd>, seq<Mtd>))
    ensures SortedDescending(r.0)
    ensures multiset(r.0) == multiset(Candidates(info, mode))
    ensures |r.1| == |info|
    ensures forall k :: 0 <= k < |info| ==> r.1[k] == Mtd(info[k].device, info[k].size, info[k].name, 0)
  {
    (SortDescending(Candidates(info, mode)), AllMtds(info))
  }

  // ---------------------------------------------------------------------------
  // Properties
  // ---------------------------------------------------------------------------

  /** A device is offered exactly when its entry is selected under the mode. */
  lemma OfferedIffSelected(info: seq<MtdEntry>, mode: Vboot, m: Mtd)
    ensures m in GetMtds(info, mode).0 <==> exists k :: 0 <= k < |info| && Selected(info[k], mode) == Some(m)
  {
    var full := GetMtds(info, mode).0;
    assert m in full <==> m in multiset(full);
    assert m in Candidates(info, mode) <==> m in multiset(Candidates(info, mode));
  }

  /** Under hardware enforcement only flash1 is offered, with its 384 KiB read-only head. */
  lemma HardwareEnforceOffersFlash1(info: seq<MtdEntry>, m: Mtd)
    requires m in GetMtds(info, HardwareEnforce).0
    ensures m.name == "flash1" && m.offset == HW_OFFSET
  {
    OfferedIffSelected(info, HardwareEnforce, m);
  }

  /** Every offered device also appears, without offset, among all devices. */
  lemma OfferedAmongAll(info: seq<MtdEntry>, mode: Vboot, m: Mtd)
    requires m in GetMtds(info, mode).0
    ensures Mtd(m.device, m.size, m.name, 0) in GetMtds(info, mode).1
  {
    OfferedIffSelected(info, mode, m);
    var k :| 0 <= k < |info| && Selected(info[k], mode) == Some(m);
    assert GetMtds(info, mode).1[k] == Mtd(m.device, m.size, m.name, 0);
  }
}

/**
  Elbert's REST handler for the state of its PIMs (rest_pimstatus.py): for
  each of PIM 2 to 9, the FPGA major revision the SMB CPLD reports, where
  0xff means the PIM is down, any other revision that it is up, and a
  file that cannot be read that its state is unknown.

  The file system is an input: each path maps to the decoded text of the
  file, or to `None` when opening, reading or decoding it raises.
 */
module PimStatus {
  import opened Common

  const FIRST_PIM: nat := 2
  const LAST_PIM: nat := 9

  const DOWN: string := "down"
  const UP: string := "up"
  const UNKNOWN: string := "unknown"

  /** The two halves of `FPGA_VER_PATH` around the PIM number. */
  const FPGA_VER_HEAD: string := "/sys/bus/i2c/drivers/smbcpld/4-0023/pim"
  const FPGA_VER_TAIL: string := "_fpga_rev_major"
  const PIM_PREFIX: string := "pim"

  /** `FPGA_VER_PATH.format(i)` for a one-digit `i`. */
  function FpgaVerPath(i: nat): (p: string)
    requires i < 10
    ensures |p| == |FPGA_VER_HEAD| + 1 + |FPGA_VER_TAIL|
    ensures p[..|FPGA_VER_HEAD|] == FPGA_VER_HEAD && p[|FPGA_VER_HEAD|] == DigitChar(i)
  {
    FPGA_VER_HEAD + [DigitChar(i)] + FPGA_VER_TAIL
  }

  /** `'pim{}'.format(str(i))` for a one-digit `i`. */
  function PimKey(i: nat): (k: string)
    requires i < 10
    ensures |k| == 4 && k[..3] == PIM_PREFIX && IsDigit(k[3]) && DigitValue(k[3]) == i
  {
    PIM_PREFIX + [DigitChar(i)]
  }

  /** Different PIMs have different keys. */
  lemma KeysDistinct(i: nat, j: nat)
    requires i < 10 && j < 10 && i != j
    ensures PimKey(i) != PimKey(j)
  {
    assert PimKey(i)[3] != PimKey(j)[3];
  }

  /** Different PIMs have different keys and different files. */
  lemma KeysAndPathsDistinct(i: nat, j: nat)
    requires i < 10 && j < 10 && i != j
    ensures PimKey(i) != PimKey(j)
    ensures FpgaVerPath(i) != FpgaVerPath(j)
  {
    KeysDistinct(i, j);
    var n := |FPGA_VER_HEAD|;
    assert FpgaVerPath(i)[n] == DigitChar(i) && FpgaVerPath(j)[n] == DigitChar(j);
  }

  /** White space as Python's `str.strip()` sees it (`str.isspace`). */
  predicate PyIsSpace(c: char) {
    c == ' ' || ('\t' <= c <= '\r') || ('\U{1C}' <= c <= '\U{1F}') || c == '\U{85}' || c == '\U{A0}'
    || c == '\U{1680}' || ('\U{2000}' <= c <= '\U{200A}') || c == '\U{2028}' || c == '\U{2029}'
    || c == '\U{202F}' || c == '\U{205F}' || c == '\U{3000}'
  }

  function PyLStrip(s: string): (r: string)
    ensures |r| <= |s| && r == s[|s| - |r|..]
    ensures r == [] || !PyIsSpace(r[0])
    ensures forall k :: 0 <= k < |s| - |r| ==> PyIsSpace(s[k])
  {
    if s != [] && PyIsSpace(s[0]) then PyLStrip(s[1..]) else s
  }

  function PyRStrip(s: string): (r: string)
    ensures StartsWith(s, r)
    ensures r == [] || !PyIsSpace(r[|r| - 1])
    ensures forall k :: |r| <= k < |s| ==> PyIsSpace(s[k])
  {
    if s != [] && PyIsSpace(s[|s| - 1]) then PyRStrip(s[..|s| - 1]) else s
  }

  /** `str.strip()`. */
  function PyStrip(s: string): string {
    PyRStrip(PyLStrip(s))
  }

  /**
    `fh.readline()` on a file opened in text mode: everything up to the
    first line end, which with universal newlines is '\n' or '\r'.  The line
    end itself is white space, which `strip` removes, so it is left off.
   */
  function FirstLine(text: string): (l: string)
    ensures StartsWith(text, l)
    ensures forall k :: 0 <= k < |l| ==> l[k] != '\n' && l[k] != '\r'
    ensures |l| < |text| ==> text[|l|] == '\n' || text[|l|] == '\r'
  {
    if text == [] || text[0] == '\n' || text[0] == '\r' then [] else [text[0]] + FirstLine(text[1..])
  }

  /** The status of one PIM given what reading its file gives. */
  function PimState(file: Option<string>): (s: string)
    ensures s == DOWN <==> file.Some? && PyStrip(FirstLine(file.value)) == "0xff"
    ensures s == UP <==> file.Some? && PyStrip(FirstLine(file.value)) != "0xff"
    ensures s == UNKNOWN <==> file.None?
  {
    match file
    case None => UNKNOWN
    case Some(text) => if PyStrip(FirstLine(text)) == "0xff" then DOWN else UP
  }

  /** `k` is "pim" and one digit naming a PIM from 2 up to `n` - 1. */
  predicate IsPimKeyBelow(k: string, n: nat) {
    |k| == 4 && k[..3] == PIM_PREFIX && IsDigit(k[3]) && FIRST_PIM <= DigitValue(k[3]) < n
  }

  /** Such a key is the key of the PIM its digit names. */
  lemma KeyOfDigit(k: string, n: nat)
    requires n <= 10 && IsPimKeyBelow(k, n)
    ensures k == PimKey(DigitValue(k[3]))
  {
    var d := DigitValue(k[3]);
    assert DigitChar(d) == k[3];
    assert k == k[..3] + [k[3]];
  }

  /** The keys of PIMs 2 up to `n` - 1. */
  function KeysBelow(n: nat): (ks: set<string>)
    requires n <= 10
    ensures |ks| == if n <= FIRST_PIM then 0 else n - FIRST_PIM
    ensures forall j :: FIRST_PIM <= j < n ==> PimKey(j) in ks
    ensures forall k :: k in ks ==> IsPimKeyBelow(k, n)
  {
    if n <= FIRST_PIM then {}
    else
      var ks := KeysBelow(n - 1);
      assert PimKey(n - 1) !in ks;
      ks + {PimKey(n - 1)}
  }

  /** The status map once PIMs 2 up to `n` - 1 have been read. */
  function StatusBelow(fs: string -> Option<string>, n: nat): map<string, string>
    requires n <= 10
  {
    if n <= FIRST_PIM then map[]
    else StatusBelow(fs, n - 1)[PimKey(n - 1) := PimState(fs(FpgaVerPath(n - 1)))]
  }

  /** Reading PIM `i` adds its entry to the map of the PIMs before it. */
  lemma StatusStep(fs: string -> Option<string>, i: nat, state: string)
    requires FIRST_PIM <= i < 10 && state == PimState(fs(FpgaVerPath(i)))
    ensures StatusBelow(fs, i + 1) == StatusBelow(fs, i)[PimKey(i) := state]
  {
  }

  /** The status map has an entry for each PIM read so far and no other. */
  lemma {:induction false} StatusBelowKeys(fs: string -> Option<string>, n: nat)
    requires n <= 10
    ensures StatusBelow(fs, n).Keys == KeysBelow(n)
  {
    if n > FIRST_PIM {
      StatusBelowKeys(fs, n - 1);
    }
  }

  /** The entry of each PIM read so far is the state read from its own file. */
  lemma StatusBelowEntries(fs: string -> Option<string>, n: nat)
    requires n <= 10
    ensures forall j :: FIRST_PIM <= j < n ==>
              PimKey(j) in StatusBelow(fs, n) && StatusBelow(fs, n)[PimKey(j)] == PimState(fs(FpgaVerPath(j)))
  {
    forall j | FIRST_PIM <= j < n
      ensures PimKey(j) in StatusBelow(fs, n) && StatusBelow(fs, n)[PimKey(j)] == PimState(fs(FpgaVerPath(j)))
    {
      EntryOf(fs, n, j);
    }
  }

  /** PIM `j`'s entry is set when it is read and kept while later PIMs are read, their keys being different. */
  lemma {:induction false} EntryOf(fs: string -> Option<string>, n: nat, j: nat)
    requires FIRST_PIM <= j < n <= 10
    ensures PimKey(j) in StatusBelow(fs, n) && StatusBelow(fs, n)[PimKey(j)] == PimState(fs(FpgaVerPath(j)))
  {
    if j < n - 1 {
      EntryOf(fs, n - 1, j);
      KeysDistinct(j, n - 1);
    }
  }

  /** Every entry holds one of the three states. */
  lemma {:induction false} StatusBelowValues(fs: string -> Option<string>, n: nat)
    requires n <= 10
    ensures forall k :: k in StatusBelow(fs, n) ==> StatusBelow(fs, n)[k] in {DOWN, UP, UNKNOWN}
  {
    if n > FIRST_PIM {
      StatusBelowValues(fs, n - 1);
    }
  }

  /** The keys of the full status map are exactly the PIM keys "pim2" to "pim9". */
  lemma FullStatusKeys(fs: string -> Option<string>, status: map<string, string>)
    requires status == StatusBelow(fs, LAST_PIM + 1)
    ensures forall k :: k in status <==> IsPimKeyBelow(k, LAST_PIM + 1)
    ensures |status| == LAST_PIM - FIRST_PIM + 1
  {
    StatusBelowKeys(fs, LAST_PIM + 1);
    var keys := KeysBelow(LAST_PIM + 1);
    forall k | IsPimKeyBelow(k, LAST_PIM + 1)
      ensures k in keys
    {
      KeyOfDigit(k, LAST_PIM + 1);
    }
    assert |status.Keys| == |keys|;
  }

  /**
    `prepare_pimstatus`: one entry per PIM 2 to 9, keyed "pim2" to "pim9",
    each the state read from that PIM's own file.
   */
  method PreparePimStatus(fs: string -> Option<string>) returns (status: map<string, string>)
    ensures forall k :: k in status <==> IsPimKeyBelow(k, LAST_PIM + 1)
    ensures |status| == LAST_PIM - FIRST_PIM + 1
    ensures forall i :: FIRST_PIM <= i <= LAST_PIM ==> PimKey(i) in status && status[PimKey(i)] == PimState(fs(FpgaVerPath(i)))
    ensures forall k :: k in status ==> status[k] in {DOWN, UP, UNKNOWN}
  {
    status := map[];
    var i := FIRST_PIM;
    while i <= LAST_PIM
      invariant FIRST_PIM <= i <= LAST_PIM + 1
      invariant status == StatusBelow(fs, i)
    {
      var state := PimState(fs(FpgaVerPath(i)));
      StatusStep(fs, i, state);
      status := status[PimKey(i) := state];
      i := i + 1;
    }
    FullStatusKeys(fs, status);
    StatusBelowEntries(fs, LAST_PIM + 1);
    StatusBelowValues(fs, LAST_PIM + 1);
  }

  /** A revision of 0xff surrounded by white space still reads as down, and any other revision as up. */
  lemma RevisionDecides(rev: string, pad: string, rest: string)
    requires forall k :: 0 <= k < |pad| ==> pad[k] == ' '
    requires rev == [] || (!PyIsSpace(rev[0]) && !PyIsSpace(rev[|rev| - 1]))
    requires forall k :: 0 <= k < |rev| ==> rev[k] != '\n' && rev[k] != '\r'
    ensures PimState(Some(pad + rev + pad + "\n" + rest)) == (if rev == "0xff" then DOWN else UP)
  {
    var text := pad + rev + pad + "\n" + rest;
    var line := pad + rev + pad;
    FirstLineIs(line, "\n" + rest);
    assert text == line + ("\n" + rest);
    StripPadded(pad, rev);
  }

  /** The first line of `l + t`, where `t` starts with a line end and `l` holds none, is `l`. */
  lemma {:induction false} FirstLineIs(l: string, t: string)
    requires forall k :: 0 <= k < |l| ==> l[k] != '\n' && l[k] != '\r'
    requires t != [] && t[0] == '\n'
    ensures FirstLine(l + t) == l
    decreases |l|
  {
    var s := l + t;
    if l == [] {
      assert s[0] == '\n';
    } else {
      assert s[0] == l[0] && s[1..] == l[1..] + t;
      FirstLineIs(l[1..], t);
      assert FirstLine(s) == [l[0]] + FirstLine(s[1..]);
      assert l == [l[0]] + l[1..];
    }
  }

  /** Stripping blanks off both sides gives back the text between them. */
  lemma StripPadded(pad: string, rev: string)
    requires forall k :: 0 <= k < |pad| ==> pad[k] == ' '
    requires rev == [] || (!PyIsSpace(rev[0]) && !PyIsSpace(rev[|rev| - 1]))
    ensures PyStrip(pad + rev + pad) == rev
  {
    if rev == [] {
      StripBlanksOnly(pad);
    } else {
      StripAroundText(pad, rev);
    }
  }

  lemma StripBlanksOnly(pad: string)
    requires forall k :: 0 <= k < |pad| ==> pad[k] == ' '
    ensures PyStrip(pad + [] + pad) == []
  {
    var s := pad + pad;
    assert pad + [] + pad == s;
    forall k | 0 <= k < |s|
      ensures s[k] == ' '
    {
      if k >= |pad| {
        assert s[k] == pad[k - |pad|];
      }
    }
    LStripAllBlanks(s);
  }

  lemma StripAroundText(pad: string, rev: string)
    requires forall k :: 0 <= k < |pad| ==> pad[k] == ' '
    requires rev != [] && !PyIsSpace(rev[0]) && !PyIsSpace(rev[|rev| - 1])
    ensures PyStrip(pad + rev + pad) == rev
  {
    LStripBlanks(pad, rev + pad);
    assert pad + rev + pad == pad + (rev + pad);
    RStripBlanks(rev, pad);
  }

  lemma {:induction false} LStripBlanks(pad: string, s: string)
    requires forall k :: 0 <= k < |pad| ==> pad[k] == ' '
    requires s == [] || !PyIsSpace(s[0])
    ensures PyLStrip(pad + s) == s
    decreases |pad|
  {
    if pad != [] {
      assert (pad + s)[1..] == pad[1..] + s;
      LStripBlanks(pad[1..], s);
    } else {
      assert pad + s == s;
    }
  }

  lemma {:induction false} LStripAllBlanks(s: string)
    requires forall k :: 0 <= k < |s| ==> s[k] == ' '
    ensures PyLStrip(s) == []
    decreases |s|
  {
    if s != [] {
      LStripAllBlanks(s[1..]);
    }
  }

  lemma {:induction false} RStripBlanks(s: string, pad: string)
    requires s != [] && !PyIsSpace(s[|s| - 1])
    requires forall k :: 0 <= k < |pad| ==> pad[k] == ' '
    ensures PyRStrip(s + pad) == s
    decreases |pad|
  {
    if pad != [] {
      assert (s + pad)[..|s + pad| - 1] == s + pad[..|pad| - 1];
      RStripBlanks(s, pad[..|pad| - 1]);
    } else {
      assert s + pad == s;
    }
  }

  /** The reply of `get_pimstatus`. */
  datatype Reply = Reply(information: map<string, string>, actions: seq<string>, resources: seq<string>)

  /** `get_pimstatus`: the status map as "Information", with no actions and no resources. */
  method GetPimStatus(fs: string -> Option<string>) returns (r: Reply)
    ensures r.actions == [] && r.resources == []
    ensures forall k :: k in r.information <==> IsPimKeyBelow(k, LAST_PIM + 1)
    ensures forall i :: FIRST_PIM <= i <= LAST_PIM ==>
              PimKey(i) in r.information && r.information[PimKey(i)] == PimState(fs(FpgaVerPath(i)))
    ensures forall k :: k in r.information ==> r.information[k] in {DOWN, UP, UNKNOWN}
  {
    var status := PreparePimStatus(fs);
    r := Reply(status, [], []);
  }
}

/**
  fby3 fw-util: the voltage regulators on a 2OU expansion board, read and
  updated through the bridge IC (BIC).  BIC calls and the two readiness
  checks are oracles; the component codes of bic.h are parameters.
 */
module ExpansionVr {
  import opened Common

  /** The fw-util status codes this component returns. */
  datatype FwStatus = FwSuccess | FwNotSupported

  /** The bic.h component codes of the five VRs (distinct values). */
  datatype VrCodes = VrCodes(vr1: int, vr2: int, vr3: int, v1v8: int, pesw: int)

  /** A VR: its component code and the title printed for it. */
  datatype Vr = Vr(code: int, title: string)

  /** The five VRs `print_version` reports, as listed in the source. */
  function VrList(c: VrCodes): (l: seq<Vr>)
    ensures |l| == 5
  {
    [Vr(c.vr1, "VR P3V3_STBY1"), Vr(c.vr2, "VR P3V3_STBY2"), Vr(c.vr3, "VR P3V3_STBY3"),
     Vr(c.v1v8, "VR P1V8"), Vr(c.pesw, "VR P0V84/P0V9")]
  }

  predicate DistinctCodes(vrs: seq<Vr>) {
    forall i, j :: 0 <= i < j < |vrs| ==> vrs[i].code != vrs[j].code
  }

  predicate SortedByCode(vrs: seq<Vr>) {
    forall i, j :: 0 <= i < j < |vrs| ==> vrs[i].code < vrs[j].code
  }

  // ---------------------------------------------------------------------------
  // The iteration order of the std::map keyed by component code
  // ---------------------------------------------------------------------------

  /** Putting a VR whose code is below the first in front keeps a sorted list sorted. */
  lemma ConsSorted(x: Vr, rest: seq<Vr>)
    requires SortedByCode(rest) && (rest == [] || x.code < rest[0].code)
    ensures SortedByCode([x] + rest)
  {
    var r := [x] + rest;
    forall i, j | 0 <= i < j < |r|
      ensures r[i].code < r[j].code
    {
      assert r[j] == rest[j - 1];
      if i > 0 {
        assert r[i] == rest[i - 1];
      } else if j > 1 {
        assert rest[0].code < rest[j - 1].code;
      }
    }
  }

  lemma TailSorted(vrs: seq<Vr>)
    requires vrs != [] && SortedByCode(vrs)
    ensures SortedByCode(vrs[1..])
  {
    forall i, j | 0 <= i < j < |vrs| - 1
      ensures vrs[1..][i].code < vrs[1..][j].code
    {
      assert vrs[1..][i] == vrs[i + 1] && vrs[1..][j] == vrs[j + 1];
    }
  }

  function Insert(v: Vr, sorted: seq<Vr>): (r: seq<Vr>)
    requires SortedByCode(sorted)
    requires forall k :: 0 <= k < |sorted| ==> sorted[k].code != v.code
    ensures |r| == |sorted| + 1
    ensures r[0] == v || (sorted != [] && r[0] == sorted[0])
    ensures SortedByCode(r)
    ensures multiset(r) == multiset(sorted) + multiset{v}
  {
    if sorted == [] || v.code < sorted[0].code then
      ConsSorted(v, sorted);
      [v] + sorted
    else
      InsertTailReady(v, sorted);
      var rest := Insert(v, sorted[1..]);
      InsertBehindHead(v, sorted, rest);
      [sorted[0]] + rest
  }

  /** Inserting behind the head: the tail is sorted and holds no VR with `v`'s code. */
  lemma InsertTailReady(v: Vr, sorted: seq<Vr>)
    requires sorted != [] && SortedByCode(sorted)
    requires forall k :: 0 <= k < |sorted| ==> sorted[k].code != v.code
    ensures SortedByCode(sorted[1..])
    ensures forall k :: 0 <= k < |sorted[1..]| ==> sorted[1..][k].code != v.code
  {
    TailSorted(sorted);
    forall k | 0 <= k < |sorted[1..]|
      ensures sorted[1..][k].code != v.code
    {
      assert sorted[1..][k] == sorted[k + 1];
    }
  }

  /** The head goes back in front of the tail with `v` inserted. */
  lemma InsertBehindHead(v: Vr, sorted: seq<Vr>, rest: seq<Vr>)
    requires sorted != [] && SortedByCode(sorted) && sorted[0].code < v.code
    requires SortedByCode(rest) && multiset(rest) == multiset(sorted[1..]) + multiset{v}
    requires |rest| == |sorted| && (rest[0] == v || (|sorted| > 1 && rest[0] == sorted[1]))
    ensures SortedByCode([sorted[0]] + rest)
    ensures multiset([sorted[0]] + rest) == multiset(sorted) + multiset{v}
  {
    ConsSorted(sorted[0], rest);
    assert sorted == [sorted[0]] + sorted[1..];
  }

  /** The codes after the first differ from it, in any permutation of the rest. */
  lemma HeadCodeFresh(vrs: seq<Vr>, rest: seq<Vr>)
    requires vrs != [] && DistinctCodes(vrs) && multiset(rest) == multiset(vrs[1..])
    ensures forall k :: 0 <= k < |rest| ==> rest[k].code != vrs[0].code
  {
    forall k | 0 <= k < |rest|
      ensures rest[k].code != vrs[0].code
    {
      assert rest[k] in multiset(vrs[1..]);
      var j :| 0 <= j < |vrs[1..]| && vrs[1..][j] == rest[k];
      assert vrs[j + 1] == rest[k];
    }
  }

  /** `vrs` with its first element dropped is still pairwise distinct. */
  lemma DistinctTail(vrs: seq<Vr>)
    requires vrs != [] && DistinctCodes(vrs)
    ensures DistinctCodes(vrs[1..])
  {
    forall i, j | 0 <= i < j < |vrs| - 1
      ensures vrs[1..][i].code != vrs[1..][j].code
    {
      assert vrs[1..][i] == vrs[i + 1] && vrs[1..][j] == vrs[j + 1];
    }
  }

  /** Ascending component-code order: the order a `std::map<uint8_t, string>` is walked in. */
  function SortByCode(vrs: seq<Vr>): (r: seq<Vr>)
    requires DistinctCodes(vrs)
    ensures SortedByCode(r)
    ensures multiset(r) == multiset(vrs)
    ensures |r| == |vrs|
  {
    if vrs == [] then []
    else
      DistinctTail(vrs);
      var rest := SortByCode(vrs[1..]);
      HeadCodeFresh(vrs, rest);
      assert vrs == [vrs[0]] + vrs[1..];
      Insert(vrs[0], rest)
  }

  // ---------------------------------------------------------------------------
  // get_ver_str
  // ---------------------------------------------------------------------------

  /** The six-byte reply buffer; bytes the BIC did not fill stay 0. */
  type RBuf = s: seq<Byte> | |s| == 6 witness [0, 0, 0, 0, 0, 0]

  /** What `bic_get_fw_ver` returns for one component: its status and the buffer. */
  datatype FwVerReply = FwVerReply(ret: int, rbuf: RBuf)

  const REMAINING_WRITES: string := ", Remaining Writes: "

  /** `s` is `bs` printed with `%02X`: upper-case hex digit pairs that decode to `bs`. */
  predicate UpperHexOf(s: string, bs: seq<Byte>) {
    && |s| == 2 * |bs|
    && IsHexString(s)
    && (forall i :: 0 <= i < |s| ==> !IsLower(s[i]))
    && HexDecode(s) == bs
  }

  lemma EncodesUpper(bs: seq<Byte>)
    ensures UpperHexOf(HexEncode(bs, true), bs)
  {
    HexDecodeEncode(bs, true);
  }

  /** The PESW text: four bytes in `%02X`, then the remaining writes. */
  lemma PeswText(b: RBuf)
    ensures var s := HexEncode(b[..4], true) + (REMAINING_WRITES + NatToDecimal(b[4]));
            |s| >= 8 && UpperHexOf(s[..8], b[..4]) && s[8..] == REMAINING_WRITES + NatToDecimal(b[4])
  {
    var hex := HexEncode(b[..4], true);
    var s := hex + (REMAINING_WRITES + NatToDecimal(b[4]));
    assert s[..8] == hex;
    assert s[8..] == REMAINING_WRITES + NatToDecimal(b[4]);
    EncodesUpper(b[..4]);
  }

  /**
    `get_ver_str`: the PESW VR prints four bytes as `%02X` and its remaining
    write count in decimal; every other VR prints two bytes.  The text is
    built from the buffer whatever the status, and the status is returned
    unchanged.
   */
  function GetVerStr(code: int, peswCode: int, reply: FwVerReply): (r: (int, string))
    ensures r.0 == reply.ret
    ensures code == peswCode ==>
              |r.1| >= 8 && UpperHexOf(r.1[..8], reply.rbuf[..4])
              && r.1[8..] == REMAINING_WRITES + NatToDecimal(reply.rbuf[4])
    ensures code != peswCode ==> UpperHexOf(r.1, reply.rbuf[..2])
  {
    var b := reply.rbuf;
    if code == peswCode then
      PeswText(b);
      (reply.ret, HexEncode(b[..4], true) + (REMAINING_WRITES + NatToDecimal(b[4])))
    else
      EncodesUpper(b[..2]);
      (reply.ret, HexEncode(b[..2], true))
  }

  /** The remaining-writes count of a PESW version string reads back as the byte it came from. */
  lemma RemainingWritesReadsBack(peswCode: int, reply: FwVerReply)
    ensures var s := GetVerStr(peswCode, peswCode, reply).1;
            |s| > 8 + |REMAINING_WRITES|
            && (forall i :: 8 + |REMAINING_WRITES| <= i < |s| ==> IsDigit(s[i]))
            && DecimalValue(s[8 + |REMAINING_WRITES|..]) == reply.rbuf[4]
  {
    var s := GetVerStr(peswCode, peswCode, reply).1;
    assert s[8 + |REMAINING_WRITES|..] == s[8..][|REMAINING_WRITES|..];
    assert s[8..][|REMAINING_WRITES|..] == NatToDecimal(reply.rbuf[4]);
  }

  // ---------------------------------------------------------------------------
  // print_version
  // ---------------------------------------------------------------------------

  function Prefix(board: string, vr: Vr): (p: string)
    ensures |p| > |board| && p[..|board|] == board
  {
    board + " " + vr.title + " Version: "
  }

  /** `<BOARD> <title> Version: NA (<reason>)`. */
  function NaLine(board: string, vr: Vr, reason: string): (l: string)
    ensures StartsWith(l, Prefix(board, vr))
  {
    Prefix(board, vr) + "NA (" + reason + ")"
  }

  /** The line for one VR once both boards are ready: its version, or NA when the BIC call failed. */
  function VrLine(board: string, vr: Vr, peswCode: int, reply: FwVerReply): (l: string)
    ensures StartsWith(l, Prefix(board, vr))
    ensures reply.ret < 0 ==> l == NaLine(board, vr, "Error in getting the version of " + board)
    ensures reply.ret >= 0 ==> l == Prefix(board, vr) + GetVerStr(vr.code, peswCode, reply).1
  {
    var (ret, ver) := GetVerStr(vr.code, peswCode, reply);
    if ret < 0 then NaLine(board, vr, "Error in getting the version of " + board)
    else Prefix(board, vr) + ver
  }

  /**
    Why the boards are not ready: `server.ready()` is asked first and its
    message wins; `None` when both are ready.
   */
  function NotReady(serverErr: Option<string>, expansionErr: Option<string>): (e: Option<string>)
    ensures e.None? <==> serverErr.None? && expansionErr.None?
    ensures serverErr.Some? ==> e == serverErr
  {
    if serverErr.Some? then serverErr else expansionErr
  }

  /** The NA line of every VR, in order. */
  function NaLines(board: string, vrs: seq<Vr>, reason: string): (ls: seq<string>)
    ensures |ls| == |vrs|
    ensures forall i :: 0 <= i < |vrs| ==> ls[i] == NaLine(board, vrs[i], reason)
  {
    seq(|vrs|, i requires 0 <= i < |vrs| => NaLine(board, vrs[i], reason))
  }

  /** The version line of every VR, in order, each from its own BIC reply. */
  function VrLines(board: string, vrs: seq<Vr>, peswCode: int, bic: int -> FwVerReply): (ls: seq<string>)
    ensures |ls| == |vrs|
    ensures forall i :: 0 <= i < |vrs| ==> ls[i] == VrLine(board, vrs[i], peswCode, bic(vrs[i].code))
  {
    seq(|vrs|, i requires 0 <= i < |vrs| => VrLine(board, vrs[i], peswCode, bic(vrs[i].code)))
  }

  /**
    `print_version` for a component named `name`: one line per VR in
    component-code order, and always FW_STATUS_SUCCESS.
   */
  function PrintVersion(name: string, codes: VrCodes, serverErr: Option<string>, expansionErr: Option<string>,
                        bic: int -> FwVerReply): (r: (FwStatus, seq<string>))
    requires DistinctCodes(VrList(codes))
    ensures r.0 == FwSuccess
    ensures |r.1| == 5
    ensures var vrs := SortByCode(VrList(codes));
            var e := NotReady(serverErr, expansionErr);
            e.Some? ==> forall i :: 0 <= i < 5 ==> r.1[i] == NaLine(UpperString(name), vrs[i], e.value)
    ensures var vrs := SortByCode(VrList(codes));
            NotReady(serverErr, expansionErr).None? ==>
              forall i :: 0 <= i < 5 ==> r.1[i] == VrLine(UpperString(name), vrs[i], codes.pesw, bic(vrs[i].code))
  {
    var board := UpperString(name);
    var vrs := SortByCode(VrList(codes));
    match NotReady(serverErr, expansionErr)
    case Some(err) => (FwSuccess, NaLines(board, vrs, err))
    case None => (FwSuccess, VrLines(board, vrs, codes.pesw, bic))
  }

  /** Every line, ready or not, starts with the upper-cased board name and its VR's title. */
  lemma EveryLineNamesItsVr(name: string, codes: VrCodes, serverErr: Option<string>, expansionErr: Option<string>,
                            bic: int -> FwVerReply, i: nat)
    requires DistinctCodes(VrList(codes)) && i < 5
    ensures StartsWith(PrintVersion(name, codes, serverErr, expansionErr, bic).1[i],
                       Prefix(UpperString(name), SortByCode(VrList(codes))[i]))
  {
    var vrs := SortByCode(VrList(codes));
    if NotReady(serverErr, expansionErr).Some? {
      assert StartsWith(NaLine(UpperString(name), vrs[i], NotReady(serverErr, expansionErr).value),
                        Prefix(UpperString(name), vrs[i]));
    } else {
      assert StartsWith(VrLine(UpperString(name), vrs[i], codes.pesw, bic(vrs[i].code)),
                        Prefix(UpperString(name), vrs[i]));
    }
  }

  /** Every VR is listed exactly once: the printed VRs are a permutation of the five. */
  lemma PrintsEveryVrOnce(codes: VrCodes)
    requires DistinctCodes(VrList(codes))
    ensures multiset(SortByCode(VrList(codes))) == multiset(VrList(codes))
    ensures SortedByCode(SortByCode(VrList(codes)))
  {
  }

  /**
    VRs are reported independently: changing what the BIC answers for one VR
    leaves every other VR's line unchanged.
   */
  lemma VrFailureIsLocal(name: string, codes: VrCodes, serverErr: Option<string>, expansionErr: Option<string>,
                         bic1: int -> FwVerReply, bic2: int -> FwVerReply, i: nat)
    requires DistinctCodes(VrList(codes)) && i < 5
    requires bic1(SortByCode(VrList(codes))[i].code) == bic2(SortByCode(VrList(codes))[i].code)
    ensures PrintVersion(name, codes, serverErr, expansionErr, bic1).1[i]
            == PrintVersion(name, codes, serverErr, expansionErr, bic2).1[i]
  {
  }

  /** A line that starts with a VR prefix shows the board name first. */
  lemma PrefixShowsBoard(board: string, vr: Vr, l: string, k: nat)
    requires StartsWith(l, Prefix(board, vr)) && k < |board|
    ensures k < |l| && l[k] == board[k]
  {
    var p := Prefix(board, vr);
    assert l[..|p|] == p;
    assert l[k] == p[k];
    assert p[..|board|] == board;
  }

  /** The board name is upper-cased in every line, whether or not the boards are ready. */
  lemma BoardNameUppercased(name: string, codes: VrCodes, serverErr: Option<string>, expansionErr: Option<string>,
                            bic: int -> FwVerReply, i: nat, k: nat)
    requires DistinctCodes(VrList(codes)) && i < 5 && k < |name|
    ensures var l := PrintVersion(name, codes, serverErr, expansionErr, bic).1[i];
            k < |l| && !IsLower(l[k]) && l[k] == ToUpper(name[k])
  {
    EveryLineNamesItsVr(name, codes, serverErr, expansionErr, bic, i);
    var board := UpperString(name);
    PrefixShowsBoard(board, SortByCode(VrList(codes))[i],
                     PrintVersion(name, codes, serverErr, expansionErr, bic).1[i], k);
    assert board[k] == ToUpper(name[k]);
  }

  // ---------------------------------------------------------------------------
  // update
  // ---------------------------------------------------------------------------

  /** What `update` returns: a fw-util status, or the BIC update's own return value. */
  datatype UpdateResult = Status(status: FwStatus) | BicReturn(ret: int)

  /** One `bic_update_fw(slot_id, comp, image, force)` call. */
  datatype BicUpdateCall = BicUpdateCall(comp: int, image: string, force: bool)

  /**
    `update(image)`: FW_STATUS_NOT_SUPPORTED, with no BIC call, when either
    board is not ready; otherwise one unforced BIC update whose result is
    returned as is.  `bicUpdate` answers the BIC call.
   */
  function Update(fwComp: int, image: string, serverErr: Option<string>, expansionErr: Option<string>,
                  bicUpdate: BicUpdateCall -> int): (r: (UpdateResult, seq<BicUpdateCall>))
    ensures NotReady(serverErr, expansionErr).Some? <==> r.0 == Status(FwNotSupported)
    ensures NotReady(serverErr, expansionErr).Some? ==> r.1 == []
    ensures NotReady(serverErr, expansionErr).None? ==>
              r.1 == [BicUpdateCall(fwComp, image, false)] && r.0 == BicReturn(bicUpdate(r.1[0]))
  {
    if NotReady(serverErr, expansionErr).Some? then (Status(FwNotSupported), [])
    else
      var call := BicUpdateCall(fwComp, image, false);
      (BicReturn(bicUpdate(call)), [call])
  }
}

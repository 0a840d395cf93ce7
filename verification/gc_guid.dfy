/**
  grandcanyon GUID packing (`pal_populate_guid` in pal.c), in the RFC 4122
  layout of section 4.1.2: bytes 0-7 from the time of day with the version
  nibble 1 in the high half of byte 7, bytes 8-9 from a random clock
  sequence, and bytes 10-15 from the board serial number, scanned right to
  left.  The time and the random number are parameters.
 */
module GcGuid {

  const ZERO_CHAR: bv8 := 0x30

  /** `isalpha` in the C locale. */
  predicate IsAlphaByte(b: bv8) {
    (0x41 <= b <= 0x5a) || (0x61 <= b <= 0x7a)
  }

  predicate IsDigitByte(b: bv8) {
    0x30 <= b <= 0x39
  }

  /** `(msb << 4) | lsb` stored into a `char`: both nibbles of an 8-bit value. */
  function Pack(msb: bv8, lsb: bv8): bv8 {
    (msb << 4) | lsb
  }

  /**
    The bytes the serial scan produces from `str[..n]`, in the order it
    produces them (rightmost first), without the six-byte cap: a letter is
    copied; otherwise the character is the low digit and, unless it is the
    first character or follows a letter, the character before it is the
    high digit; digits are taken as `c - '0'` with 8-bit wrap-around.
   */
  function Units(str: seq<bv8>, n: nat): (u: seq<bv8>)
    requires n <= |str|
    ensures |u| <= n
    ensures n > 0 ==> |u| > 0
    decreases n
  {
    if n == 0 then []
    else if IsAlphaByte(str[n - 1]) then [str[n - 1]] + Units(str, n - 1)
    else if n >= 2 && !IsAlphaByte(str[n - 2]) then
      [Pack(str[n - 2] - ZERO_CHAR, str[n - 1] - ZERO_CHAR)] + Units(str, n - 2)
    else [Pack(0, str[n - 1] - ZERO_CHAR)] + Units(str, n - 1)
  }

  function Reverse(s: seq<bv8>): (r: seq<bv8>)
    ensures |r| == |s|
    ensures forall k :: 0 <= k < |s| ==> r[k] == s[|s| - 1 - k]
  {
    if s == [] then [] else Reverse(s[1..]) + [s[0]]
  }

  function Min(a: nat, b: nat): nat { if a <= b then a else b }

  /**
    Bytes 10-15: at most six scanned bytes, the first one in byte 15 and
    each next one a byte lower, with the bytes left over zeroed.
   */
  function SerialTail(str: seq<bv8>): (t: seq<bv8>)
    ensures |t| == 6
  {
    var u := Units(str, |str|);
    var c := Min(6, |u|);
    seq(6 - c, _ => 0 as bv8) + Reverse(u[..c])
  }

  /** Bytes 0-9: `usecs` and `secs` little-endian, the version in byte 7, then two bytes of `clock_seq`. */
  function TimeBytes(usecs: bv32, secs: bv32, clockSeq: bv32): (t: seq<bv8>)
    ensures |t| == 10
    ensures t[7] & 0xF0 == 0x10
  {
    [(usecs & 0xFF) as bv8, ((usecs >> 8) & 0xFF) as bv8, ((usecs >> 16) & 0xFF) as bv8, ((usecs >> 24) & 0xFF) as bv8,
     (secs & 0xFF) as bv8, ((secs >> 8) & 0xFF) as bv8, ((secs >> 16) & 0xFF) as bv8,
     (((secs >> 24) & 0x0F) as bv8) | 0x10,
     (clockSeq & 0xFF) as bv8, ((clockSeq >> 8) & 0xFF) as bv8]
  }

  /**
    `pal_populate_guid` on a 16-byte buffer `buf`: the time bytes, then the
    serial scan from the last character, stopping after six bytes, then the
    zeroing of whatever of bytes 10-15 the scan did not write.
   */
  method PopulateGuid(buf: seq<bv8>, usecs: bv32, secs: bv32, clockSeq: bv32, str: seq<bv8>) returns (guid: seq<bv8>)
    requires |buf| == 16
    ensures |guid| == 16
    ensures guid[..10] == TimeBytes(usecs, secs, clockSeq)
    ensures guid[7] & 0xF0 == 0x10
    ensures guid[10..] == SerialTail(str)
  {
    guid := TimeBytes(usecs, secs, clockSeq) + buf[10..];
    var count;
    guid, count := ScanSerial(guid, str);
    if count != 6 {
      guid := guid[..10] + seq(6 - count, _ => 0 as bv8) + guid[16 - count..];
    }
    TailIsSerial(str, guid, count);
  }

  /**
    The scan loop of `pal_populate_guid`: from the last character of `str`,
    write byte `15 - count` for each unit until six are written or the
    string is used up.  Returns the buffer and `count`.
   */
  method ScanSerial(guid0: seq<bv8>, str: seq<bv8>) returns (guid: seq<bv8>, count: nat)
    requires |guid0| == 16
    ensures |guid| == 16 && guid[..10] == guid0[..10]
    ensures count == Min(6, |Units(str, |str|)|)
    ensures forall k :: 0 <= k < count ==> guid[15 - k] == Units(str, |str|)[k]
  {
    guid := guid0;
    count := 0;
    var i: int := |str| - 1;
    ghost var u := Units(str, |str|);
    ghost var produced: seq<bv8> := [];
    while i >= 0 && count != 6
      invariant -1 <= i < |str|
      invariant count <= 6 && |produced| == count
      invariant |guid| == 16 && guid[..10] == guid0[..10]
      invariant produced + Units(str, i + 1) == u
      invariant Written(guid, produced)
    {
      var b, last := NextUnit(str, i);
      ConsumeStep(produced, b, Units(str, i + 1), Units(str, last), u);
      WriteStep(guid, produced, b);
      guid := guid[15 - count := b];
      produced := produced + [b];
      count := count + 1;
      i := last - 1;
    }
    ScanDone(str, produced, i);
  }

  /** Bytes 15, 14, ... of `guid` hold `produced` in order. */
  predicate Written(guid: seq<bv8>, produced: seq<bv8>) {
    |guid| == 16 && |produced| <= 6 && forall k :: 0 <= k < |produced| ==> guid[15 - k] == produced[k]
  }

  /** Moving the next unit from the unconsumed units to the produced ones keeps their concatenation. */
  lemma ConsumeStep(produced: seq<bv8>, b: bv8, units: seq<bv8>, rest: seq<bv8>, u: seq<bv8>)
    requires units == [b] + rest && produced + units == u
    ensures (produced + [b]) + rest == u
  {
    assert (produced + [b]) + rest == produced + ([b] + rest);
  }

  /** Writing the next scanned byte one below the last keeps the written bytes in scan order. */
  lemma WriteStep(guid: seq<bv8>, produced: seq<bv8>, b: bv8)
    requires Written(guid, produced) && |produced| < 6
    ensures Written(guid[15 - |produced| := b], produced + [b])
  {
  }

  /** When the scan stops, what it produced is the first `Min(6, _)` units. */
  lemma ScanDone(str: seq<bv8>, produced: seq<bv8>, i: int)
    requires -1 <= i < |str| && |produced| <= 6
    requires i >= 0 ==> |produced| == 6
    requires produced + Units(str, i + 1) == Units(str, |str|)
    ensures |produced| == Min(6, |Units(str, |str|)|)
    ensures forall k :: 0 <= k < |produced| ==> produced[k] == Units(str, |str|)[k]
  {
    var u := Units(str, |str|);
    if i < 0 {
      assert produced == u;
    } else {
      assert u[..|produced|] == produced;
    }
  }

  /**
    One pass of the scan loop at index `i`: the byte it writes, and the index
    of the leftmost character it consumed (`i` itself, or `i - 1` when that
    character is taken as the high digit).
   */
  method NextUnit(str: seq<bv8>, i0: int) returns (b: bv8, i: int)
    requires 0 <= i0 < |str|
    ensures i == i0 || i == i0 - 1
    ensures 0 <= i && Units(str, i0 + 1) == [b] + Units(str, i)
  {
    i := i0;
    if IsAlphaByte(str[i]) {
      b := str[i];
      return;
    }
    var lsb := str[i] - ZERO_CHAR;
    var msb: bv8;
    if i > 0 {
      i := i - 1;
      if IsAlphaByte(str[i]) {
        i := i + 1;
        msb := 0;
      } else {
        msb := str[i] - ZERO_CHAR;
      }
    } else {
      msb := 0;
    }
    b := Pack(msb, lsb);
  }

  /** The scanned bytes and the zeroed ones together are `SerialTail`. */
  lemma TailIsSerial(str: seq<bv8>, guid: seq<bv8>, count: nat)
    requires |guid| == 16
    requires count == Min(6, |Units(str, |str|)|)
    requires forall k :: 0 <= k < count ==> guid[15 - k] == Units(str, |str|)[k]
    requires forall k :: 10 <= k < 16 - count ==> guid[k] == 0
    ensures guid[10..] == SerialTail(str)
  {
    var t := SerialTail(str);
    forall m | 0 <= m < 6
      ensures guid[10..][m] == t[m]
    {
      if m >= 6 - count {
        assert guid[10 + m] == Units(str, |str|)[5 - m];
      }
    }
  }

  // ---------------------------------------------------------------------------
  // What the serial bytes look like
  // ---------------------------------------------------------------------------

  /** The example in the source's comment: "LSP62100035" packs to 'S' 'P' 0x62 0x10 0x00 0x35. */
  lemma SerialExample()
    ensures SerialTail([0x4c, 0x53, 0x50, 0x36, 0x32, 0x31, 0x30, 0x30, 0x30, 0x33, 0x35])
            == [0x53, 0x50, 0x62, 0x10, 0x00, 0x35]
  {
    var str: seq<bv8> := [0x4c, 0x53, 0x50, 0x36, 0x32, 0x31, 0x30, 0x30, 0x30, 0x33, 0x35];
    var u := Units(str, 11);
    assert u[..6] == [0x35, 0x00, 0x10, 0x62, 0x50, 0x53];
  }

  /** Each unit consumes at most two characters. */
  lemma {:induction false} UnitsLength(str: seq<bv8>, n: nat)
    requires n <= |str|
    ensures 2 * |Units(str, n)| >= n
    decreases n
  {
    if n > 0 {
      if IsAlphaByte(str[n - 1]) {
        UnitsLength(str, n - 1);
      } else if n >= 2 && !IsAlphaByte(str[n - 2]) {
        UnitsLength(str, n - 2);
      } else {
        UnitsLength(str, n - 1);
      }
    }
  }

  /** A serial of at least twelve characters fills bytes 10-15 with no zero padding. */
  lemma LongSerialFillsTail(str: seq<bv8>)
    requires |str| >= 12
    ensures |Units(str, |str|)| >= 6
    ensures SerialTail(str) == Reverse(Units(str, |str|)[..6])
  {
    UnitsLength(str, |str|);
  }

  /** A byte whose two nibbles are decimal digits. */
  predicate IsBcd(b: bv8) {
    b >> 4 <= 9 && b & 0x0F <= 9
  }

  lemma PackDigits(hi: bv8, lo: bv8)
    requires hi <= 9 && lo <= 9
    ensures IsBcd(Pack(hi, lo))
  {
  }

  /** From a serial of decimal digits every unit is a BCD pair. */
  lemma {:induction false} DigitsGiveBcd(str: seq<bv8>, n: nat)
    requires n <= |str|
    requires forall k :: 0 <= k < |str| ==> IsDigitByte(str[k])
    ensures forall k :: 0 <= k < |Units(str, n)| ==> IsBcd(Units(str, n)[k])
    decreases n
  {
    if n > 0 {
      assert !IsAlphaByte(str[n - 1]);
      if n >= 2 {
        assert !IsAlphaByte(str[n - 2]);
        PackDigits(str[n - 2] - ZERO_CHAR, str[n - 1] - ZERO_CHAR);
        DigitsGiveBcd(str, n - 2);
      } else {
        PackDigits(0, str[n - 1] - ZERO_CHAR);
        DigitsGiveBcd(str, n - 1);
      }
    }
  }

  /** A serial of decimal digits gives BCD bytes throughout bytes 10-15 (the zero padding included). */
  lemma DigitSerialIsBcd(str: seq<bv8>)
    requires forall k :: 0 <= k < |str| ==> IsDigitByte(str[k])
    ensures forall k :: 0 <= k < 6 ==> IsBcd(SerialTail(str)[k])
  {
    DigitsGiveBcd(str, |str|);
  }

  /** Letters are copied as they are: from an all-letter serial, bytes 10-15 are its last six characters. */
  lemma {:induction false} LettersCopied(str: seq<bv8>, n: nat)
    requires n <= |str|
    requires forall k :: 0 <= k < |str| ==> IsAlphaByte(str[k])
    ensures |Units(str, n)| == n
    ensures forall k :: 0 <= k < n ==> Units(str, n)[k] == str[n - 1 - k]
    decreases n
  {
    if n > 0 {
      LettersCopied(str, n - 1);
    }
  }

  lemma LetterSerialCopied(str: seq<bv8>)
    requires |str| >= 6
    requires forall k :: 0 <= k < |str| ==> IsAlphaByte(str[k])
    ensures SerialTail(str) == str[|str| - 6..]
  {
    LettersCopied(str, |str|);
  }
}

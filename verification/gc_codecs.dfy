/**
  grandcanyon values kept as text under configuration keys (pal.c): the
  server boot order and the system firmware version, both stored as two
  lower-case hex digits per byte, and the platform SKU, stored in decimal
  and handed out as a string of binary digits.

  `SIZE_BOOT_ORDER`, `SIZE_SYSFW_VER`, `sizeof(platformInformation)`,
  `MAX_SKU_VALUE` and `PAL_ENOTSUP` come from headers that are not part of
  this model; they are parameters here.
 */
module GcCodecs {
  import opened Common
  import opened GcKeys

  const BOOT_ORDER_KEY: string := "server_boot_order"
  const SYSFW_VER_KEY: string := "sysfw_ver"
  const SYSTEM_INFO_KEY: string := "system_info"

  /** The three keys are configured, each under its own row. */
  lemma CodecKeysKnown()
    ensures KeyIndex(BOOT_ORDER_KEY) == 1
    ensures KeyIndex(SYSFW_VER_KEY) == 3
    ensures KeyIndex(SYSTEM_INFO_KEY) == 6
  {
    KeyRow1();
    KeyRow3();
    KeyRow6();
  }

  /** A stored value that is hex digit pairs covering at least `n` bytes. */
  predicate HexText(s: string, n: nat) {
    2 * n <= |s| && IsHexString(s[..2 * n])
  }

  /** The `%02x` encoding of `bs` is well-formed text for `|bs|` bytes. */
  lemma EncodedIsHexText(bs: seq<Byte>)
    ensures HexText(HexEncode(bs, false), |bs|)
  {
    var s := HexEncode(bs, false);
    assert s[..2 * |bs|] == s;
  }

  /** Storing `v` under `key` adds that key and keeps every other. */
  lemma StoredUnder(kv: Kv, key: string, v: string)
    ensures kv[key := v].Keys == kv.Keys + {key}
    ensures forall k :: k in kv && k != key ==> kv[key := v][k] == kv[k]
  {
  }

  /**
    Character `i` of the zero-filled value buffer `kv_get` copied `s` into:
    past the value's end the buffer holds NULs.
   */
  function CharAt(s: string, i: nat): char {
    if i < |s| then s[i] else '\0'
  }

  // ---------------------------------------------------------------------------
  // Boot order
  // ---------------------------------------------------------------------------

  /**
    `pal_set_boot_order`: `%02x` of every byte, stored under
    "server_boot_order"; `res_len` is always 0.
   */
  function SetBootOrder(kv: Kv, boot: seq<Byte>, fault: bool): (r: (int, nat, Kv))
    ensures r.1 == 0
    ensures r.0 == 0 <==> !fault
    ensures r.0 == 0 ==> r.2.Keys == kv.Keys + {BOOT_ORDER_KEY}
                         && HexText(r.2[BOOT_ORDER_KEY], |boot|) && |r.2[BOOT_ORDER_KEY]| == 2 * |boot|
                         && forall k :: k in kv && k != BOOT_ORDER_KEY ==> r.2[k] == kv[k]
    ensures r.0 != 0 ==> r.2 == kv
  {
    CodecKeysKnown();
    var v := HexEncode(boot, false);
    EncodedIsHexText(boot);
    StoredUnder(kv, BOOT_ORDER_KEY, v);
    var s := SetKeyValue(kv, BOOT_ORDER_KEY, v, fault);
    (s.0, 0, s.1)
  }

  /**
    Byte `j` as `pal_get_boot_order` rebuilds it: `strtol("<c>\n", NULL, 16)`
    of each of its two characters, packed as `(msb << 4) | lsb`.
   */
  function BootByte(s: string, j: nat): (b: Byte)
    ensures b == HexNibble(CharAt(s, 2 * j)) * 16 + HexNibble(CharAt(s, 2 * j + 1))
  {
    var hi := CharAt(s, 2 * j);
    var lo := CharAt(s, 2 * j + 1);
    StrtolHexOneChar(hi);
    StrtolHexOneChar(lo);
    StrtolHex([hi, '\n']) * 16 + StrtolHex([lo, '\n'])
  }

  /**
    `pal_get_boot_order`: a failed lookup returns its code with `res_len` 0;
    otherwise `size` bytes are rebuilt and `res_len` is `size`.
   */
  function GetBootOrder(kv: Kv, size: nat): (r: (int, nat, seq<Byte>))
    ensures r.0 == 0 || r.0 == -1
    ensures r.0 == 0 <==> BOOT_ORDER_KEY in kv
    ensures r.0 != 0 ==> r.1 == 0 && r.2 == []
    ensures r.0 == 0 ==> r.1 == size && |r.2| == size
    ensures r.0 == 0 && HexText(kv[BOOT_ORDER_KEY], size) ==>
              r.2 == HexDecode(kv[BOOT_ORDER_KEY][..2 * size])
  {
    CodecKeysKnown();
    var g := GetKeyValue(kv, BOOT_ORDER_KEY);
    if g.0 != 0 then (g.0, 0, [])
    else (0, size, BootBytes(g.1, size))
  }

  /**
    The loop of `pal_get_boot_order`: bytes `0 .. size-1` rebuilt from the
    stored text; on well-formed text that is its hex decoding.
   */
  function BootBytes(s: string, size: nat): (bs: seq<Byte>)
    ensures |bs| == size
    ensures forall j :: 0 <= j < size ==> bs[j] == HexNibble(CharAt(s, 2 * j)) * 16 + HexNibble(CharAt(s, 2 * j + 1))
    ensures HexText(s, size) ==> bs == HexDecode(s[..2 * size])
  {
    var bs := seq(size, j requires 0 <= j < size => BootByte(s, j));
    DecodesAsHex(s, size, bs);
    bs
  }

  /**
    Bytes rebuilt from the stored text so that a pair of hex digits gives
    its value are, on well-formed text, its hex decoding.
   */
  lemma DecodesAsHex(s: string, size: nat, bs: seq<Byte>)
    requires |bs| == size
    requires forall j :: 0 <= j < size && IsHexDigit(CharAt(s, 2 * j)) && IsHexDigit(CharAt(s, 2 * j + 1)) ==>
               bs[j] == HexValue(CharAt(s, 2 * j)) * 16 + HexValue(CharAt(s, 2 * j + 1))
    ensures HexText(s, size) ==> bs == HexDecode(s[..2 * size])
  {
    if HexText(s, size) {
      var d := HexDecode(s[..2 * size]);
      forall j | 0 <= j < size
        ensures bs[j] == d[j]
      {
        PairDecodes(s, size, j);
      }
    }
  }

  /** What `pal_set_boot_order` stores, `pal_get_boot_order` gives back, byte for byte. */
  lemma BootOrderRoundTrip(kv: Kv, boot: seq<Byte>)
    ensures var st := SetBootOrder(kv, boot, false);
            st.0 == 0 && GetBootOrder(st.2, |boot|) == (0, |boot|, boot)
  {
    var kv' := SetBootOrder(kv, boot, false).2;
    var s := HexEncode(boot, false);
    assert kv'[BOOT_ORDER_KEY] == s;
    assert s[..2 * |boot|] == s;
    HexDecodeEncode(boot, false);
  }

  /** The configured default "0100090203ff" is the boot order 01 00 09 02 03 ff. */
  lemma DefaultBootOrder(kv: Kv)
    requires BOOT_ORDER_KEY in kv && kv[BOOT_ORDER_KEY] == "0100090203ff"
    ensures GetBootOrder(kv, 6) == (0, 6, [1, 0, 9, 2, 3, 255])
  {
    var s := "0100090203ff";
    DefaultIsHexText();
    assert s[..12] == s;
    DefaultDecodes();
  }

  lemma DefaultIsHexText()
    ensures HexText("0100090203ff", 6)
  {
    var s := "0100090203ff";
    assert s[..12] == s;
    forall i | 0 <= i < 12
      ensures IsHexDigit(s[i])
    {
    }
  }

  lemma DefaultDecodes()
    ensures HexDecode("0100090203ff") == [1, 0, 9, 2, 3, 255]
  {
  }

  // ---------------------------------------------------------------------------
  // System firmware version
  // ---------------------------------------------------------------------------

  /**
    `pal_set_sysfw_ver`: -1 for a NULL buffer; otherwise `%02x` of every
    byte stored under "sysfw_ver", returning the store's result.
   */
  function SetSysfwVer(kv: Kv, ver: Option<seq<Byte>>, fault: bool): (r: (int, Kv))
    ensures ver.None? ==> r == (-1, kv)
    ensures ver.Some? ==> (r.0 == 0 <==> !fault)
    ensures r.0 == 0 ==> ver.Some? && r.1.Keys == kv.Keys + {SYSFW_VER_KEY}
                         && r.1[SYSFW_VER_KEY] == HexEncode(ver.value, false)
                         && HexText(r.1[SYSFW_VER_KEY], |ver.value|) && |r.1[SYSFW_VER_KEY]| == 2 * |ver.value|
                         && forall k :: k in kv && k != SYSFW_VER_KEY ==> r.1[k] == kv[k]
    ensures r.0 != 0 ==> r.1 == kv
  {
    if ver.None? then (-1, kv)
    else
      CodecKeysKnown();
      var v := HexEncode(ver.value, false);
      EncodedIsHexText(ver.value);
      StoredUnder(kv, SYSFW_VER_KEY, v);
      SetKeyValue(kv, SYSFW_VER_KEY, v, fault)
  }

  /** The `(uint8_t)` cast: the value modulo 256. */
  function Low8(x: int): (b: Byte)
    ensures 0 <= x < 256 ==> b == x
  {
    x % 256
  }

  /**
    Byte `j` as `pal_get_sysfw_ver` rebuilds it: `(uint8_t) strtol("<c><c>\n", NULL, 16)`
    of its two characters, with the `strtol` reading in closed form (`SysfwByteIsStrtol`).
   */
  function SysfwByte(s: string, j: nat): (b: Byte)
    ensures IsHexDigit(CharAt(s, 2 * j)) && IsHexDigit(CharAt(s, 2 * j + 1)) ==>
              b == HexValue(CharAt(s, 2 * j)) * 16 + HexValue(CharAt(s, 2 * j + 1))
  {
    Low8(HexPair(CharAt(s, 2 * j), CharAt(s, 2 * j + 1)))
  }

  /** `SysfwByte` is the low byte of what `strtol` reads from the two characters and a newline. */
  lemma SysfwByteIsStrtol(s: string, j: nat)
    ensures SysfwByte(s, j) == Low8(StrtolHex([CharAt(s, 2 * j), CharAt(s, 2 * j + 1), '\n']))
  {
    StrtolHexPair(CharAt(s, 2 * j), CharAt(s, 2 * j + 1));
  }

  /**
    `pal_get_sysfw_ver`: -1 for a NULL buffer, `PAL_ENOTSUP` (the parameter
    `enotsup`) with the buffer untouched when the lookup fails, otherwise 0
    and `size` rebuilt bytes.
   */
  function GetSysfwVer(kv: Kv, size: nat, ver: Option<seq<Byte>>, enotsup: int): (r: (int, Option<seq<Byte>>))
    ensures ver.None? ==> r == (-1, None)
    ensures ver.Some? && SYSFW_VER_KEY !in kv ==> r == (enotsup, ver)
    ensures ver.Some? && SYSFW_VER_KEY in kv ==> r.0 == 0 && r.1.Some? && |r.1.value| == size
    ensures ver.Some? && SYSFW_VER_KEY in kv && HexText(kv[SYSFW_VER_KEY], size) ==>
              r.1 == Some(HexDecode(kv[SYSFW_VER_KEY][..2 * size]))
  {
    if ver.None? then (-1, None)
    else
      CodecKeysKnown();
      var g := GetKeyValue(kv, SYSFW_VER_KEY);
      if g.0 != 0 then (enotsup, ver)
      else (0, Some(SysfwBytes(g.1, size)))
  }

  /** The loop of `pal_get_sysfw_ver`: bytes `0 .. size-1` rebuilt from the stored text. */
  function SysfwBytes(s: string, size: nat): (bs: seq<Byte>)
    ensures |bs| == size
    ensures forall j :: 0 <= j < size ==> bs[j] == SysfwByte(s, j)
    ensures HexText(s, size) ==> bs == HexDecode(s[..2 * size])
  {
    var bs := seq(size, j requires 0 <= j < size => SysfwByte(s, j));
    if HexText(s, size) then
      SysfwDecodes(s, size, bs);
      bs
    else
      bs
  }

  lemma SysfwDecodes(s: string, size: nat, bs: seq<Byte>)
    requires |bs| == size && HexText(s, size)
    requires forall j :: 0 <= j < size ==> bs[j] == SysfwByte(s, j)
    ensures bs == HexDecode(s[..2 * size])
  {
    var d := HexDecode(s[..2 * size]);
    forall j | 0 <= j < size
      ensures bs[j] == d[j]
    {
      PairDecodes(s, size, j);
      assert bs[j] == SysfwByte(s, j);
    }
  }

  /** On well-formed text, characters `2j` and `2j + 1` are hex digits and byte `j` of the decoding is their value. */
  lemma PairDecodes(s: string, size: nat, j: nat)
    requires HexText(s, size) && j < size
    ensures IsHexDigit(CharAt(s, 2 * j)) && IsHexDigit(CharAt(s, 2 * j + 1))
    ensures HexDecode(s[..2 * size])[j] == HexValue(CharAt(s, 2 * j)) * 16 + HexValue(CharAt(s, 2 * j + 1))
  {
    var t := s[..2 * size];
    assert t[2 * j] == s[2 * j] == CharAt(s, 2 * j);
    assert t[2 * j + 1] == s[2 * j + 1] == CharAt(s, 2 * j + 1);
    assert IsHexDigit(t[2 * j]) && IsHexDigit(t[2 * j + 1]);
    HexDecodeAt(t, j);
  }

  /** `pal_set_sysfw_ver` then `pal_get_sysfw_ver` gives the same bytes back. */
  lemma SysfwRoundTrip(kv: Kv, ver: seq<Byte>, buf: seq<Byte>, enotsup: int)
    ensures var st := SetSysfwVer(kv, Some(ver), false);
            st.0 == 0 && GetSysfwVer(st.1, |ver|, Some(buf), enotsup) == (0, Some(ver))
  {
    CodecKeysKnown();
    var st := SetSysfwVer(kv, Some(ver), false);
    var s := HexEncode(ver, false);
    assert st.0 == 0 && st.1[SYSFW_VER_KEY] == s;
    TakeWhole(s, 2 * |ver|);
    HexDecodeEncode(ver, false);
  }

  // ---------------------------------------------------------------------------
  // Platform SKU
  // ---------------------------------------------------------------------------

  function Pow2(n: nat): (p: nat)
    ensures p >= 1
  {
    if n == 0 then 1 else 2 * Pow2(n - 1)
  }

  /** A string of binary digits read most significant first. */
  function BinaryValue(s: string): nat {
    if s == [] then 0 else 2 * BinaryValue(s[..|s| - 1]) + (if s[|s| - 1] == '1' then 1 else 0)
  }

  /**
    The low `width` bits of `v` in two's complement, most significant first,
    as '0'/'1': the last digit is `v & 1` and the rest are the bits of
    `v >> 1` (an arithmetic shift, which is floor division by 2).
   */
  function Bits(v: int, width: nat): (s: string)
    ensures |s| == width
    decreases width
    ensures forall i :: 0 <= i < width ==> s[i] == '0' || s[i] == '1'
  {
    if width == 0 then [] else Bits(v / 2, width - 1) + [if v % 2 == 1 then '1' else '0']
  }

  lemma MulAtLeast(a: int, d: int)
    requires a >= 1 && d > 0
    ensures a * d >= d
  {
    var b := a - 1;
    assert a * d == b * d + d;
    assert b * d >= 0;
  }

  /** Euclidean division is unique. */
  lemma DivModUnique(x: int, d: int, k: int, y: int)
    requires d > 0 && x == k * d + y && 0 <= y < d
    ensures x % d == y
  {
    var q := x / d;
    var r := x % d;
    assert x == q * d + r;
    assert k * d - q * d == r - y;
    assert (k - q) * d == k * d - q * d;
    if k > q {
      MulAtLeast(k - q, d);
    } else if k < q {
      MulAtLeast(q - k, d);
    }
  }

  /** One step of reading bits back: the low bit, then twice the value of the rest. */
  lemma ModDouble(v: int, p: int)
    requires p > 0
    ensures 2 * ((v / 2) % p) + v % 2 == v % (2 * p)
  {
    var q := v / 2;
    var m := q % p;
    var t := q / p;
    assert q == t * p + m;
    assert t * (2 * p) == 2 * (t * p);
    assert v == t * (2 * p) + (2 * m + v % 2);
    DivModUnique(v, 2 * p, t, 2 * m + v % 2);
  }

  /** Reading the bits back gives `v` modulo `2^width`; for negative `v` that is its two's complement. */
  lemma {:induction false} BitsValue(v: int, width: nat)
    ensures BinaryValue(Bits(v, width)) == v % Pow2(width)
    decreases width
  {
    if width > 0 {
      var s := Bits(v, width);
      assert s[..width - 1] == Bits(v / 2, width - 1);
      BitsValue(v / 2, width - 1);
      assert BinaryValue(s) == 2 * ((v / 2) % Pow2(width - 1)) + v % 2;
      ModDouble(v, Pow2(width - 1));
    }
  }

  /**
    `pal_get_sku`: -1 for a NULL buffer, a failed lookup of "system_info" or
    an `atoi` value of at least `maxSku`; otherwise 0 and the low `width`
    bits of the value, written from the last position backwards.
   */
  method GetSku(kv: Kv, bufPresent: bool, width: nat, maxSku: int) returns (ret: int, sku: Option<string>)
    ensures ret == 0 || ret == -1
    ensures ret == 0 <==> bufPresent && SYSTEM_INFO_KEY in kv && Atoi(kv[SYSTEM_INFO_KEY]) < maxSku
    ensures ret != 0 ==> sku.None?
    ensures ret == 0 ==> sku == Some(Bits(Atoi(kv[SYSTEM_INFO_KEY]), width))
    ensures ret == 0 ==> BinaryValue(sku.value) == Atoi(kv[SYSTEM_INFO_KEY]) % Pow2(width)
    // `atoi` saturates: a value below LONG_MIN packs as LONG_MIN, whose low 31 bits are all 0
    ensures ret == 0 && DecimalPrefixValue(kv[SYSTEM_INFO_KEY]) < LONG_MIN && width <= 31 ==>
              sku == Some(seq(width, _ => '0'))
  {
    if !bufPresent {
      return -1, None;
    }
    CodecKeysKnown();
    var g := GetKeyValue(kv, SYSTEM_INFO_KEY);
    if g.0 < 0 {
      return -1, None;
    }
    var v0 := Atoi(g.1);
    if v0 >= maxSku {
      return -1, None;
    }
    var bits := SkuBits(v0, width);
    BitsValue(v0, width);
    if v0 == LONG_MIN && width <= 31 {
      LongMinLowBits(width);
    }
    return 0, Some(bits);
  }

  /**
    The loop of `pal_get_sku`: from the last position down to the first,
    store `(v & 1) + '0'` and shift `v` right by one.
   */
  method SkuBits(v0: int, width: nat) returns (tmp: string)
    ensures tmp == Bits(v0, width)
  {
    var v := v0;
    tmp := seq(width, _ => '0');
    var i: int := width - 1;
    while i >= 0
      invariant -1 <= i < width
      invariant |tmp| == width
      invariant Bits(v, i + 1) + tmp[i + 1..] == Bits(v0, width)
    {
      ghost var before := tmp;
      var c := if v % 2 == 1 then '1' else '0';
      tmp := tmp[i := c];
      assert tmp[i + 1..] == before[i + 1..];
      assert tmp[i..] == [c] + tmp[i + 1..];
      assert Bits(v, i + 1) == Bits(v / 2, i) + [c];
      v := v / 2;
      i := i - 1;
    }
    assert tmp[0..] == tmp;
  }

  /** The low `w` bits of a multiple of `2^n`, for `w <= n`, are all 0. */
  lemma {:induction false} MultipleLowBits(k: int, n: nat, w: nat)
    requires w <= n
    ensures Bits(k * Pow2(n), w) == seq(w, _ => '0')
    decreases w
  {
    if w > 0 {
      var v := k * Pow2(n);
      assert v == 2 * (k * Pow2(n - 1));
      MultipleLowBits(k, n - 1, w - 1);
      assert Bits(v, w) == Bits(k * Pow2(n - 1), w - 1) + ['0'];
    }
  }

  lemma {:induction false} Pow2Add(a: nat, b: nat)
    ensures Pow2(a + b) == Pow2(a) * Pow2(b)
    decreases a
  {
    if a > 0 {
      Pow2Add(a - 1, b);
    }
  }

  /** `LONG_MIN` is `-2^31`, so its low 31 bits are all 0. */
  lemma LongMinLowBits(w: nat)
    requires w <= 31
    ensures Bits(LONG_MIN, w) == seq(w, _ => '0')
  {
    Pow2ThirtyOne();
    MultipleLowBits(-1, 31, w);
  }

  lemma Pow2ThirtyOne()
    ensures Pow2(31) == -LONG_MIN
  {
    assert Pow2(4) == 16;
    Pow2Add(4, 4);
    Pow2Add(8, 8);
    Pow2Add(16, 8);
    Pow2Add(24, 4);
    Pow2Add(28, 3);
    assert Pow2(3) == 8;
  }

  /** A SKU value that fits in the width is recovered exactly. */
  lemma SkuInRangeRoundTrip(v: int, width: nat)
    requires 0 <= v < Pow2(width)
    ensures BinaryValue(Bits(v, width)) == v
  {
    BitsValue(v, width);
  }
}

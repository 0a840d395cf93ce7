/**
  grandcanyon POST codes on the debug card (pal.c): showing a POST code on
  the eight LED GPIOs, reading the shown code back, reading the debug
  card's four UART-select GPIOs, and the handler that decides whether to
  show a code at all.

  The GPIO shadow values are a map from pin to value; a pin the map does not
  hold reads as invalid.  Whether a `gpio_set_value_by_shadow` call fails is
  an oracle, and so is the presence check of the debug card.
 */
module GcPost {
  import opened Common

  datatype GpioValue = Low | High | Invalid

  /** The pins involved: the LED pins `GPIO_LED_POSTCODE_0..7` and the UART selects `SEL0..3`. */
  datatype Pin = LedPostcode(i: nat) | UartSel(i: nat)

  type Gpios = map<Pin, GpioValue>

  /** `gpio_get_value_by_shadow`. */
  function Get(m: Gpios, p: Pin): GpioValue {
    if p in m then m[p] else Invalid
  }

  /** Bit `i` of a byte, as the LED level that shows it. */
  function Level(status: bv8, i: nat): GpioValue
    requires i < 8
  {
    if (status >> i) & 1 != 0 then High else Low
  }

  /** `(uint8_t)value` of a valid GPIO value. */
  function Bit(v: GpioValue): bv8
    requires v != Invalid
  {
    if v == High then 1 else 0
  }

  // ---------------------------------------------------------------------------
  // Showing a code
  // ---------------------------------------------------------------------------

  /** The result of `pal_post_display`: its return value, the pins afterwards, and how many LED pins were set. */
  datatype Shown = Shown(ret: int, gpios: Gpios, pins: nat)

  /** The loop of `pal_post_display` from pin `i` on, `ret` being the last call's result. */
  function DisplayFrom(status: bv8, i: nat, m: Gpios, setRet: nat -> int, ret: int): (r: Shown)
    requires i <= 8
    ensures i <= r.pins <= 8
    ensures forall j :: i <= j < r.pins ==> setRet(j) >= 0
    ensures r.pins < 8 ==> setRet(r.pins) < 0 && r.ret == setRet(r.pins)
    ensures r.pins == 8 && i < 8 ==> r.ret == setRet(7)
    ensures forall j :: i <= j < r.pins ==> Get(r.gpios, LedPostcode(j)) == Level(status, j)
    ensures forall p: Pin :: !(p.LedPostcode? && i <= p.i < r.pins) ==> Get(r.gpios, p) == Get(m, p)
    decreases 8 - i
  {
    if i == 8 then Shown(ret, m, 8)
    else
      var rc := setRet(i);
      if rc < 0 then Shown(rc, m, i)
      else DisplayFrom(status, i + 1, m[LedPostcode(i) := Level(status, i)], setRet, rc)
  }

  /**
    `pal_post_display`: pin `i` driven with bit `i`, from pin 0 up, stopping
    at the first failing set, whose result is returned; otherwise the last
    set's result.
   */
  function PostDisplay(status: bv8, m: Gpios, setRet: nat -> int): (r: Shown)
    ensures r.pins <= 8
    ensures forall j :: 0 <= j < r.pins ==> setRet(j) >= 0
    ensures r.pins < 8 ==> r.ret < 0 && r.ret == setRet(r.pins)
    ensures r.pins == 8 ==> r.ret == setRet(7) && r.ret >= 0
    ensures r.ret < 0 <==> r.pins < 8
    ensures forall j :: 0 <= j < r.pins ==> Get(r.gpios, LedPostcode(j)) == Level(status, j)
    ensures forall p: Pin :: !(p.LedPostcode? && p.i < r.pins) ==> Get(r.gpios, p) == Get(m, p)
  {
    DisplayFrom(status, 0, m, setRet, 0)
  }

  // ---------------------------------------------------------------------------
  // Reading codes back
  // ---------------------------------------------------------------------------

  /**
    Shift GPIO values in, most significant first: `(*code) <<= 1;
    (*code) |= value` per pin, stopping with -1 at an invalid value (the
    code so far stays in `*code`).
   */
  function ShiftIn(vals: seq<GpioValue>, acc: bv8): (r: (int, bv8))
    ensures r.0 == 0 || r.0 == -1
    ensures r.0 == 0 <==> forall k :: 0 <= k < |vals| ==> vals[k] != Invalid
  {
    if vals == [] then (0, acc)
    else if vals[0] == Invalid then (-1, acc)
    else ShiftIn(vals[1..], (acc << 1) | Bit(vals[0]))
  }

  /** The LED pins from `n - 1` down to 0: the order the read loop visits them. */
  function LedsDown(m: Gpios, n: nat): (vals: seq<GpioValue>)
    ensures |vals| == n
    ensures forall k :: 0 <= k < n ==> vals[k] == Get(m, LedPostcode(n - 1 - k))
  {
    if n == 0 then [] else [Get(m, LedPostcode(n - 1))] + LedsDown(m, n - 1)
  }

  /**
    `pal_get_current_led_post_code`: -1 when `post_code` is NULL (`hasBuffer`
    false); otherwise the eight LED pins read from 7 down to 0, -1 at the
    first invalid one.
   */
  function GetCurrentLedPostCode(hasBuffer: bool, m: Gpios): (r: (int, Option<bv8>))
    ensures !hasBuffer ==> r == (-1, None)
    ensures hasBuffer ==> r.1.Some?
    ensures r.0 == 0 <==> hasBuffer && forall j :: 0 <= j < 8 ==> Get(m, LedPostcode(j)) != Invalid
    ensures r.0 == 0 || r.0 == -1
  {
    if !hasBuffer then (-1, None)
    else
      var vals := LedsDown(m, 8);
      var s := ShiftIn(vals, 0);
      assert forall j :: 0 <= j < 8 ==> Get(m, LedPostcode(j)) == vals[7 - j];
      (s.0, Some(s.1))
  }

  /** One pass of the read loop on a valid value. */
  lemma ShiftInStep(vals: seq<GpioValue>, acc: bv8)
    requires vals != [] && vals[0] != Invalid
    ensures ShiftIn(vals, acc) == ShiftIn(vals[1..], (acc << 1) | Bit(vals[0]))
  {
  }

  /** The eight bits of a byte, most significant first, each as 0 or 1. */
  function StatusBits(status: bv8): (b: seq<bv8>)
    ensures |b| == 8
    ensures forall k :: 0 <= k < 8 ==> b[k] == BitAt(status, 7 - k)
  {
    seq(8, k requires 0 <= k < 8 => BitAt(status, 7 - k))
  }

  /** Bit `i` of a byte, as 0 or 1. */
  function BitAt(status: bv8, i: nat): bv8
    requires i < 8
  {
    (status >> i) & 1
  }

  /** Shifting in the eight bits of a byte, most significant first, rebuilds the byte. */
  lemma ShiftInByte(status: bv8)
    ensures var b := StatusBits(status);
            var a1 := (0 << 1) | b[0];
            var a2 := (a1 << 1) | b[1];
            var a3 := (a2 << 1) | b[2];
            var a4 := (a3 << 1) | b[3];
            var a5 := (a4 << 1) | b[4];
            var a6 := (a5 << 1) | b[5];
            var a7 := (a6 << 1) | b[6];
            (a7 << 1) | b[7] == status
  {
  }

  /** The level that shows bit `i` is valid and reads back as that bit. */
  lemma LevelIsBit(status: bv8, i: nat)
    requires i < 8
    ensures Level(status, i) != Invalid && Bit(Level(status, i)) == BitAt(status, i)
  {
    LowBit(status >> i);
  }

  /** A byte masked with 1 is 0 or 1. */
  lemma LowBit(y: bv8)
    ensures y & 1 == 0 || y & 1 == 1
  {
  }

  /** LED levels read from pin 7 down to pin 0 are the byte's bits, most significant first. */
  lemma LevelsAreBits(status: bv8, v: seq<GpioValue>)
    requires |v| == 8
    requires forall k :: 0 <= k < 8 ==> v[k] == Level(status, 7 - k)
    ensures forall k :: 0 <= k < 8 ==> v[k] != Invalid && Bit(v[k]) == StatusBits(status)[k]
  {
    forall k | 0 <= k < 8
      ensures v[k] != Invalid && Bit(v[k]) == StatusBits(status)[k]
    {
      LevelIsBit(status, 7 - k);
    }
  }

  /** The first `n` bits of `b` shifted in, most significant first, starting from 0. */
  function PackBits(b: seq<bv8>, n: nat): bv8
    requires n <= |b|
  {
    if n == 0 then 0 else (PackBits(b, n - 1) << 1) | b[n - 1]
  }

  /** Shifting in valid values from position `i` on, after the bits before `i`, packs all of them. */
  lemma {:induction false} ShiftInPacks(v: seq<GpioValue>, b: seq<bv8>, i: nat)
    requires |v| == |b| && i <= |v|
    requires forall k :: 0 <= k < |v| ==> v[k] != Invalid && Bit(v[k]) == b[k]
    ensures ShiftIn(v[i..], PackBits(b, i)) == (0, PackBits(b, |v|))
    decreases |v| - i
  {
    if i < |v| {
      ShiftInStep(v[i..], PackBits(b, i));
      assert v[i..][1..] == v[i + 1..];
      ShiftInPacks(v, b, i + 1);
    }
  }

  /** Packing eight bits, written out. */
  lemma PackEight(b: seq<bv8>)
    requires |b| == 8
    ensures var a1 := (0 << 1) | b[0];
            var a2 := (a1 << 1) | b[1];
            var a3 := (a2 << 1) | b[2];
            var a4 := (a3 << 1) | b[3];
            var a5 := (a4 << 1) | b[4];
            var a6 := (a5 << 1) | b[5];
            var a7 := (a6 << 1) | b[6];
            PackBits(b, 8) == (a7 << 1) | b[7]
  {
    assert PackBits(b, 1) == (0 << 1) | b[0];
    assert PackBits(b, 2) == (PackBits(b, 1) << 1) | b[1];
    assert PackBits(b, 3) == (PackBits(b, 2) << 1) | b[2];
    assert PackBits(b, 4) == (PackBits(b, 3) << 1) | b[3];
    assert PackBits(b, 5) == (PackBits(b, 4) << 1) | b[4];
    assert PackBits(b, 6) == (PackBits(b, 5) << 1) | b[5];
    assert PackBits(b, 7) == (PackBits(b, 6) << 1) | b[6];
  }

  /** Packing the eight bits of a byte gives the byte back. */
  lemma PackByte(status: bv8)
    ensures PackBits(StatusBits(status), 8) == status
  {
    PackEight(StatusBits(status));
    ShiftInByte(status);
  }

  /** Eight valid values carrying a byte's bits, most significant first, shift in to that byte. */
  lemma ShiftInBits(status: bv8, v: seq<GpioValue>)
    requires |v| == 8
    requires forall k :: 0 <= k < 8 ==> v[k] != Invalid && Bit(v[k]) == StatusBits(status)[k]
    ensures ShiftIn(v, 0) == (0, status)
  {
    ShiftInPacks(v, StatusBits(status), 0);
    assert v[0..] == v;
    PackByte(status);
  }

  /** What `pal_post_display` showed in full, `pal_get_current_led_post_code` reads back. */
  lemma DisplayThenRead(status: bv8, m: Gpios, setRet: nat -> int)
    requires PostDisplay(status, m, setRet).pins == 8
    ensures GetCurrentLedPostCode(true, PostDisplay(status, m, setRet).gpios) == (0, Some(status))
  {
    var g := PostDisplay(status, m, setRet).gpios;
    var v := LedsDown(g, 8);
    assert forall k :: 0 <= k < 8 ==> v[k] == Level(status, 7 - k);
    LevelsAreBits(status, v);
    ShiftInBits(status, v);
  }

  /**
    `pal_get_debug_card_uart_sel`: SEL3, SEL2, SEL1 and SEL0 shifted in in
    that order; -1 at the first invalid one.
   */
  function GetDebugCardUartSel(m: Gpios): (r: (int, bv8))
    ensures r.0 == 0 <==> forall j :: 0 <= j < 4 ==> Get(m, UartSel(j)) != Invalid
    ensures r.0 == 0 || r.0 == -1
    // SEL3 is shifted in first, so it ends up as the most significant of the four bits
    ensures r.0 == 0 ==> r.1 == (Bit(Get(m, UartSel(3))) << 3) | (Bit(Get(m, UartSel(2))) << 2)
                                | (Bit(Get(m, UartSel(1))) << 1) | Bit(Get(m, UartSel(0)))
  {
    var vals := [Get(m, UartSel(3)), Get(m, UartSel(2)), Get(m, UartSel(1)), Get(m, UartSel(0))];
    assert forall j :: 0 <= j < 4 ==> Get(m, UartSel(j)) == vals[3 - j];
    if forall k :: 0 <= k < 4 ==> vals[k] != Invalid then
      var b := [Bit(vals[0]), Bit(vals[1]), Bit(vals[2]), Bit(vals[3])];
      ShiftInPacks(vals, b, 0);
      assert vals[0..] == vals;
      PackFour(b);
      ShiftIn(vals, 0)
    else
      ShiftIn(vals, 0)
  }

  /**
    The selection read from valid pins tells them apart: two readings give the
    same value exactly when SEL0..SEL3 are at the same levels.
   */
  lemma UartSelDistinguishesPins(m1: Gpios, m2: Gpios)
    requires GetDebugCardUartSel(m1).0 == 0 && GetDebugCardUartSel(m2).0 == 0
    ensures GetDebugCardUartSel(m1).1 == GetDebugCardUartSel(m2).1
            <==> forall j :: 0 <= j < 4 ==> Get(m1, UartSel(j)) == Get(m2, UartSel(j))
  {
  }

  /** Packing four one-bit values, most significant first, places value `k` at bit `3 - k`. */
  lemma PackFour(b: seq<bv8>)
    requires |b| == 4 && forall k :: 0 <= k < 4 ==> b[k] <= 1
    ensures PackBits(b, 4) == (b[0] << 3) | (b[1] << 2) | (b[2] << 1) | b[3]
  {
    assert PackBits(b, 1) == b[0];
    assert PackBits(b, 2) == (b[0] << 1) | b[1];
    assert PackBits(b, 3) == (PackBits(b, 2) << 1) | b[2];
  }

  // ---------------------------------------------------------------------------
  // The handler
  // ---------------------------------------------------------------------------

  /** What `pal_check_gpio_prsnt` reports for the debug card: FRU_PRESENT, FRU_ABSENT or anything else. */
  datatype Presence = CardPresent | CardAbsent | PresenceUnknown

  /** `pal_is_debug_card_present`: 0 with the status for a known answer, -1 otherwise. */
  function IsDebugCardPresent(p: Presence): (r: (int, bool))
    ensures r.0 == 0 <==> p != PresenceUnknown
    ensures r.0 == 0 || r.0 == -1
    ensures r.0 == 0 ==> (r.1 <==> p == CardPresent)
  {
    match p
    case CardPresent => (0, true)
    case CardAbsent => (0, false)
    case PresenceUnknown => (-1, false)
  }

  /**
    `pal_post_handle`: show `postcode` only when the debug card is present
    and its UART does not select the BMC (`uartSelBmc`, `DEBUG_UART_SEL_BMC`);
    an error in either check is returned.
   */
  function PostHandle(postcode: bv8, p: Presence, m: Gpios, uartSelBmc: bv8, setRet: nat -> int): (r: Shown)
    ensures p == PresenceUnknown ==> r == Shown(-1, m, 0)
    ensures p == CardAbsent ==> r == Shown(0, m, 0)
    ensures p == CardPresent && GetDebugCardUartSel(m).0 != 0 ==> r == Shown(-1, m, 0)
    ensures p == CardPresent && GetDebugCardUartSel(m) == (0, uartSelBmc) ==> r == Shown(0, m, 0)
    ensures p == CardPresent && GetDebugCardUartSel(m).0 == 0 && GetDebugCardUartSel(m).1 != uartSelBmc ==>
              r == PostDisplay(postcode, m, setRet)
  {
    var present := IsDebugCardPresent(p);
    if present.0 < 0 then Shown(present.0, m, 0)
    else if !present.1 then Shown(0, m, 0)
    else
      var sel := GetDebugCardUartSel(m);
      if sel.0 < 0 then Shown(sel.0, m, 0)
      else if sel.1 == uartSelBmc then Shown(0, m, 0)
      else PostDisplay(postcode, m, setRet)
  }

  /**
    The handler changes no UART-select pin, and changes an LED pin only when
    it displays: never with the card absent or the UART on the BMC.
   */
  lemma HandleLeavesPinsUnlessShown(postcode: bv8, p: Presence, m: Gpios, uartSelBmc: bv8, setRet: nat -> int)
    ensures var r := PostHandle(postcode, p, m, uartSelBmc, setRet);
            forall j :: 0 <= j < 4 ==> Get(r.gpios, UartSel(j)) == Get(m, UartSel(j))
    ensures var r := PostHandle(postcode, p, m, uartSelBmc, setRet);
            r.gpios != m ==> p == CardPresent && GetDebugCardUartSel(m).0 == 0 && GetDebugCardUartSel(m).1 != uartSelBmc
  {
  }

  /** A code the handler shows in full reads back from the LEDs. */
  lemma HandleThenRead(postcode: bv8, m: Gpios, uartSelBmc: bv8, setRet: nat -> int)
    requires GetDebugCardUartSel(m).0 == 0 && GetDebugCardUartSel(m).1 != uartSelBmc
    requires forall j :: 0 <= j < 8 ==> setRet(j) >= 0
    ensures var r := PostHandle(postcode, CardPresent, m, uartSelBmc, setRet);
            r.ret >= 0 && GetCurrentLedPostCode(true, r.gpios) == (0, Some(postcode))
  {
    DisplayThenRead(postcode, m, setRet);
  }
}

/**
  Clearcreek FRU staging (ipmid fruid.c): copy each FRU EEPROM into its
  staging file under /tmp, re-reading and re-parsing up to MAX_RELOAD_FRU
  more times, and serve IPMI FRU reads from the staged files.
 */
module ClearcreekFruid {
  import opened Common
  import opened Staging

  /** `MAX_RELOAD_FRU`: after the first cycle, at most this many further cycles. */
  const MAX_RELOAD_FRU: nat := 3

  // ---------------------------------------------------------------------------
  // copy_eeprom_to_bin
  // ---------------------------------------------------------------------------

  /**
    `errno` when attempt `k` starts: 0 from the reset before the opens for
    the first, and whatever the previous `fruid_parse` left for the others.
   */
  function ErrnoBefore(env: StageEnv, k: nat): int {
    if k == 0 then 0 else env.parseErrno(k - 1)
  }

  /**
    The `do … while` loop from attempt `k` on, reading at `rpos` and writing
    at `wpos`.  `parseOk` stands for `fruid_parse(bin_file, …) == 0` on the
    staging file's contents.
   */
  function Attempts(eeprom: seq<Byte>, env: StageEnv, parseOk: seq<Byte> -> bool,
                    k: nat, rpos: nat, bin: seq<Byte>, wpos: nat): (r: Staged)
    requires k <= MAX_RELOAD_FRU && wpos <= |bin|
    ensures r.bin.Some? && k <= r.cycles <= MAX_RELOAD_FRU + 1
    ensures r.cycles > k ==> rpos + FRUID_SIZE * (r.cycles - k) <= |eeprom|
    ensures r.exit.Stopped? || r.exit == Parsed || r.exit == RetriesExhausted
    ensures r.exit == Parsed ==> r.cycles > k && r.ret == env.parseErrno(r.cycles - 1) && parseOk(r.bin.value)
    ensures r.exit == RetriesExhausted ==>
              r.cycles == MAX_RELOAD_FRU + 1 && r.ret == env.parseErrno(MAX_RELOAD_FRU) && !parseOk(r.bin.value)
    ensures r.exit.Stopped? ==> r.exit.end != Copied && r.ret == CycleErrno(r.exit.end, ErrnoBefore(env, r.cycles))
    ensures r.exit.Stopped? && r.exit.end.ReadError? ==> env.read(r.cycles) == ReadFails(r.ret)
    ensures r.exit.Stopped? && r.exit.end.WriteError? ==> env.write(r.cycles) == WriteFails(r.ret)
    ensures r.exit == Stopped(ShortRead) ==>
              env.read(r.cycles) == ReadOk && |eeprom| < rpos + FRUID_SIZE * (r.cycles - k + 1)
              && (rpos <= |eeprom| ==> r.rpos == |eeprom|)
    ensures r.exit == Stopped(ShortWrite) ==> env.write(r.cycles).Wrote? && env.write(r.cycles).count < FRUID_SIZE
    decreases MAX_RELOAD_FRU - k
  {
    var c := CopyCycle(eeprom, rpos, bin, wpos, env.read(k), env.write(k));
    if c.end != Copied then Staged(CycleErrno(c.end, ErrnoBefore(env, k)), Stopped(c.end), Some(c.bin), k, c.rpos, c.wpos)
    else if parseOk(c.bin) then Staged(env.parseErrno(k), Parsed, Some(c.bin), k + 1, c.rpos, c.wpos)
    else if k + 1 > MAX_RELOAD_FRU then Staged(env.parseErrno(k), RetriesExhausted, Some(c.bin), k + 1, c.rpos, c.wpos)
    else Attempts(eeprom, env, parseOk, k + 1, c.rpos, c.bin, c.wpos)
  }

  /**
    `copy_eeprom_to_bin(eeprom_file, bin_file)` on an EEPROM holding `eeprom`
    and a staging file holding `binFile` (`None`: absent).
   */
  function CopyEepromToBin(eeprom: seq<Byte>, binFile: Option<seq<Byte>>,
                           env: StageEnv, parseOk: seq<Byte> -> bool): (r: Staged)
    ensures r.exit == EepromOpenFailed <==> env.eepromOpen.OpenFails?
    ensures r.exit == BinOpenFailed <==> env.eepromOpen == Opens && env.binOpen.OpenFails?
    ensures r.exit == EepromOpenFailed ==> r.ret == env.eepromOpen.errno && r.bin == binFile && r.cycles == 0
    ensures r.exit == BinOpenFailed ==> r.ret == env.binOpen.errno && r.bin == binFile && r.cycles == 0
  {
    if env.eepromOpen.OpenFails? then Staged(env.eepromOpen.errno, EepromOpenFailed, binFile, 0, 0, 0)
    else if env.binOpen.OpenFails? then Staged(env.binOpen.errno, BinOpenFailed, binFile, 0, 0, 0)
    else Attempts(eeprom, env, parseOk, 0, 0, Existing(binFile), 0)
  }

  /** One cycle of the retry loop, unfolded. */
  lemma AttemptsStep(eeprom: seq<Byte>, env: StageEnv, parseOk: seq<Byte> -> bool,
                     k: nat, rpos: nat, bin: seq<Byte>, wpos: nat, c: Cycle)
    requires k <= MAX_RELOAD_FRU && wpos <= |bin|
    requires c == CopyCycle(eeprom, rpos, bin, wpos, env.read(k), env.write(k))
    ensures c.end != Copied ==>
              Attempts(eeprom, env, parseOk, k, rpos, bin, wpos)
              == Staged(CycleErrno(c.end, ErrnoBefore(env, k)), Stopped(c.end), Some(c.bin), k, c.rpos, c.wpos)
    ensures c.end == Copied && parseOk(c.bin) ==>
              Attempts(eeprom, env, parseOk, k, rpos, bin, wpos)
              == Staged(env.parseErrno(k), Parsed, Some(c.bin), k + 1, c.rpos, c.wpos)
    ensures c.end == Copied && !parseOk(c.bin) && k + 1 > MAX_RELOAD_FRU ==>
              Attempts(eeprom, env, parseOk, k, rpos, bin, wpos)
              == Staged(env.parseErrno(k), RetriesExhausted, Some(c.bin), k + 1, c.rpos, c.wpos)
    ensures c.end == Copied && !parseOk(c.bin) && k + 1 <= MAX_RELOAD_FRU ==>
              c.wpos <= |c.bin|
              && Attempts(eeprom, env, parseOk, k, rpos, bin, wpos)
                 == Attempts(eeprom, env, parseOk, k + 1, c.rpos, c.bin, c.wpos)
  {
  }

  /** The same copy as a loop over two mutable descriptor offsets and `errno`, as the C code runs it. */
  method CopyEepromToBinLoop(eeprom: seq<Byte>, binFile: Option<seq<Byte>>,
                             env: StageEnv, parseOk: seq<Byte> -> bool) returns (r: Staged)
    ensures r == CopyEepromToBin(eeprom, binFile, env, parseOk)
  {
    if env.eepromOpen.OpenFails? {
      return Staged(env.eepromOpen.errno, EepromOpenFailed, binFile, 0, 0, 0);
    }
    if env.binOpen.OpenFails? {
      return Staged(env.binOpen.errno, BinOpenFailed, binFile, 0, 0, 0);
    }
    var bin := Existing(binFile);
    var rpos: nat, wpos: nat, reload: nat := 0, 0, 0;
    var errno := 0;
    ghost var copied := Attempts(eeprom, env, parseOk, 0, 0, bin, 0);
    assert copied == CopyEepromToBin(eeprom, binFile, env, parseOk);
    while true
      invariant reload <= MAX_RELOAD_FRU && wpos <= |bin|
      invariant errno == ErrnoBefore(env, reload)
      invariant Attempts(eeprom, env, parseOk, reload, rpos, bin, wpos) == copied
      decreases MAX_RELOAD_FRU - reload
    {
      var c := CopyCycle(eeprom, rpos, bin, wpos, env.read(reload), env.write(reload));
      AttemptsStep(eeprom, env, parseOk, reload, rpos, bin, wpos, c);
      if c.end != Copied {
        return Staged(CycleErrno(c.end, errno), Stopped(c.end), Some(c.bin), reload, c.rpos, c.wpos);
      }
      errno := env.parseErrno(reload);
      if parseOk(c.bin) {
        return Staged(errno, Parsed, Some(c.bin), reload + 1, c.rpos, c.wpos);
      }
      if reload + 1 > MAX_RELOAD_FRU {
        return Staged(errno, RetriesExhausted, Some(c.bin), reload + 1, c.rpos, c.wpos);
      }
      rpos, bin, wpos, reload := c.rpos, c.bin, c.wpos, reload + 1;
    }
  }

  /**
    The loop from attempt `k` on, when the first `k` cycles were full: the
    descriptors stand at FRUID_SIZE * k and the staging file holds the image
    of those cycles.
   */
  function From(eeprom: seq<Byte>, orig: seq<Byte>, env: StageEnv, parseOk: seq<Byte> -> bool, k: nat): Staged
    requires k <= MAX_RELOAD_FRU && FRUID_SIZE * k <= |eeprom|
  {
    Attempts(eeprom, env, parseOk, k, FRUID_SIZE * k, StagedImage(eeprom, orig, k), FRUID_SIZE * k)
  }

  /** Cycle `k` of the loop from `k` completes with an image that does not parse, and the budget allows another. */
  predicate Continues(eeprom: seq<Byte>, orig: seq<Byte>, env: StageEnv, parseOk: seq<Byte> -> bool, k: nat)
    requires FRUID_SIZE * k <= |eeprom|
  {
    var c := CopyCycle(eeprom, FRUID_SIZE * k, StagedImage(eeprom, orig, k), FRUID_SIZE * k, env.read(k), env.write(k));
    k < MAX_RELOAD_FRU && c.end == Copied && !parseOk(c.bin)
  }

  /** One full cycle from `k` continues as the loop from `k + 1`. */
  lemma FromStep(eeprom: seq<Byte>, orig: seq<Byte>, env: StageEnv, parseOk: seq<Byte> -> bool, k: nat)
    requires FRUID_SIZE * k <= |eeprom| && Continues(eeprom, orig, env, parseOk, k)
    ensures k + 1 <= MAX_RELOAD_FRU && FRUID_SIZE * (k + 1) <= |eeprom|
    ensures !parseOk(StagedImage(eeprom, orig, k + 1))
    ensures From(eeprom, orig, env, parseOk, k) == From(eeprom, orig, env, parseOk, k + 1)
  {
    StagedImageStep(eeprom, orig, k, env.read(k), env.write(k));
  }

  /**
    What the staging file holds when the loop returns after `r.cycles` full
    cycles: the EEPROM blocks of those cycles first, and exactly their image
    unless the last `write` was short.
   */
  predicate ImageFacts(eeprom: seq<Byte>, orig: seq<Byte>, r: Staged) {
    && FRUID_SIZE * r.cycles <= |eeprom| && r.bin.Some?
    && |r.bin.value| >= FRUID_SIZE * r.cycles
    && r.bin.value[..FRUID_SIZE * r.cycles] == eeprom[..FRUID_SIZE * r.cycles]
    && (r.exit != Stopped(ShortWrite) ==> r.bin.value == StagedImage(eeprom, orig, r.cycles))
  }

  /** Every image staged before the last failed to parse, and the exit says how the last one did. */
  predicate ParseFacts(eeprom: seq<Byte>, orig: seq<Byte>, parseOk: seq<Byte> -> bool, r: Staged) {
    && FRUID_SIZE * r.cycles <= |eeprom|
    && (forall j :: 1 <= j < r.cycles ==> !parseOk(StagedImage(eeprom, orig, j)))
    && (r.exit == Parsed ==> parseOk(StagedImage(eeprom, orig, r.cycles)))
    && (r.exit == RetriesExhausted ==> !parseOk(StagedImage(eeprom, orig, r.cycles)))
    && (r.exit.Stopped? && r.cycles >= 1 ==> !parseOk(StagedImage(eeprom, orig, r.cycles)))
  }

  /** A cycle from `k` that does not complete ends the loop with the staging file framed as before. */
  lemma StopImage(eeprom: seq<Byte>, orig: seq<Byte>, env: StageEnv, parseOk: seq<Byte> -> bool, k: nat)
    requires k <= MAX_RELOAD_FRU && FRUID_SIZE * k <= |eeprom|
    requires CopyCycle(eeprom, FRUID_SIZE * k, StagedImage(eeprom, orig, k), FRUID_SIZE * k,
                       env.read(k), env.write(k)).end != Copied
    ensures ImageFacts(eeprom, orig, From(eeprom, orig, env, parseOk, k))
  {
    var img := StagedImage(eeprom, orig, k);
    var c := CopyCycle(eeprom, FRUID_SIZE * k, img, FRUID_SIZE * k, env.read(k), env.write(k));
    assert From(eeprom, orig, env, parseOk, k).bin == Some(c.bin);
  }

  /** A full cycle from `k` that ends the loop leaves the image of `k + 1` cycles. */
  lemma LastImage(eeprom: seq<Byte>, orig: seq<Byte>, env: StageEnv, parseOk: seq<Byte> -> bool, k: nat)
    requires k <= MAX_RELOAD_FRU && FRUID_SIZE * k <= |eeprom|
    requires CopyCycle(eeprom, FRUID_SIZE * k, StagedImage(eeprom, orig, k), FRUID_SIZE * k,
                       env.read(k), env.write(k)).end == Copied
    requires parseOk(StagedImage(eeprom, orig, k + 1)) || k == MAX_RELOAD_FRU
    ensures FRUID_SIZE * (k + 1) <= |eeprom|
    ensures From(eeprom, orig, env, parseOk, k).cycles == k + 1
    ensures From(eeprom, orig, env, parseOk, k).bin == Some(StagedImage(eeprom, orig, k + 1))
  {
    StagedImageStep(eeprom, orig, k, env.read(k), env.write(k));
  }

  /** The staged image after the last cycle, whichever way that cycle ended. */
  lemma EndImage(eeprom: seq<Byte>, orig: seq<Byte>, env: StageEnv, parseOk: seq<Byte> -> bool, k: nat)
    requires k <= MAX_RELOAD_FRU && FRUID_SIZE * k <= |eeprom|
    requires !Continues(eeprom, orig, env, parseOk, k)
    ensures ImageFacts(eeprom, orig, From(eeprom, orig, env, parseOk, k))
  {
    var c := CopyCycle(eeprom, FRUID_SIZE * k, StagedImage(eeprom, orig, k), FRUID_SIZE * k, env.read(k), env.write(k));
    if c.end != Copied {
      StopImage(eeprom, orig, env, parseOk, k);
    } else {
      StagedImageStep(eeprom, orig, k, env.read(k), env.write(k));
      LastImage(eeprom, orig, env, parseOk, k);
    }
  }

  /**
    Descriptors are never rewound: the staging file starts with the EEPROM
    blocks of the completed cycles, and is exactly their image unless the
    last `write` was short.
   */
  lemma {:induction false} FromImage(eeprom: seq<Byte>, orig: seq<Byte>, env: StageEnv,
                                     parseOk: seq<Byte> -> bool, k: nat)
    requires k <= MAX_RELOAD_FRU && FRUID_SIZE * k <= |eeprom|
    ensures ImageFacts(eeprom, orig, From(eeprom, orig, env, parseOk, k))
    decreases MAX_RELOAD_FRU - k
  {
    if Continues(eeprom, orig, env, parseOk, k) {
      FromStep(eeprom, orig, env, parseOk, k);
      FromImage(eeprom, orig, env, parseOk, k + 1);
    } else {
      EndImage(eeprom, orig, env, parseOk, k);
    }
  }

  /** The parse facts after the last cycle, whichever way that cycle ended. */
  lemma EndParse(eeprom: seq<Byte>, orig: seq<Byte>, env: StageEnv, parseOk: seq<Byte> -> bool, k: nat)
    requires k <= MAX_RELOAD_FRU && FRUID_SIZE * k <= |eeprom|
    requires forall j :: 1 <= j <= k ==> !parseOk(StagedImage(eeprom, orig, j))
    requires !Continues(eeprom, orig, env, parseOk, k)
    ensures ParseFacts(eeprom, orig, parseOk, From(eeprom, orig, env, parseOk, k))
  {
    var c := CopyCycle(eeprom, FRUID_SIZE * k, StagedImage(eeprom, orig, k), FRUID_SIZE * k, env.read(k), env.write(k));
    if c.end == Copied {
      StagedImageStep(eeprom, orig, k, env.read(k), env.write(k));
      LastImage(eeprom, orig, env, parseOk, k);
    }
  }

  /** The loop re-parses after each full cycle and stops at the first image that parses. */
  lemma {:induction false} FromParse(eeprom: seq<Byte>, orig: seq<Byte>, env: StageEnv,
                                     parseOk: seq<Byte> -> bool, k: nat)
    requires k <= MAX_RELOAD_FRU && FRUID_SIZE * k <= |eeprom|
    requires forall j :: 1 <= j <= k ==> !parseOk(StagedImage(eeprom, orig, j))
    ensures ParseFacts(eeprom, orig, parseOk, From(eeprom, orig, env, parseOk, k))
    decreases MAX_RELOAD_FRU - k, 1
  {
    if Continues(eeprom, orig, env, parseOk, k) {
      FromStep(eeprom, orig, env, parseOk, k);
      ContinueParse(eeprom, orig, env, parseOk, k);
    } else {
      EndParse(eeprom, orig, env, parseOk, k);
    }
  }

  /** A cycle that continues the loop adds one more image that failed to parse. */
  lemma {:induction false} ContinueParse(eeprom: seq<Byte>, orig: seq<Byte>, env: StageEnv,
                                         parseOk: seq<Byte> -> bool, k: nat)
    requires k <= MAX_RELOAD_FRU && FRUID_SIZE * k <= |eeprom|
    requires forall j :: 1 <= j <= k ==> !parseOk(StagedImage(eeprom, orig, j))
    requires k + 1 <= MAX_RELOAD_FRU && FRUID_SIZE * (k + 1) <= |eeprom|
    requires !parseOk(StagedImage(eeprom, orig, k + 1))
    requires From(eeprom, orig, env, parseOk, k) == From(eeprom, orig, env, parseOk, k + 1)
    ensures ParseFacts(eeprom, orig, parseOk, From(eeprom, orig, env, parseOk, k))
    decreases MAX_RELOAD_FRU - k, 0
  {
    forall j | 1 <= j <= k + 1
      ensures !parseOk(StagedImage(eeprom, orig, j))
    {
      if j <= k {
        assert 1 <= j <= k;
      }
    }
    FromParse(eeprom, orig, env, parseOk, k + 1);
  }

  /** All of the above for a copy whose two opens succeeded. */
  lemma FromFacts(eeprom: seq<Byte>, orig: seq<Byte>, env: StageEnv, parseOk: seq<Byte> -> bool)
    ensures From(eeprom, orig, env, parseOk, 0) == Attempts(eeprom, env, parseOk, 0, 0, orig, 0)
    ensures ImageFacts(eeprom, orig, From(eeprom, orig, env, parseOk, 0))
    ensures ParseFacts(eeprom, orig, parseOk, From(eeprom, orig, env, parseOk, 0))
  {
    assert StagedImage(eeprom, orig, 0) == orig;
    FromImage(eeprom, orig, env, parseOk, 0);
    FromParse(eeprom, orig, env, parseOk, 0);
  }

  // ---------------------------------------------------------------------------
  // Properties of copy_eeprom_to_bin
  // ---------------------------------------------------------------------------

  /** At most MAX_RELOAD_FRU + 1 full read/write cycles, and exactly that many when the image never parses. */
  lemma CopyAtMostFourCycles(eeprom: seq<Byte>, binFile: Option<seq<Byte>>, env: StageEnv, parseOk: seq<Byte> -> bool)
    ensures var r := CopyEepromToBin(eeprom, binFile, env, parseOk);
            && r.cycles <= MAX_RELOAD_FRU + 1
            && (r.exit == RetriesExhausted ==> r.cycles == MAX_RELOAD_FRU + 1)
  {
    if env.eepromOpen == Opens && env.binOpen == Opens {
      FromFacts(eeprom, Existing(binFile), env, parseOk);
    }
  }

  /**
    The loop stops as soon as the staged image parses: every earlier image
    failed to parse, and a `Parsed` exit means the final one parsed.
   */
  lemma CopyStopsAtFirstParse(eeprom: seq<Byte>, binFile: Option<seq<Byte>>, env: StageEnv, parseOk: seq<Byte> -> bool)
    ensures var r := CopyEepromToBin(eeprom, binFile, env, parseOk);
            && FRUID_SIZE * r.cycles <= |eeprom|
            && (forall j :: 1 <= j < r.cycles ==> !parseOk(StagedImage(eeprom, Existing(binFile), j)))
            && (r.exit == Parsed ==> r.bin == Some(StagedImage(eeprom, Existing(binFile), r.cycles))
                                     && parseOk(r.bin.value))
  {
    if env.eepromOpen == Opens && env.binOpen == Opens {
      FromFacts(eeprom, Existing(binFile), env, parseOk);
    }
  }

  /**
    Neither descriptor is rewound: after `cycles` full cycles the staging
    file starts with the first `cycles` EEPROM blocks, block `k` landing at
    offset FRUID_SIZE * k, and the rest of the old file is kept.
   */
  lemma CopyNeverRewinds(eeprom: seq<Byte>, binFile: Option<seq<Byte>>, env: StageEnv, parseOk: seq<Byte> -> bool)
    requires env.eepromOpen == Opens && env.binOpen == Opens
    ensures var r := CopyEepromToBin(eeprom, binFile, env, parseOk);
            && r.bin.Some?
            && FRUID_SIZE * r.cycles <= |eeprom|
            && |r.bin.value| >= FRUID_SIZE * r.cycles
            && r.bin.value[..FRUID_SIZE * r.cycles] == eeprom[..FRUID_SIZE * r.cycles]
            && (r.exit != Stopped(ShortWrite) ==> r.bin.value == StagedImage(eeprom, Existing(binFile), r.cycles))
  {
    FromFacts(eeprom, Existing(binFile), env, parseOk);
  }

  /**
    A failing or short read leaves the loop before anything is written in
    that cycle; a short read sets no `errno` of its own, so it returns 0 in
    the first cycle and whatever the last `fruid_parse` left in a later one.
   */
  lemma CopyShortReadWritesNothing(eeprom: seq<Byte>, binFile: Option<seq<Byte>>, env: StageEnv, parseOk: seq<Byte> -> bool)
    ensures var r := CopyEepromToBin(eeprom, binFile, env, parseOk);
            (r.exit == Stopped(ShortRead) || (r.exit.Stopped? && r.exit.end.ReadError?)) ==>
              FRUID_SIZE * r.cycles <= |eeprom|
              && r.bin == Some(StagedImage(eeprom, Existing(binFile), r.cycles))
              && (r.exit == Stopped(ShortRead) ==>
                    r.ret == ErrnoBefore(env, r.cycles) && |eeprom| < FRUID_SIZE * (r.cycles + 1))
              && (r.exit == Stopped(ShortRead) && r.cycles == 0 ==> r.ret == 0)
              && (r.exit.end.ReadError? ==> env.read(r.cycles) == ReadFails(r.ret))
  {
    if env.eepromOpen == Opens && env.binOpen == Opens {
      FromFacts(eeprom, Existing(binFile), env, parseOk);
    }
  }

  /**
    The return value is `errno`: the failing call's errno for an open, read
    or write failure; the errno the last `fruid_parse` left when the loop
    ends on a parse or on the retry budget; and for a short read or short
    write, which set none, 0 in the first cycle and the previous parse's
    errno in a later one.  Running out of retries therefore reports failure
    only when that parse happened to set `errno`.
   */
  lemma CopyReturnsErrno(eeprom: seq<Byte>, binFile: Option<seq<Byte>>, env: StageEnv, parseOk: seq<Byte> -> bool)
    ensures var r := CopyEepromToBin(eeprom, binFile, env, parseOk);
            && (r.exit == EepromOpenFailed ==> r.ret == env.eepromOpen.errno)
            && (r.exit == BinOpenFailed ==> r.ret == env.binOpen.errno)
            && (r.exit == Parsed || r.exit == RetriesExhausted ==> r.ret == env.parseErrno(r.cycles - 1))
            && (r.exit == Stopped(ShortRead) || r.exit == Stopped(ShortWrite) ==>
                  r.ret == (if r.cycles == 0 then 0 else env.parseErrno(r.cycles - 1)))
            && (r.exit.Stopped? && r.exit.end.ReadError? ==> env.read(r.cycles) == ReadFails(r.ret))
            && (r.exit.Stopped? && r.exit.end.WriteError? ==> env.write(r.cycles) == WriteFails(r.ret))
  {
    if env.eepromOpen == Opens && env.binOpen == Opens {
      FromFacts(eeprom, Existing(binFile), env, parseOk);
    }
  }

  /**
    With every system call succeeding and a long enough EEPROM, an image that
    first parses after `p` cycles (p <= 4) ends the copy there, returning
    the errno that parse left.
   */
  lemma CopyParsesAfter(eeprom: seq<Byte>, binFile: Option<seq<Byte>>, env: StageEnv,
                        parseOk: seq<Byte> -> bool, p: nat)
    requires env.eepromOpen == Opens && env.binOpen == Opens
    requires forall k :: env.read(k) == ReadOk && env.write(k) == Wrote(FRUID_SIZE)
    requires 1 <= p <= MAX_RELOAD_FRU + 1 && FRUID_SIZE * p <= |eeprom|
    requires forall j :: 1 <= j < p ==> !parseOk(StagedImage(eeprom, Existing(binFile), j))
    requires parseOk(StagedImage(eeprom, Existing(binFile), p))
    ensures var r := CopyEepromToBin(eeprom, binFile, env, parseOk);
            r.exit == Parsed && r.cycles == p && r.ret == env.parseErrno(p - 1)
  {
    var orig := Existing(binFile);
    FromFacts(eeprom, orig, env, parseOk);
    var r := From(eeprom, orig, env, parseOk, 0);
    assert ParseFacts(eeprom, orig, parseOk, r);
    // every call succeeds in full, so only the EEPROM running out could stop a cycle
    assert env.read(r.cycles) == ReadOk && env.write(r.cycles) == Wrote(FRUID_SIZE);
    assert r.exit.Stopped? ==> r.exit == Stopped(ShortRead) && r.cycles >= p;
    assert r.exit == RetriesExhausted ==> p == r.cycles || 1 <= p < r.cycles;
    assert r.exit == Parsed ==> r.cycles == p || 1 <= r.cycles < p || 1 <= p < r.cycles;
  }

  // ---------------------------------------------------------------------------
  // plat_fruid_init / plat_fruid_size / plat_fruid_data
  // ---------------------------------------------------------------------------

  const MB_BIN: string := "/tmp/fruid_mb.bin"
  const MB_EEPROM: string := "/sys/class/i2c-dev/i2c-6/device/6-0054/eeprom"
  const PDB_BIN: string := "/tmp/fruid_pdb.bin"
  const PDB_EEPROM: string := "/sys/class/i2c-dev/i2c-5/device/5-0054/eeprom"
  const BSM_BIN: string := "/tmp/fruid_bsm.bin"
  const BSM_EEPROM: string := "/sys/class/i2c-dev/i2c-23/device/23-0056/eeprom"
  const AVA1_BIN: string := "/tmp/fruid_ava1.bin"
  const AVA1_EEPROM: string := "/sys/class/i2c-dev/i2c-21/device/21-0050/eeprom"
  const AVA2_BIN: string := "/tmp/fruid_ava2.bin"
  const AVA2_EEPROM: string := "/sys/class/i2c-dev/i2c-22/device/22-0050/eeprom"
  const E1S1_BIN: string := "/tmp/fruid_e1s1.bin"
  const E1S1_EEPROM: string := "/sys/class/i2c-dev/i2c-21/device/21-0050/eeprom"
  const E1S2_BIN: string := "/tmp/fruid_e1s2.bin"
  const E1S2_EEPROM: string := "/sys/class/i2c-dev/i2c-22/device/22-0050/eeprom"
  const FIO_EEPROM: string := "/sys/class/i2c-dev/i2c-8/device/8-0051/eeprom"
  const FIO_BIN: string := "/tmp/fruid_fio.bin"

  /** An EEPROM and the staging file it is copied to. */
  datatype Source = Source(eeprom: string, bin: string)

  /** The eight copies `plat_fruid_init` makes, in order. */
  const SOURCES: seq<Source> := [
    Source(MB_EEPROM, MB_BIN), Source(PDB_EEPROM, PDB_BIN), Source(BSM_EEPROM, BSM_BIN),
    Source(AVA1_EEPROM, AVA1_BIN), Source(AVA2_EEPROM, AVA2_BIN),
    Source(E1S1_EEPROM, E1S1_BIN), Source(E1S2_EEPROM, E1S2_BIN), Source(FIO_EEPROM, FIO_BIN)]

  /** EEPROM contents by sysfs path; a path that is absent reads as empty. */
  function EepromContent(eeproms: map<string, seq<Byte>>, path: string): seq<Byte> {
    if path in eeproms then eeproms[path] else []
  }

  /**
    The copy `plat_fruid_init` makes of the `k`th source onto a staging file
    holding `f`, with that copy's own system-call outcomes `envs(k)`.
   */
  function CopySource(eeproms: map<string, seq<Byte>>, envs: nat -> StageEnv, parseOk: seq<Byte> -> bool)
    : (Source, nat, Option<seq<Byte>>) -> Staged
  {
    (s: Source, k: nat, f: Option<seq<Byte>>) => CopyEepromToBin(EepromContent(eeproms, s.eeprom), f, envs(k), parseOk)
  }

  /** The copies of `srcs[i..]` in turn, each onto the files the copies before it left. */
  function CopyAll(srcs: seq<Source>, i: nat, fs: Files, copy: (Source, nat, Option<seq<Byte>>) -> Staged)
    : (r: (seq<Staged>, Files))
    requires i <= |srcs|
    ensures |r.0| == |srcs| - i
    decreases |srcs| - i
  {
    if i == |srcs| then ([], fs)
    else
      var s := srcs[i];
      var one := copy(s, i, Lookup(fs, s.bin));
      var rest := CopyAll(srcs, i + 1, Store(fs, s.bin, one), copy);
      ([one] + rest.0, rest.1)
  }

  /**
    `plat_fruid_init`: all eight copies, whatever the earlier ones returned;
    the result is always 0.
   */
  function FruidInit(eeproms: map<string, seq<Byte>>, fs: Files, envs: nat -> StageEnv,
                     parseOk: seq<Byte> -> bool): (r: (int, seq<Staged>, Files))
    ensures r.0 == 0
    ensures |r.1| == |SOURCES|
  {
    var all := CopyAll(SOURCES, 0, fs, CopySource(eeproms, envs, parseOk));
    (0, all.0, all.1)
  }

  predicate DistinctBins(srcs: seq<Source>) {
    forall i, j :: 0 <= i < j < |srcs| ==> srcs[i].bin != srcs[j].bin
  }

  /**
    Each copy of a list with distinct staging files sees that file as it was
    before the list started, and the file afterwards holds that copy's result.
   */
  lemma {:induction false} CopyAllIndependent(srcs: seq<Source>, i: nat, fs: Files,
                                              copy: (Source, nat, Option<seq<Byte>>) -> Staged)
    requires i <= |srcs| && DistinctBins(srcs)
    ensures var r := CopyAll(srcs, i, fs, copy);
            forall k :: i <= k < |srcs| ==>
              && r.0[k - i] == copy(srcs[k], k, Lookup(fs, srcs[k].bin))
              && (r.0[k - i].bin.Some? ==> srcs[k].bin in r.1 && r.1[srcs[k].bin] == r.0[k - i].bin.value)
              && (r.0[k - i].bin.None? ==> Lookup(r.1, srcs[k].bin) == Lookup(fs, srcs[k].bin))
    decreases |srcs| - i
  {
    if i < |srcs| {
      var s := srcs[i];
      var fs1 := Store(fs, s.bin, copy(s, i, Lookup(fs, s.bin)));
      CopyAllIndependent(srcs, i + 1, fs1, copy);
      CopyAllKeeps(srcs, i + 1, fs1, copy, s.bin);
      forall k | i + 1 <= k < |srcs|
        ensures Lookup(fs1, srcs[k].bin) == Lookup(fs, srcs[k].bin)
      {
        assert srcs[k].bin != s.bin;
      }
    }
  }

  /** A file that is not a staging file of `srcs[i..]` is left alone. */
  lemma {:induction false} CopyAllKeeps(srcs: seq<Source>, i: nat, fs: Files,
                                        copy: (Source, nat, Option<seq<Byte>>) -> Staged, path: string)
    requires i <= |srcs|
    requires forall k :: i <= k < |srcs| ==> srcs[k].bin != path
    ensures Lookup(CopyAll(srcs, i, fs, copy).1, path) == Lookup(fs, path)
    decreases |srcs| - i
  {
    if i < |srcs| {
      var s := srcs[i];
      CopyAllKeeps(srcs, i + 1, Store(fs, s.bin, copy(s, i, Lookup(fs, s.bin))), copy, path);
    }
  }

  /**
    `plat_fruid_init` attempts every source independently: copy `k` is the
    copy of source `k` on the files as they were before init, whatever the
    other copies did, and its staging file ends up holding its result.
   */
  lemma InitAttemptsEverySource(eeproms: map<string, seq<Byte>>, fs: Files, envs: nat -> StageEnv,
                                parseOk: seq<Byte> -> bool)
    ensures var r := FruidInit(eeproms, fs, envs, parseOk);
            forall k :: 0 <= k < |SOURCES| ==>
              && r.1[k] == CopyEepromToBin(EepromContent(eeproms, SOURCES[k].eeprom), Lookup(fs, SOURCES[k].bin),
                                           envs(k), parseOk)
              && (r.1[k].bin.Some? ==> Lookup(r.2, SOURCES[k].bin) == r.1[k].bin)
  {
    assert DistinctBins(SOURCES);
    CopyAllIndependent(SOURCES, 0, fs, CopySource(eeproms, envs, parseOk));
  }

  /** `plat_fruid_size`: the MB staging file's size whatever the payload, 0 when it is missing. */
  function FruidSize(fs: Files, payloadId: Byte): (n: nat)
    ensures MB_BIN in fs ==> n == |fs[MB_BIN]|
    ensures MB_BIN !in fs ==> n == 0
  {
    FileSize(fs, MB_BIN)
  }

  /** The FRU ids of pal.h (1-based); IPMI asks with `id - 1`. */
  datatype FruIds = FruIds(mb: int, pdb: int, bsm: int, carrier1: int, carrier2: int, fio: int)

  /**
    The staging file `plat_fruid_data` serves `fruId` from, by the first
    matching id; `carrierIsM2(i)` stands for `pal_check_carrier_type(i) == M2`.
   */
  function FruFile(ids: FruIds, carrierIsM2: nat -> bool, fruId: int): (p: Option<string>)
    ensures p.None? <==> fruId !in {ids.mb - 1, ids.pdb - 1, ids.bsm - 1, ids.carrier1 - 1, ids.carrier2 - 1, ids.fio - 1}
    // forward, by the first matching id
    ensures fruId == ids.mb - 1 ==> p == Some(MB_BIN)
    ensures fruId == ids.pdb - 1 && fruId != ids.mb - 1 ==> p == Some(PDB_BIN)
    ensures fruId == ids.bsm - 1 && fruId !in {ids.mb - 1, ids.pdb - 1} ==> p == Some(BSM_BIN)
    ensures fruId == ids.carrier1 - 1 && fruId !in {ids.mb - 1, ids.pdb - 1, ids.bsm - 1} && carrierIsM2(0) ==>
              p == Some(AVA1_BIN)
    ensures fruId == ids.carrier1 - 1 && fruId !in {ids.mb - 1, ids.pdb - 1, ids.bsm - 1} && !carrierIsM2(0) ==>
              p == Some(E1S1_BIN)
    ensures fruId == ids.carrier2 - 1 && fruId !in {ids.mb - 1, ids.pdb - 1, ids.bsm - 1, ids.carrier1 - 1} && carrierIsM2(1) ==>
              p == Some(AVA2_BIN)
    ensures fruId == ids.carrier2 - 1 && fruId !in {ids.mb - 1, ids.pdb - 1, ids.bsm - 1, ids.carrier1 - 1} && !carrierIsM2(1) ==>
              p == Some(E1S2_BIN)
    ensures fruId == ids.fio - 1 && fruId !in {ids.mb - 1, ids.pdb - 1, ids.bsm - 1, ids.carrier1 - 1, ids.carrier2 - 1} ==>
              p == Some(FIO_BIN)
    // backward: which id and which carrier type each carrier file answers
    ensures p == Some(AVA1_BIN) || p == Some(E1S1_BIN) ==> fruId == ids.carrier1 - 1
    ensures p == Some(AVA2_BIN) || p == Some(E1S2_BIN) ==> fruId == ids.carrier2 - 1
    ensures p == Some(AVA1_BIN) ==> carrierIsM2(0)
    ensures p == Some(E1S1_BIN) ==> !carrierIsM2(0)
    ensures p == Some(AVA2_BIN) ==> carrierIsM2(1)
    ensures p == Some(E1S2_BIN) ==> !carrierIsM2(1)
  {
    if fruId == ids.mb - 1 then Some(MB_BIN)
    else if fruId == ids.pdb - 1 then Some(PDB_BIN)
    else if fruId == ids.bsm - 1 then Some(BSM_BIN)
    else if fruId == ids.carrier1 - 1 then Some(if carrierIsM2(0) then AVA1_BIN else E1S1_BIN)
    else if fruId == ids.carrier2 - 1 then Some(if carrierIsM2(1) then AVA2_BIN else E1S2_BIN)
    else if fruId == ids.fio - 1 then Some(FIO_BIN)
    else None
  }

  /**
    `plat_fruid_data`: 0 with `count` bytes from `offset` of the staged file,
    else -1; a `count` of -1 reports 0 with no data, as `ReadFile` explains.
   */
  function FruidData(fs: Files, ids: FruIds, carrierIsM2: nat -> bool, payloadId: Byte,
                     fruId: int, offset: int, count: int): (r: (int, seq<Byte>))
    ensures FruFile(ids, carrierIsM2, fruId).None? ==> r == (-1, [])
    ensures r.0 == 0 || r.0 == -1
    ensures FruFile(ids, carrierIsM2, fruId).Some? ==> r == ReadFile(fs, FruFile(ids, carrierIsM2, fruId).value, offset, count)
    ensures r.0 == 0 && count >= 0 ==> |r.1| == count
    ensures r.0 == 0 && count > 0 ==> r.1 == fs[FruFile(ids, carrierIsM2, fruId).value][offset..offset + count]
    ensures r.0 != 0 || count == -1 ==> r.1 == []
    ensures r.0 == 0 <==> var p := FruFile(ids, carrierIsM2, fruId);
                          p.Some? && p.value in fs && 0 <= offset
                          && (count == -1 || (0 <= count && (count == 0 || offset + count <= |fs[p.value]|)))
  {
    match FruFile(ids, carrierIsM2, fruId)
    case None => (-1, [])
    case Some(path) => ReadFile(fs, path, offset, count)
  }

  /**
    After an init whose MB copy completed at least one full cycle, reading
    the first FRUID_SIZE bytes of the MB FRU gives the first EEPROM block.
   */
  lemma InitThenReadMb(eeproms: map<string, seq<Byte>>, fs: Files, envs: nat -> StageEnv,
                       parseOk: seq<Byte> -> bool, ids: FruIds, carrierIsM2: nat -> bool)
    requires envs(0).eepromOpen == Opens && envs(0).binOpen == Opens
    requires FruidInit(eeproms, fs, envs, parseOk).1[0].cycles >= 1
    ensures var after := FruidInit(eeproms, fs, envs, parseOk).2;
            FruidData(after, ids, carrierIsM2, 0, ids.mb - 1, 0, FRUID_SIZE as int)
            == (0, EepromContent(eeproms, MB_EEPROM)[..FRUID_SIZE])
  {
    var r := FruidInit(eeproms, fs, envs, parseOk);
    InitAttemptsEverySource(eeproms, fs, envs, parseOk);
    var mb := EepromContent(eeproms, MB_EEPROM);
    CopyNeverRewinds(mb, Lookup(fs, MB_BIN), envs(0), parseOk);
    var staged := r.1[0].bin.value;
    assert Lookup(r.2, MB_BIN) == Some(staged);
    assert staged[..FRUID_SIZE * r.1[0].cycles] == mb[..FRUID_SIZE * r.1[0].cycles];
    assert staged[..FRUID_SIZE] == staged[..FRUID_SIZE * r.1[0].cycles][..FRUID_SIZE];
    assert mb[..FRUID_SIZE] == mb[..FRUID_SIZE * r.1[0].cycles][..FRUID_SIZE];
    assert staged[0..FRUID_SIZE] == staged[..FRUID_SIZE];
  }
}

/**
  fbep FRU staging (ipmid fruid.c): the same EEPROM-to-/tmp copy as
  clearcreek but with a single read/write attempt and no parse, for the MB,
  PDB and BSM FRUs only.
 */
module FbepFruid {
  import opened Common
  import opened Staging
  import ClearcreekFruid

  /**
    `copy_eeprom_to_bin`: one `read` of FRUID_SIZE bytes and, when all of them
    came back, one `write`.  The result is `errno`, 0 unless a call failed.
   */
  function CopyEepromToBin(eeprom: seq<Byte>, binFile: Option<seq<Byte>>, env: StageEnv): (r: Staged)
    ensures r.exit == EepromOpenFailed <==> env.eepromOpen.OpenFails?
    ensures r.exit == BinOpenFailed <==> env.eepromOpen == Opens && env.binOpen.OpenFails?
    ensures r.exit.EepromOpenFailed? || r.exit.BinOpenFailed? ==> r.bin == binFile && r.cycles == 0
    ensures r.exit == EepromOpenFailed ==> r.ret == env.eepromOpen.errno
    ensures r.exit == BinOpenFailed ==> r.ret == env.binOpen.errno
    ensures r.exit != Parsed && r.exit != RetriesExhausted
    ensures r.cycles <= 1
    ensures r.exit == Stopped(Copied) <==> r.cycles == 1
    ensures r.exit == Stopped(Copied) ==>
              FRUID_SIZE <= |eeprom| && r.ret == 0 && r.bin == Some(StagedImage(eeprom, Existing(binFile), 1))
    ensures r.exit == Stopped(ShortRead) || (r.exit.Stopped? && r.exit.end.ReadError?) ==>
              r.bin == Some(Existing(binFile))
    ensures r.exit == Stopped(ShortRead) ==> r.ret == 0 && |eeprom| < FRUID_SIZE
  {
    if env.eepromOpen.OpenFails? then Staged(env.eepromOpen.errno, EepromOpenFailed, binFile, 0, 0, 0)
    else if env.binOpen.OpenFails? then Staged(env.binOpen.errno, BinOpenFailed, binFile, 0, 0, 0)
    else
      var orig := Existing(binFile);
      assert StagedImage(eeprom, orig, 0) == orig;
      var c := CopyCycle(eeprom, 0, orig, 0, env.read(0), env.write(0));
      if c.end == Copied then
        StagedImageStep(eeprom, orig, 0, env.read(0), env.write(0));
        Staged(0, Stopped(Copied), Some(c.bin), 1, c.rpos, c.wpos)
      else Staged(CycleErrno(c.end, 0), Stopped(c.end), Some(c.bin), 0, c.rpos, c.wpos)
  }

  /**
    The single attempt is the first cycle of clearcreek's retry loop: when the
    first staged image parses, both copies leave the same file and offsets
    and differ only in how they name the exit and, after a full copy, in
    `errno`: 0 here, whatever the parse left there.
   */
  lemma SingleAttemptIsFirstRetryCycle(eeprom: seq<Byte>, binFile: Option<seq<Byte>>, env: StageEnv,
                                       parseOk: seq<Byte> -> bool)
    requires forall b :: parseOk(b)
    ensures var one := CopyEepromToBin(eeprom, binFile, env);
            var loop := ClearcreekFruid.CopyEepromToBin(eeprom, binFile, env, parseOk);
            && one.bin == loop.bin && one.cycles == loop.cycles
            && one.rpos == loop.rpos && one.wpos == loop.wpos
            && (one.exit == Stopped(Copied) <==> loop.exit == Parsed)
            && (one.exit != Stopped(Copied) ==> one.exit == loop.exit && one.ret == loop.ret)
            && (one.exit == Stopped(Copied) ==> one.ret == 0 && loop.ret == env.parseErrno(0))
  {
  }

  /** The staging and EEPROM paths of fruid.h; the BSM EEPROM path comes from `pal_get_fruid_eeprom_path`. */
  datatype Paths = Paths(mbEeprom: string, mbBin: string, pdbEeprom: string, pdbBin: string,
                         bsmEeprom: string, bsmBin: string)

  /**
    `plat_fruid_init`: the MB, PDB and BSM copies in that order, each whatever
    the previous returned; the result is always 0.  Copy `i` uses `envs(i)`.
   */
  function FruidInit(paths: Paths, eeproms: map<string, seq<Byte>>, fs: Files,
                     envs: nat -> StageEnv): (r: (int, seq<Staged>, Files))
    ensures r.0 == 0 && |r.1| == 3
  {
    var mb := CopyEepromToBin(ClearcreekFruid.EepromContent(eeproms, paths.mbEeprom), Lookup(fs, paths.mbBin), envs(0));
    var fs1 := Store(fs, paths.mbBin, mb);
    var pdb := CopyEepromToBin(ClearcreekFruid.EepromContent(eeproms, paths.pdbEeprom), Lookup(fs1, paths.pdbBin), envs(1));
    var fs2 := Store(fs1, paths.pdbBin, pdb);
    var bsm := CopyEepromToBin(ClearcreekFruid.EepromContent(eeproms, paths.bsmEeprom), Lookup(fs2, paths.bsmBin), envs(2));
    (0, [mb, pdb, bsm], Store(fs2, paths.bsmBin, bsm))
  }

  /**
    With three distinct staging files, each copy sees its file as it was
    before init, so an earlier failure never stops or changes a later copy.
   */
  lemma InitCopiesIndependently(paths: Paths, eeproms: map<string, seq<Byte>>, fs: Files, envs: nat -> StageEnv)
    requires paths.mbBin != paths.pdbBin && paths.mbBin != paths.bsmBin && paths.pdbBin != paths.bsmBin
    ensures var r := FruidInit(paths, eeproms, fs, envs);
            && r.1[0] == CopyEepromToBin(ClearcreekFruid.EepromContent(eeproms, paths.mbEeprom), Lookup(fs, paths.mbBin), envs(0))
            && r.1[1] == CopyEepromToBin(ClearcreekFruid.EepromContent(eeproms, paths.pdbEeprom), Lookup(fs, paths.pdbBin), envs(1))
            && r.1[2] == CopyEepromToBin(ClearcreekFruid.EepromContent(eeproms, paths.bsmEeprom), Lookup(fs, paths.bsmBin), envs(2))
            && (r.1[2].bin.Some? ==> Lookup(r.2, paths.bsmBin) == r.1[2].bin)
  {
  }

  /** `plat_fruid_size`: the MB staging file's size whatever the payload, 0 when it is missing. */
  function FruidSize(paths: Paths, fs: Files, payloadId: Byte): (n: nat)
    ensures paths.mbBin in fs ==> n == |fs[paths.mbBin]|
    ensures paths.mbBin !in fs ==> n == 0
  {
    FileSize(fs, paths.mbBin)
  }

  /** The FRU ids of pal.h (1-based); IPMI asks with `id - 1`. */
  datatype FruIds = FruIds(mb: int, pdb: int, bsm: int)

  /**
    `plat_fruid_data`: only the MB, PDB and BSM ids are served; 0 only when
    `count` bytes are read, or for a `count` of -1 (see `ReadFile`).
   */
  function FruidData(paths: Paths, fs: Files, ids: FruIds, payloadId: Byte,
                     fruId: int, offset: int, count: int): (r: (int, seq<Byte>))
    ensures fruId !in {ids.mb - 1, ids.pdb - 1, ids.bsm - 1} ==> r == (-1, [])
    ensures r.0 == 0 || r.0 == -1
    ensures r.0 == 0 ==> 0 <= offset && (|r.1| == count || (count == -1 && r.1 == []))
    ensures fruId == ids.mb - 1 ==> r == ReadFile(fs, paths.mbBin, offset, count)
    ensures fruId == ids.pdb - 1 && fruId != ids.mb - 1 ==> r == ReadFile(fs, paths.pdbBin, offset, count)
    ensures fruId == ids.bsm - 1 && fruId !in {ids.mb - 1, ids.pdb - 1} ==> r == ReadFile(fs, paths.bsmBin, offset, count)
    ensures fruId == ids.mb - 1 && paths.mbBin in fs && 0 <= offset && 0 < count && offset + count <= |fs[paths.mbBin]|
            ==> r == (0, fs[paths.mbBin][offset..offset + count])
    ensures fruId == ids.mb - 1 && 0 < count && (paths.mbBin !in fs || offset + count > |fs[paths.mbBin]|)
            ==> r.0 == -1
  {
    var path :=
      if fruId == ids.mb - 1 then Some(paths.mbBin)
      else if fruId == ids.pdb - 1 then Some(paths.pdbBin)
      else if fruId == ids.bsm - 1 then Some(paths.bsmBin)
      else None;
    match path
    case None => (-1, [])
    case Some(p) => ReadFile(fs, p, offset, count)
  }
}

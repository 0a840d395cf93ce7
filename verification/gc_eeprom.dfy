/**
  grandcanyon FRU staging (`pal_copy_eeprom_to_bin` in pal.c): one
  read/write cycle from the EEPROM into the staging file, like fbep's copy,
  but with NULL paths refused and every failure reported as -1 instead of
  `errno`.
 */
module GcEeprom {
  import opened Common
  import opened Staging
  import FbepFruid

  /** What a call did: refused a NULL path before opening anything, or ran the copy. */
  datatype Outcome = Refused | Ran(copy: Staged)

  /** The return value: -1 for a refused call. */
  function Ret(o: Outcome): int {
    if o.Refused? then -1 else o.copy.ret
  }

  /**
    `pal_copy_eeprom_to_bin(eeprom_file, bin_file)`: a NULL path (`None`)
    returns -1 before anything is opened; otherwise the EEPROM and the
    staging file are opened and one block is read and, when a whole block
    came back, written.  0 only when the block was written in full.
   */
  function CopyEepromToBin(eepromPath: Option<string>, binPath: Option<string>,
                           eeprom: seq<Byte>, binFile: Option<seq<Byte>>, env: StageEnv): (o: Outcome)
    ensures Ret(o) == 0 || Ret(o) == -1
    ensures o.Refused? <==> eepromPath.None? || binPath.None?
    ensures o.Ran? ==> (o.copy.exit == EepromOpenFailed <==> env.eepromOpen.OpenFails?)
    ensures o.Ran? ==> (o.copy.exit == BinOpenFailed <==> env.eepromOpen == Opens && env.binOpen.OpenFails?)
    ensures o.Ran? && (o.copy.exit.EepromOpenFailed? || o.copy.exit.BinOpenFailed?) ==>
              o.copy.bin == binFile && o.copy.cycles == 0
    ensures Ret(o) == 0 <==> o.Ran? && o.copy.exit == Stopped(Copied)
    ensures Ret(o) == 0 <==>
              && eepromPath.Some? && binPath.Some? && env.eepromOpen == Opens && env.binOpen == Opens
              && env.read(0) == ReadOk && FRUID_SIZE <= |eeprom|
              && env.write(0).Wrote? && env.write(0).count >= FRUID_SIZE
    ensures Ret(o) == 0 ==> o.copy.cycles == 1 && o.copy.bin == Some(StagedImage(eeprom, Existing(binFile), 1))
    ensures o.Ran? && (o.copy.exit == Stopped(ShortRead) || (o.copy.exit.Stopped? && o.copy.exit.end.ReadError?)) ==>
              o.copy.bin == Some(Existing(binFile))
  {
    if eepromPath.None? || binPath.None? then Refused
    else if env.eepromOpen.OpenFails? then Ran(Staged(-1, EepromOpenFailed, binFile, 0, 0, 0))
    else if env.binOpen.OpenFails? then Ran(Staged(-1, BinOpenFailed, binFile, 0, 0, 0))
    else
      var orig := Existing(binFile);
      assert StagedImage(eeprom, orig, 0) == orig;
      var c := CopyCycle(eeprom, 0, orig, 0, env.read(0), env.write(0));
      if c.end == Copied then
        StagedImageStep(eeprom, orig, 0, env.read(0), env.write(0));
        Ran(Staged(0, Stopped(Copied), Some(c.bin), 1, c.rpos, c.wpos))
      else Ran(Staged(-1, Stopped(c.end), Some(c.bin), 0, c.rpos, c.wpos))
  }

  /**
    With both paths given, the grandcanyon copy does exactly what fbep's
    does to the files and descriptors; only the return value differs: 0 or
    -1 here, `errno` there.
   */
  lemma SameCopyAsFbep(eepromPath: string, binPath: string,
                       eeprom: seq<Byte>, binFile: Option<seq<Byte>>, env: StageEnv)
    ensures CopyEepromToBin(Some(eepromPath), Some(binPath), eeprom, binFile, env).Ran?
    ensures var gc := CopyEepromToBin(Some(eepromPath), Some(binPath), eeprom, binFile, env).copy;
            var fb := FbepFruid.CopyEepromToBin(eeprom, binFile, env);
            && gc.exit == fb.exit && gc.bin == fb.bin && gc.cycles == fb.cycles
            && gc.rpos == fb.rpos && gc.wpos == fb.wpos
            && (gc.ret == 0 <==> fb.exit == Stopped(Copied))
  {
  }

  /**
    A short write is an error here but not in fbep's copy, whose `errno`
    stays 0 when `write` merely writes less than asked.
   */
  lemma ShortWriteReported(eepromPath: string, binPath: string,
                           eeprom: seq<Byte>, binFile: Option<seq<Byte>>, env: StageEnv)
    requires env.eepromOpen == Opens && env.binOpen == Opens && env.read(0) == ReadOk
    requires FRUID_SIZE <= |eeprom|
    requires env.write(0).Wrote? && env.write(0).count < FRUID_SIZE
    ensures Ret(CopyEepromToBin(Some(eepromPath), Some(binPath), eeprom, binFile, env)) == -1
    ensures FbepFruid.CopyEepromToBin(eeprom, binFile, env).ret == 0
    ensures FbepFruid.CopyEepromToBin(eeprom, binFile, env).exit == Stopped(ShortWrite)
  {
  }
}

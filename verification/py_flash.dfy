/**
  pypartition's `flash` (system.py): the size, concurrent-flasher and
  platform checks before writing, the image with the device's read-only
  head spliced in when the device has one, and the bounded retries of the
  write command.

  Whether another flasher runs, the platform check, the device's and the
  image's contents and whether each run of the command succeeds are inputs.
  The device's file name comes from virtualcat.py, which is not part of this
  model, and is a parameter.
 */
module PyFlash {
  import opened Common
  import PyMtd

  /** The command `flash` runs: `flashcp <image> <device>`, or `dd if=<image> of=/dev/null` for a dry run. */
  datatype Command = Flashcp(source: string, target: string) | DdToNull(source: string)

  /** How `flash` ends: `sys.exit(code)`, or after running the command `runs` times. */
  datatype FlashOutcome =
    | FlashExited(code: int)
    | Flashed(command: Command, runs: nat, succeeded: bool, written: Option<seq<Byte>>, removed: Option<string>)

  /** The inputs of one `flash` call. */
  datatype FlashEnv = FlashEnv(
    otherFlasher: bool,          // `other_flasher_running`
    compatible: bool,            // `image_file_compatible`
    deviceData: seq<Byte>,       // the MTD's current contents
    run: nat -> bool)            // whether run number k of the command succeeds

  /** `min(n, |s|)`: what `read(n)` returns at most. */
  function Cap(n: nat, s: seq<Byte>): (c: nat)
    ensures c <= |s| && c <= n
    ensures c == n || c == |s|
  {
    if n <= |s| then n else |s|
  }

  /**
    The `.tmp` image written when the device has a read-only head of
    `offset` KiB: that many bytes from the device, then the image from the
    same position on.
   */
  function SpliceHead(offset: nat, device: seq<Byte>, image: seq<Byte>): (t: seq<Byte>)
    ensures StartsWith(t, device[..Cap(offset * 1024, device)])
    ensures t[Cap(offset * 1024, device)..] == image[Cap(offset * 1024, image)..]
  {
    var head := device[..Cap(offset * 1024, device)];
    var t := head + image[Cap(offset * 1024, image)..];
    assert t[..|head|] == head;
    t
  }

  /**
    The retry loop: run the command up to `attempts` times, stopping at the
    first success.  Returns the number of runs and whether the last one
    succeeded.
   */
  method Retry(attempts: nat, run: nat -> bool) returns (runs: nat, ok: bool)
    requires attempts >= 1
    ensures 1 <= runs <= attempts
    ensures forall k :: 0 <= k < runs - 1 ==> !run(k)
    ensures ok <==> run(runs - 1)
    ensures !ok ==> runs == attempts
  {
    runs := 0;
    ok := false;
    while runs < attempts
      invariant 0 <= runs <= attempts
      invariant forall k :: 0 <= k < runs ==> !run(k)
    {
      runs := runs + 1;
      if run(runs - 1) {
        ok := true;
        return;
      }
    }
  }

  /**
    `flash(attempts, image_file, mtd, ..., force)`: exit when the image is
    larger than the device, when another flasher runs, or when the image is
    not for this platform and `force` is off; otherwise write, with fewer
    than one attempt meaning a single dry run to /dev/null, and remove the
    temporary image afterwards.
   */
  method Flash(attempts: int, imageName: string, image: seq<Byte>, mtd: PyMtd.Mtd, mtdFile: string,
               force: bool, env: FlashEnv) returns (o: FlashOutcome)
    ensures o.FlashExited? <==> |image| > mtd.size || env.otherFlasher || (!env.compatible && !force)
    ensures o.FlashExited? ==> o.code == 1
    ensures o.Flashed? ==> 1 <= o.runs <= (if attempts < 1 then 1 else attempts)
    ensures o.Flashed? ==> (forall k :: 0 <= k < o.runs - 1 ==> !env.run(k)) && (o.succeeded <==> env.run(o.runs - 1))
    ensures o.Flashed? && !o.succeeded ==> o.runs == (if attempts < 1 then 1 else attempts)
    ensures o.Flashed? && attempts < 1 ==> o.command == DdToNull(imageName)
    ensures o.Flashed? && attempts >= 1 && mtd.offset == 0 ==> o.command == Flashcp(imageName, mtdFile)
    ensures o.Flashed? && attempts >= 1 && mtd.offset > 0 ==> o.command == Flashcp(imageName + ".tmp", mtdFile)
    ensures o.Flashed? && mtd.offset > 0 ==>
              o.written == Some(SpliceHead(mtd.offset, env.deviceData, image)) && o.removed == Some(imageName + ".tmp")
    ensures o.Flashed? && mtd.offset == 0 ==> o.written.None? && o.removed.None?
  {
    if |image| > mtd.size {
      return FlashExited(1);
    }
    if env.otherFlasher {
      return FlashExited(1);
    }
    if !env.compatible && !force {
      return FlashExited(1);
    }
    var name := imageName;
    var written: Option<seq<Byte>> := None;
    if mtd.offset > 0 {
      name := imageName + ".tmp";
      written := Some(SpliceHead(mtd.offset, env.deviceData, image));
    }
    var command := Flashcp(name, mtdFile);
    var n: nat;
    if attempts < 1 {
      command := DdToNull(imageName);
      n := 1;
    } else {
      n := attempts;
    }
    var runs, ok := Retry(n, env.run);
    var removed: Option<string> := None;
    if imageName != name {
      removed := Some(name);
    }
    o := Flashed(command, runs, ok, written, removed);
  }

  /**
    The contract of `Retry` fixes its result: when run `k` is the first to
    succeed within the budget, exactly `k + 1` runs happen and the flash
    succeeds.
   */
  lemma FirstSuccessStops(attempts: nat, run: nat -> bool, k: nat, runs: nat, ok: bool)
    requires k < attempts && run(k) && forall j :: 0 <= j < k ==> !run(j)
    requires 1 <= runs <= attempts && (forall j :: 0 <= j < runs - 1 ==> !run(j))
    requires (ok <==> run(runs - 1)) && (!ok ==> runs == attempts)
    ensures runs == k + 1 && ok
  {
  }

  /** With every run failing, the whole budget is used and the flash is reported as failed. */
  lemma AllFailExhaust(attempts: nat, run: nat -> bool, runs: nat, ok: bool)
    requires forall j :: 0 <= j < attempts ==> !run(j)
    requires 1 <= runs <= attempts && (ok <==> run(runs - 1)) && (!ok ==> runs == attempts)
    ensures runs == attempts && !ok
  {
  }
}

/**
  The AST JTAG back end of cpldupdate (cpldupdate_dll_ast_jtag.c): a
  context of open file descriptors for the four bit-banged JTAG pins in
  sysfs (and the JTAG character device on kernels from 5.6 on), its
  set-up and tear-down, and writing and reading one pin.

  System calls are inputs: whether `malloc` succeeds, what each `open`
  returns, whether `lseek`, `write` and `read` fail.  cpldupdate_dll.h is not
  part of this model; its pin enumeration is taken as TDI, TDO, TMS, TCK
  (0 to 3, `CPLDUPDATE_PIN_MAX` = 4) and its values as LOW = 0, HIGH = 1.
 */
module JtagShim {
  import opened Common
  import opened PlatUtils

  datatype Pin = Tdi | Tdo | Tms | Tck

  const PIN_MAX: nat := 4
  const VALUE_LOW: int := 0
  const VALUE_HIGH: int := 1

  /** A pin's index in the descriptor array. */
  function PinIndex(p: Pin): (i: nat)
    ensures i < PIN_MAX
  {
    match p
    case Tdi => 0
    case Tdo => 1
    case Tms => 2
    case Tck => 3
  }

  /** The order in which `cpldupdate_dll_init` opens the pins. */
  const OPEN_ORDER: seq<Pin> := [Tdi, Tck, Tms, Tdo]

  /** `struct jtag_ctx`: the character device's descriptor and one per pin, -1 when not open. */
  datatype Ctx = Ctx(chardev: int, fds: seq<int>)

  predicate WellFormed(c: Ctx) {
    |c.fds| == PIN_MAX
  }

  // ---------------------------------------------------------------------------
  // cpldupdate_dll_free
  // ---------------------------------------------------------------------------

  /**
    `cpldupdate_dll_free`: nothing for NULL; otherwise the character device
    if its descriptor is not negative, then every pin descriptor that is
    not -1, each closed once.
   */
  method Free(ctx: Option<Ctx>) returns (closed: seq<int>)
    ensures ctx.None? ==> closed == []
    ensures ctx.Some? ==> -1 !in closed
    ensures ctx.Some? ==> multiset(closed) == ChardevClosed(ctx.value.chardev) + multiset(ctx.value.fds)[-1 := 0]
    ensures ctx.Some? && ctx.value.chardev >= 0 ==> closed != [] && closed[0] == ctx.value.chardev
  {
    closed := [];
    if ctx.Some? {
      closed := FreeCtx(ctx.value);
    }
  }

  /** `Free` on a context that is there: the character device first, then the pins. */
  method FreeCtx(c: Ctx) returns (closed: seq<int>)
    ensures -1 !in closed
    ensures multiset(closed) == ChardevClosed(c.chardev) + multiset(c.fds)[-1 := 0]
    ensures c.chardev >= 0 ==> closed != [] && closed[0] == c.chardev
  {
    closed := if c.chardev >= 0 then [c.chardev] else [];
    var i := 0;
    while i < |c.fds|
      invariant 0 <= i <= |c.fds|
      invariant c.chardev >= 0 ==> |closed| >= 1 && closed[0] == c.chardev
      invariant ClosedCounts(closed, c, i)
    {
      CountsStep(closed, c, i);
      closed := if c.fds[i] != -1 then closed + [c.fds[i]] else closed;
      i := i + 1;
    }
    CountsDone(closed, c);
  }

  /** What closing the character device contributes: its descriptor when it is not negative. */
  function ChardevClosed(chardev: int): (m: multiset<int>)
    ensures -1 !in m
    ensures chardev >= 0 <==> chardev in m
  {
    if chardev >= 0 then multiset{chardev} else multiset{}
  }

  /** `closed` holds the character device (when open) and the open descriptors among the first `i` pins. */
  predicate ClosedCounts(closed: seq<int>, c: Ctx, i: nat)
    requires i <= |c.fds|
  {
    multiset(closed) == ChardevClosed(c.chardev) + multiset(c.fds[..i])[-1 := 0]
  }

  /** Once every pin is through, `closed` holds exactly what `Free` promises, and no -1. */
  lemma CountsDone(closed: seq<int>, c: Ctx)
    requires ClosedCounts(closed, c, |c.fds|)
    ensures -1 !in closed
    ensures multiset(closed) == ChardevClosed(c.chardev) + multiset(c.fds)[-1 := 0]
  {
    assert c.fds[..|c.fds|] == c.fds;
    assert -1 !in multiset(closed);
  }

  /** Closing pin `i` when it is open, and skipping it when it is -1, extends the count by that pin. */
  lemma CountsStep(closed: seq<int>, c: Ctx, i: nat)
    requires i < |c.fds| && ClosedCounts(closed, c, i)
    ensures ClosedCounts(if c.fds[i] != -1 then closed + [c.fds[i]] else closed, c, i + 1)
  {
    var x := c.fds[i];
    assert c.fds[..i + 1] == c.fds[..i] + [x];
    var before := multiset(c.fds[..i]);
    assert multiset(c.fds[..i + 1]) == before + multiset{x};
    if x != -1 {
      assert multiset(closed + [x]) == multiset(closed) + multiset{x};
      assert (before + multiset{x})[-1 := 0] == before[-1 := 0] + multiset{x};
    } else {
      assert (before + multiset{x})[-1 := 0] == before[-1 := 0];
    }
  }

  // ---------------------------------------------------------------------------
  // cpldupdate_dll_init
  // ---------------------------------------------------------------------------

  /** What `init` leaves behind: its return code, the context it hands out and the descriptors it closed. */
  datatype InitResult = InitResult(rc: int, ctx: Option<Ctx>, closed: seq<int>)

  /** The system calls `init` depends on. */
  datatype InitEnv = InitEnv(
    mallocOk: bool,
    needChardev: bool,          // get_kernel_version() >= KERNEL_VERSION(5, 6, 0)
    chardev: SysResult,         // open("/dev/jtag0", O_RDWR)
    pinOpen: Pin -> SysResult)  // open of the pin's sysfs file

  /** The pins `OPEN_ORDER[..n]` all open. */
  predicate FirstOpen(env: InitEnv, n: nat)
    requires n <= |OPEN_ORDER|
  {
    forall k :: 0 <= k < n ==> env.pinOpen(OPEN_ORDER[k]).Ok?
  }

  /** The descriptors of the pins `OPEN_ORDER[..n]`, in the order they were done. */
  function OpenedPins(env: InitEnv, n: nat): (fds: seq<int>)
    requires n <= |OPEN_ORDER| && FirstOpen(env, n)
    ensures |fds| == n
    ensures forall k :: 0 <= k < n ==> fds[k] == env.pinOpen(OPEN_ORDER[k]).fd
  {
    if n == 0 then [] else OpenedPins(env, n - 1) + [env.pinOpen(OPEN_ORDER[n - 1]).fd]
  }

  /** The descriptor array with `OPEN_ORDER[..n]` done and the rest still -1. */
  predicate PinsSoFar(env: InitEnv, fds: seq<int>, n: nat)
    requires n <= |OPEN_ORDER| && FirstOpen(env, n)
  {
    |fds| == PIN_MAX
    && (forall k :: 0 <= k < n ==> fds[PinIndex(OPEN_ORDER[k])] == env.pinOpen(OPEN_ORDER[k]).fd)
    && (forall k :: n <= k < |OPEN_ORDER| ==> fds[PinIndex(OPEN_ORDER[k])] == -1)
  }

  /** Apart from the -1 of closed slots, the array holds exactly the descriptors of `OPEN_ORDER[..n]`. */
  predicate HoldsOpened(env: InitEnv, fds: seq<int>, n: nat)
    requires n <= |OPEN_ORDER| && FirstOpen(env, n)
  {
    multiset(fds)[-1 := 0] == multiset(OpenedPins(env, n))
  }

  /** Distinct steps of the open order fill distinct slots. */
  lemma SlotsDistinct(j: nat, k: nat)
    requires j < |OPEN_ORDER| && k < |OPEN_ORDER| && j != k
    ensures PinIndex(OPEN_ORDER[j]) != PinIndex(OPEN_ORDER[k])
  {
  }

  /** Opening the next pin fills its slot and leaves the others. */
  lemma PinsStep(env: InitEnv, fds: seq<int>, n: nat)
    requires n < |OPEN_ORDER| && FirstOpen(env, n + 1)
    requires PinsSoFar(env, fds, n)
    ensures var p := OPEN_ORDER[n];
            PinsSoFar(env, fds[PinIndex(p) := env.pinOpen(p).fd], n + 1)
  {
    var p := OPEN_ORDER[n];
    var fds' := fds[PinIndex(p) := env.pinOpen(p).fd];
    forall k | 0 <= k < |OPEN_ORDER| && k != n
      ensures fds'[PinIndex(OPEN_ORDER[k])] == fds[PinIndex(OPEN_ORDER[k])]
    {
      SlotsDistinct(k, n);
    }
  }

  /** The slot the next pin fills was still -1, so the array gains exactly its descriptor. */
  lemma HoldsStep(env: InitEnv, fds: seq<int>, n: nat)
    requires n < |OPEN_ORDER| && FirstOpen(env, n + 1)
    requires PinsSoFar(env, fds, n) && HoldsOpened(env, fds, n)
    ensures var p := OPEN_ORDER[n];
            HoldsOpened(env, fds[PinIndex(p) := env.pinOpen(p).fd], n + 1)
  {
    var p := OPEN_ORDER[n];
    var fd := env.pinOpen(p).fd;
    var fds' := fds[PinIndex(p) := fd];
    assert fds[PinIndex(p)] == -1;
    assert multiset(fds') == multiset(fds) - multiset{-1} + multiset{fd};
    assert multiset(fds')[-1 := 0] == multiset(fds)[-1 := 0] + multiset{fd};
    assert OpenedPins(env, n + 1) == OpenedPins(env, n) + [fd];
  }

  /** The descriptor array after the pins `OPEN_ORDER[..n]` opened, starting from all -1. */
  function FdsSoFar(env: InitEnv, n: nat): (fds: seq<int>)
    requires n <= |OPEN_ORDER| && FirstOpen(env, n)
    ensures |fds| == PIN_MAX
  {
    if n == 0 then [-1, -1, -1, -1]
    else
      var p := OPEN_ORDER[n - 1];
      FdsSoFar(env, n - 1)[PinIndex(p) := env.pinOpen(p).fd]
  }

  /** The array after `n` opens has the `n` descriptors in their slots and -1 elsewhere. */
  lemma {:induction false} FdsSoFarPins(env: InitEnv, n: nat)
    requires n <= |OPEN_ORDER| && FirstOpen(env, n)
    ensures PinsSoFar(env, FdsSoFar(env, n), n)
  {
    if n > 0 {
      var m := n - 1;
      assert FirstOpen(env, m);
      FdsSoFarPins(env, m);
      PinsStep(env, FdsSoFar(env, m), m);
    }
  }

  /** Apart from its -1 slots, the array after `n` opens holds the `n` descriptors and nothing else. */
  lemma {:induction false} FdsSoFarHolds(env: InitEnv, n: nat)
    requires n <= |OPEN_ORDER| && FirstOpen(env, n)
    ensures HoldsOpened(env, FdsSoFar(env, n), n)
  {
    if n > 0 {
      var m := n - 1;
      assert FirstOpen(env, m);
      FdsSoFarPins(env, m);
      FdsSoFarHolds(env, m);
      HoldsStep(env, FdsSoFar(env, m), m);
    }
  }

  /** Once the whole order is through, every pin's slot holds its descriptor. */
  lemma AllPinsOpen(env: InitEnv, fds: seq<int>)
    requires FirstOpen(env, |OPEN_ORDER|) && PinsSoFar(env, fds, |OPEN_ORDER|)
    ensures forall p: Pin :: env.pinOpen(p).Ok? && fds[PinIndex(p)] == env.pinOpen(p).fd
  {
    forall p: Pin
      ensures env.pinOpen(p).Ok? && fds[PinIndex(p)] == env.pinOpen(p).fd
    {
      var k := if p == Tdi then 0 else if p == Tck then 1 else if p == Tms then 2 else 3;
      assert OPEN_ORDER[k] == p;
    }
  }

  /** Freeing the context part-way through closes the character device and the pins opened so far. */
  lemma FreedOpened(env: InitEnv, chardev: int, fds: seq<int>, done: nat, closed: seq<int>)
    requires done <= |OPEN_ORDER| && FirstOpen(env, done) && HoldsOpened(env, fds, done)
    requires multiset(closed) == ChardevClosed(chardev) + multiset(fds)[-1 := 0]
    ensures multiset(closed) == ChardevClosed(chardev) + multiset(OpenedPins(env, done))
  {
  }

  /**
    The four `OPEN_AND_CHECK`s on a context whose character device is
    settled: the first pin that does not open makes `init` free the context
    and return that `open`'s errno.
   */
  method OpenPins(env: InitEnv, chardev: int) returns (r: InitResult, done: nat)
    ensures done <= |OPEN_ORDER| && FirstOpen(env, done)
    ensures done == |OPEN_ORDER| <==> r.ctx.Some?
    ensures r.ctx.Some? ==> r.rc == 0 && r.closed == [] && r.ctx.value.chardev == chardev
    ensures r.ctx.Some? ==> WellFormed(r.ctx.value)
                            && forall p: Pin :: env.pinOpen(p).Ok? && r.ctx.value.fds[PinIndex(p)] == env.pinOpen(p).fd
    ensures r.ctx.None? ==> env.pinOpen(OPEN_ORDER[done]).Fails?
                            && r.rc == env.pinOpen(OPEN_ORDER[done]).errno
    ensures r.ctx.None? ==> multiset(r.closed) == ChardevClosed(chardev) + multiset(OpenedPins(env, done))
  {
    var fds := [-1, -1, -1, -1];
    done := 0;
    while done < |OPEN_ORDER|
      invariant done <= |OPEN_ORDER| && FirstOpen(env, done)
      invariant fds == FdsSoFar(env, done)
    {
      var p := OPEN_ORDER[done];
      match env.pinOpen(p)
      case Fails(e) =>
        var closed := Free(Some(Ctx(chardev, fds)));
        FdsSoFarHolds(env, done);
        FreedOpened(env, chardev, fds, done, closed);
        return InitResult(e, None, closed), done;
      case Ok(fd) =>
        fds := fds[PinIndex(p) := fd];
        done := done + 1;
    }
    FdsSoFarPins(env, done);
    AllPinsOpen(env, fds);
    r := InitResult(0, Some(Ctx(chardev, fds)), []);
  }

  /** The character-device step of `init`: go on with its descriptor (-1 when not needed), or stop with a result. */
  datatype ChardevStep = Proceed(chardev: int) | Stop(r: InitResult)

  /**
    The step as written: on a kernel that needs the character device and
    cannot open it, `init` jumps to the error exit with `rc` still 0.
   */
  function ChardevAsWritten(env: InitEnv): (s: ChardevStep)
    ensures s.Stop? <==> env.needChardev && env.chardev.Fails?
    ensures s.Stop? ==> s.r.ctx.None? && s.r.closed == []
    ensures s.Proceed? ==> s.chardev == (if env.needChardev then env.chardev.fd else -1)
  {
    if !env.needChardev then Proceed(-1)
    else match env.chardev
      case Fails(_) => Stop(InitResult(0, None, []))
      case Ok(fd) => Proceed(fd)
  }

  /** As written, a failed character-device open is reported as success although no context is handed out. */
  lemma ChardevFailureReportsSuccess(env: InitEnv)
    requires env.needChardev && env.chardev.Fails? && env.chardev.errno > 0
    ensures ChardevAsWritten(env).Stop? && ChardevAsWritten(env).r.rc == 0 && ChardevAsWritten(env).r.ctx.None?
  {
  }

  /** The step as evidently intended: the failure returns the `open`'s errno. */
  function Chardev(env: InitEnv): (s: ChardevStep)
    ensures s.Stop? <==> env.needChardev && env.chardev.Fails?
    ensures s.Stop? ==> s.r == InitResult(env.chardev.errno, None, [])
    ensures s.Proceed? ==> s.chardev == (if env.needChardev then env.chardev.fd else -1)
  {
    if !env.needChardev then Proceed(-1)
    else match env.chardev
      case Fails(e) => Stop(InitResult(e, None, []))
      case Ok(fd) => Proceed(fd)
  }

  /** `cpldupdate_dll_init` as written. */
  method InitAsWritten(env: InitEnv) returns (r: InitResult)
    ensures !env.mallocOk ==> r == InitResult(ENOMEM, None, [])
    ensures env.mallocOk && env.needChardev && env.chardev.Fails? ==> r == InitResult(0, None, [])
    ensures r.ctx.Some? <==> env.mallocOk && (env.needChardev ==> env.chardev.Ok?) && FirstOpen(env, |OPEN_ORDER|)
  {
    if !env.mallocOk {
      return InitResult(ENOMEM, None, []);
    }
    match ChardevAsWritten(env)
    case Stop(stopped) =>
      r := stopped;
    case Proceed(chardev) =>
      var done;
      r, done := OpenPins(env, chardev);
  }

  /**
    `cpldupdate_dll_init` as evidently intended.  With every failing
    `open` reporting a positive errno, the result is 0 exactly when a
    context is handed out; a failure leaves no descriptor open.
   */
  method Init(env: InitEnv) returns (r: InitResult)
    ensures !env.mallocOk ==> r == InitResult(ENOMEM, None, [])
    ensures env.mallocOk && env.needChardev && env.chardev.Fails? ==> r == InitResult(env.chardev.errno, None, [])
    ensures r.ctx.Some? <==> env.mallocOk && (env.needChardev ==> env.chardev.Ok?) && FirstOpen(env, |OPEN_ORDER|)
    ensures r.ctx.Some? ==> r.rc == 0 && r.closed == [] && WellFormed(r.ctx.value)
    ensures r.ctx.Some? ==> r.ctx.value.chardev == (if env.needChardev then env.chardev.fd else -1)
    ensures r.ctx.Some? ==> forall p: Pin :: env.pinOpen(p).Ok? && r.ctx.value.fds[PinIndex(p)] == env.pinOpen(p).fd
    ensures (env.chardev.Fails? ==> env.chardev.errno > 0)
            && (forall p: Pin :: env.pinOpen(p).Fails? ==> env.pinOpen(p).errno > 0)
            ==> (r.rc == 0 <==> r.ctx.Some?)
    ensures r.ctx.None? && env.mallocOk && env.needChardev && env.chardev.Ok? ==> env.chardev.fd in r.closed
  {
    if !env.mallocOk {
      return InitResult(ENOMEM, None, []);
    }
    match Chardev(env)
    case Stop(stopped) =>
      r := stopped;
    case Proceed(chardev) =>
      var done;
      r, done := OpenPins(env, chardev);
      if r.ctx.None? && chardev >= 0 {
        assert chardev in multiset(r.closed);
      }
  }

  // ---------------------------------------------------------------------------
  // Writing and reading a pin
  // ---------------------------------------------------------------------------

  /** One pin access: its return code, and the descriptor and data written (if any). */
  datatype PinWrite = PinWrite(rc: int, fd: Option<int>, data: string)

  /**
    `cpldupdate_dll_write_pin`: EINVAL for a NULL context or a pin out of
    range (the enumeration is unsigned, so negative values are out of range
    too); otherwise seek to the start and write "0" for LOW and "1" for any
    other value, returning the errno of a failing `lseek` or `write`.
   */
  function WritePin(ctx: Option<Ctx>, pin: int, value: int, seekErr: Option<int>, writeErr: Option<int>): (w: PinWrite)
    requires ctx.Some? ==> WellFormed(ctx.value)
    ensures ctx.None? || pin < 0 || pin >= PIN_MAX ==> w == PinWrite(EINVAL, None, [])
    ensures ctx.Some? && 0 <= pin < PIN_MAX && seekErr.Some? ==> w == PinWrite(seekErr.value, Some(ctx.value.fds[pin]), [])
    ensures ctx.Some? && 0 <= pin < PIN_MAX && seekErr.None? ==>
              w.fd == Some(ctx.value.fds[pin]) && |w.data| == 1 && (w.data == "0" <==> value == VALUE_LOW)
              && (w.data == "1" <==> value != VALUE_LOW)
              && (writeErr.None? ==> w.rc == 0) && (writeErr.Some? ==> w.rc == writeErr.value)
  {
    if ctx.None? || pin < 0 || pin >= PIN_MAX then PinWrite(EINVAL, None, [])
    else
      var fd := ctx.value.fds[pin];
      if seekErr.Some? then PinWrite(seekErr.value, Some(fd), [])
      else
        var data := if value == VALUE_LOW then "0" else "1";
        PinWrite(if writeErr.Some? then writeErr.value else 0, Some(fd), data)
  }

  datatype PinValue = Low | High

  /** What `read` does: fails with an errno, or returns the file's first bytes. */
  datatype ReadOutcome = ReadFails(errno: int) | Data(bytes: string)

  /**
    The value the buffer holds after `read` of up to 32 bytes into a zeroed
    buffer: HIGH when `atoi` of it is not 0.  A file of 32 or more bytes
    leaves the buffer without a terminating NUL; this model stops at 32.
   */
  function PinValueOf(bytes: string): (v: PinValue)
    ensures v == High <==> Atoi(bytes[..if |bytes| < 32 then |bytes| else 32]) != 0
  {
    if Atoi(bytes[..if |bytes| < 32 then |bytes| else 32]) != 0 then High else Low
  }

  /** `cpldupdate_dll_read_pin`: the same checks as `write_pin`, then the value read back. */
  function ReadPin(ctx: Option<Ctx>, pin: int, seekErr: Option<int>, read: ReadOutcome): (r: (int, Option<PinValue>))
    requires ctx.Some? ==> WellFormed(ctx.value)
    ensures ctx.None? || pin < 0 || pin >= PIN_MAX ==> r == (EINVAL, None)
    ensures ctx.Some? && 0 <= pin < PIN_MAX && seekErr.Some? ==> r == (seekErr.value, None)
    ensures ctx.Some? && 0 <= pin < PIN_MAX && seekErr.None? && read.ReadFails? ==> r == (read.errno, None)
    ensures r.1.Some? <==> ctx.Some? && 0 <= pin < PIN_MAX && seekErr.None? && read.Data?
    ensures r.1.Some? ==> r.0 == 0 && (r.1.value == High <==> Atoi(read.bytes[..if |read.bytes| < 32 then |read.bytes| else 32]) != 0)
  {
    if ctx.None? || pin < 0 || pin >= PIN_MAX then (EINVAL, None)
    else if seekErr.Some? then (seekErr.value, None)
    else match read
      case ReadFails(e) => (e, None)
      case Data(bytes) => (0, Some(PinValueOf(bytes)))
  }

  /** `atoi` of a digit followed by no further digit (a newline, say) is that digit. */
  lemma AtoiDigit(s: string)
    requires s != [] && IsDigit(s[0]) && (|s| == 1 || !IsDigit(s[1]))
    requires forall k :: 0 <= k < |s| ==> s[k] != '\0'
    ensures Atoi(s) == DigitValue(s[0])
  {
    WholeCString(s);
    var t := SkipSpaces(CString(s));
    assert t == s;
    assert !(t[0] == '-' || t[0] == '+');
    DigitThenNot(s);
    assert t[..DigitRunLength(t)] == [s[0]];
    SingleDigitValue(s[0]);
  }

  lemma SingleDigitValue(d: char)
    requires IsDigit(d)
    ensures DecimalValue([d]) == DigitValue(d)
  {
    assert [d][..0] == [];
  }

  /** A string without NUL is its own C string. */
  lemma {:induction false} WholeCString(s: string)
    requires forall k :: 0 <= k < |s| ==> s[k] != '\0'
    ensures CString(s) == s
    decreases |s|
  {
    if s != [] {
      WholeCString(s[1..]);
      assert s == [s[0]] + s[1..];
    }
  }

  /** A digit followed by no further digit: the digit run is that digit. */
  lemma DigitThenNot(s: string)
    requires s != [] && IsDigit(s[0]) && (|s| == 1 || !IsDigit(s[1]))
    ensures DigitRunLength(s) == 1 && s[..1] == [s[0]]
  {
    assert DigitRunLength(s[1..]) == 0;
  }

  /**
    Writing a value and reading the pin back, where the file then holds
    what was written (possibly with a newline), gives LOW exactly for LOW.
   */
  lemma WriteThenRead(ctx: Ctx, pin: nat, value: int, nl: string)
    requires WellFormed(ctx) && pin < PIN_MAX
    requires nl == [] || nl == "\n"
    ensures var w := WritePin(Some(ctx), pin, value, None, None);
            w.rc == 0
            && ReadPin(Some(ctx), pin, None, Data(w.data + nl)) == (0, Some(if value == VALUE_LOW then Low else High))
  {
    var w := WritePin(Some(ctx), pin, value, None, None);
    AtoiDigit(w.data + nl);
    assert |w.data + nl| < 32;
    assert (w.data + nl)[..|w.data + nl|] == w.data + nl;
  }
}

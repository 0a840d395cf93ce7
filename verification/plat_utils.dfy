/**
  misc-utils platform helpers (plat-utils.c): the running kernel's version
  from `uname`, the CPU model from /proc/cpuinfo, the SoC model from the
  device tree or else the CPU, and the pid-file lock that keeps a daemon to
  a single instance.

  File contents and system-call results are inputs: `None` for a file that
  cannot be opened, the text for one that can.  Reading a file with
  `fgets(buf, 128, fp)` is modelled exactly, long lines included: each call
  returns at most 127 characters, up to and including a newline.
 */
module PlatUtils {
  import opened Common

  /** `PROC_LINE_MAX`: the size of every line buffer. */
  const LINE_MAX: nat := 128

  // ---------------------------------------------------------------------------
  // fgets
  // ---------------------------------------------------------------------------

  /** How many characters one `fgets(buf, LINE_MAX, fp)` takes from `s`. */
  function ChunkLength(s: string): (n: nat)
    requires s != []
    ensures 1 <= n <= |s| && n <= LINE_MAX - 1
    ensures forall k :: 0 <= k < n - 1 ==> s[k] != '\n'
    ensures n < |s| ==> s[n - 1] == '\n' || n == LINE_MAX - 1
    decreases |s|
  {
    ChunkFrom(s, 0)
  }

  function ChunkFrom(s: string, i: nat): (n: nat)
    requires i < |s| && i < LINE_MAX - 1
    requires forall k :: 0 <= k < i ==> s[k] != '\n'
    ensures i < n <= |s| && n <= LINE_MAX - 1
    ensures forall k :: 0 <= k < n - 1 ==> s[k] != '\n'
    ensures n < |s| ==> s[n - 1] == '\n' || n == LINE_MAX - 1
    decreases |s| - i
  {
    if s[i] == '\n' || i + 1 == |s| || i + 1 == LINE_MAX - 1 then i + 1
    else ChunkFrom(s, i + 1)
  }

  /** The strings successive `fgets` calls return until end of file. */
  function Chunks(s: string): (cs: seq<string>)
    ensures forall k :: 0 <= k < |cs| ==> 0 < |cs[k]| < LINE_MAX
    decreases |s|
  {
    if s == [] then []
    else
      var n := ChunkLength(s);
      [s[..n]] + Chunks(s[n..])
  }

  function Concat(cs: seq<string>): string {
    if cs == [] then [] else cs[0] + Concat(cs[1..])
  }

  /** `fgets` loses nothing: the chunks put back together are the file. */
  lemma {:induction false} ChunksCoverFile(s: string)
    ensures Concat(Chunks(s)) == s
    decreases |s|
  {
    if s != [] {
      var n := ChunkLength(s);
      var cs := Chunks(s);
      ChunksCoverFile(s[n..]);
      assert cs[0] == s[..n] && cs[1..] == Chunks(s[n..]);
      assert Concat(cs) == cs[0] + Concat(cs[1..]);
      assert s == s[..n] + s[n..];
    }
  }

  // ---------------------------------------------------------------------------
  // /proc/cpuinfo
  // ---------------------------------------------------------------------------

  const MODEL_NAME: string := "model name"

  /** The index of the first ':' in `s`, if any (`strstr(buf, ":")`). */
  function FindColon(s: string): (i: Option<nat>)
    ensures i.Some? ==> i.value < |s| && s[i.value] == ':' && forall k :: 0 <= k < i.value ==> s[k] != ':'
    ensures i.None? ==> forall k :: 0 <= k < |s| ==> s[k] != ':'
  {
    if s == [] then None
    else if s[0] == ':' then Some(0)
    else
      var r := FindColon(s[1..]);
      if r.Some? then Some(r.value + 1) else None
  }

  /**
    What one chunk contributes to `model_name`: after `str_rstrip`, a
    non-blank chunk starting with "model name" and holding a ':' gives the
    text after the colon without its leading white space, cut to 127
    characters by `strncpy`.
   */
  function ModelNameOf(chunk: string): (m: Option<string>)
    ensures m.Some? ==> StartsWith(RStrip(chunk), MODEL_NAME) && ':' in RStrip(chunk)
    ensures m.Some? ==> |m.value| < LINE_MAX && (m.value == [] || !IsSpace(m.value[0]))
    ensures !StartsWith(RStrip(chunk), MODEL_NAME) ==> m.None?
  {
    var line := RStrip(chunk);
    if |line| == 0 || !StartsWith(line, MODEL_NAME) then None
    else
      match FindColon(line)
      case None => None
      case Some(i) =>
        var rest := SkipSpaces(line[i + 1..]);
        Some(rest[..if |rest| < LINE_MAX - 1 then |rest| else LINE_MAX - 1])
  }

  /** The model name of every chunk, in file order. */
  function Names(cs: seq<string>): (ns: seq<Option<string>>)
    ensures |ns| == |cs|
    ensures forall k :: 0 <= k < |cs| ==> ns[k] == ModelNameOf(cs[k])
  {
    if cs == [] then [] else [ModelNameOf(cs[0])] + Names(cs[1..])
  }

  /** No entry after index `k` holds a value. */
  predicate NoneAfter(vs: seq<Option<string>>, k: nat) {
    forall j :: k < j < |vs| ==> vs[j].None?
  }

  /** The last value present, or "" when there is none (the `memset` of `model_name`). */
  function LastSome(vs: seq<Option<string>>): (m: string)
    ensures (forall k :: 0 <= k < |vs| ==> vs[k].None?) ==> m == []
    ensures forall k: nat :: k < |vs| && vs[k].Some? && NoneAfter(vs, k) ==> m == vs[k].value
  {
    if vs == [] then []
    else if vs[|vs| - 1].Some? then vs[|vs| - 1].value
    else
      var m := LastSome(vs[..|vs| - 1]);
      assert forall k: nat :: k < |vs| - 1 && NoneAfter(vs, k) ==> NoneAfter(vs[..|vs| - 1], k);
      m
  }

  /** The model name the file leaves behind: that of the last chunk that gives one. */
  function LastModelName(cs: seq<string>): string {
    LastSome(Names(cs))
  }

  /**
    `proc_read_cpuinfo`: -1 when the file cannot be opened; otherwise 0 and
    the model name of the last valid "model name" line.
   */
  method ReadCpuinfo(cpuinfo: Option<string>) returns (ret: int, model: string)
    ensures cpuinfo.None? ==> ret == -1 && model == []
    ensures cpuinfo.Some? ==> ret == 0 && model == LastModelName(Chunks(cpuinfo.value))
  {
    if cpuinfo.None? {
      return -1, [];
    }
    var ns := Names(Chunks(cpuinfo.value));
    model := [];
    var i := 0;
    while i < |ns|
      invariant 0 <= i <= |ns|
      invariant model == LastSome(ns[..i])
    {
      LastSomeStep(ns, i);
      if ns[i].Some? {
        model := ns[i].value;
      }
      i := i + 1;
    }
    assert ns[..|ns|] == ns;
    return 0, model;
  }

  /** One more entry: a value replaces the last one seen, an absent one keeps it. */
  lemma LastSomeStep(vs: seq<Option<string>>, i: nat)
    requires i < |vs|
    ensures LastSome(vs[..i + 1]) == if vs[i].Some? then vs[i].value else LastSome(vs[..i])
  {
    assert vs[..i + 1][..i] == vs[..i];
  }

  datatype CpuModel = CpuInvalid | ArmV5 | ArmV6

  /** `get_cpu_model`: "ARM926" is ARMv5, "ARMv6" is ARMv6, anything else (or no cpuinfo) invalid. */
  method GetCpuModel(cpuinfo: Option<string>) returns (c: CpuModel)
    ensures cpuinfo.None? ==> c == CpuInvalid
    ensures cpuinfo.Some? ==>
              var m := LastModelName(Chunks(cpuinfo.value));
              (c == ArmV5 <==> StartsWith(m, "ARM926"))
              && (c == ArmV6 <==> !StartsWith(m, "ARM926") && StartsWith(m, "ARMv6"))
  {
    c := CpuInvalid;
    var ret, model := ReadCpuinfo(cpuinfo);
    if ret == 0 {
      if StartsWith(model, "ARM926") {
        c := ArmV5;
      } else if StartsWith(model, "ARMv6") {
        c := ArmV6;
      }
    }
  }

  // ---------------------------------------------------------------------------
  // The SoC
  // ---------------------------------------------------------------------------

  datatype SocModel = SocInvalid | AspeedG4 | AspeedG5

  /**
    `proc_read_dt_compat`: the first `fgets` chunk of the compatible file,
    right-stripped; -1 (`None`) when the file cannot be opened or is empty.
    The file's entries are NUL-separated, so as a C string the buffer holds
    the first one only.
   */
  function ReadDtCompat(compat: Option<string>): (buf: Option<string>)
    ensures compat.None? || compat.value == [] <==> buf.None?
    ensures buf.Some? ==> '\0' !in buf.value
  {
    if compat.None? || compat.value == [] then None
    else
      var chunk := compat.value[..ChunkLength(compat.value)];
      var b := RStrip(CString(chunk));
      assert forall k :: 0 <= k < |b| ==> b[k] == CString(chunk)[k];
      Some(b)
  }

  function SocOfCompat(buf: string): SocModel {
    if Contains(buf, "ast2400") then AspeedG4
    else if Contains(buf, "ast2500") then AspeedG5
    else SocInvalid
  }

  /**
    `get_soc_model`: the device tree decides whenever it can be read (an
    "ast2400" before an "ast2500"); only without it does the CPU model
    decide, ARMv5 being the AST2400 (G4) and ARMv6 the AST2500 (G5).
   */
  method GetSocModel(compat: Option<string>, cpuinfo: Option<string>) returns (soc: SocModel)
    ensures ReadDtCompat(compat).Some? ==> soc == SocOfCompat(ReadDtCompat(compat).value)
    ensures ReadDtCompat(compat).None? && cpuinfo.None? ==> soc == SocInvalid
    ensures ReadDtCompat(compat).None? && cpuinfo.Some? ==>
              var m := LastModelName(Chunks(cpuinfo.value));
              (soc == AspeedG4 <==> StartsWith(m, "ARM926"))
              && (soc == AspeedG5 <==> !StartsWith(m, "ARM926") && StartsWith(m, "ARMv6"))
  {
    var buf := ReadDtCompat(compat);
    if buf.Some? {
      return SocOfCompat(buf.value);
    }
    var cpu := GetCpuModel(cpuinfo);
    soc := SocInvalid;
    if cpu == ArmV5 {
      soc := AspeedG4;
    } else if cpu == ArmV6 {
      soc := AspeedG5;
    }
  }

  /**
    The compatible file holds NUL-separated entries.  Only the first is ever
    looked at: `fgets` copies the NUL along with what follows, but the
    buffer then ends there as a C string, so the entries after the first
    never change the SoC.
   */
  lemma {:induction false} FirstCompatEntryDecides(entry: string, rest: string)
    requires '\0' !in entry && '\n' !in entry && |entry| < LINE_MAX - 1
    ensures ReadDtCompat(Some(entry + "\0" + rest)) == Some(RStrip(entry))
  {
    var s := entry + "\0" + rest;
    var n := ChunkLength(s);
    var chunk := s[..n];
    assert chunk[..|entry|] == entry && chunk[|entry|] == '\0';
    var c := CString(chunk);
    assert c == chunk[..|c|];
  }

  /** A pattern with a character the text lacks does not occur in it. */
  lemma {:induction false} MissingCharNotContained(s: string, p: string, i: nat)
    requires i < |p| && p[i] !in s
    ensures !Contains(s, p)
    decreases |s|
  {
    if |s| > 0 {
      MissingCharNotContained(s[1..], p, i);
    }
  }

  /**
    A first entry without the digit '2' names neither "ast2400" nor
    "ast2500", so it gives no SoC, whatever follows it.
   */
  lemma FirstCompatEntryWithoutTwoGivesNoSoc(entry: string, rest: string)
    requires '\0' !in entry && '\n' !in entry && '2' !in entry && |entry| < LINE_MAX - 1
    ensures ReadDtCompat(Some(entry + "\0" + rest)).Some?
    ensures SocOfCompat(ReadDtCompat(Some(entry + "\0" + rest)).value) == SocInvalid
  {
    FirstCompatEntryDecides(entry, rest);
    var b := RStrip(entry);
    assert forall k :: 0 <= k < |b| ==> b[k] == entry[k];
    MissingCharNotContained(b, "ast2400", 3);
    MissingCharNotContained(b, "ast2500", 3);
  }

  /**
    So a device tree that names the board before the SoC, as in
    "facebook,wedge100-bmc" followed by "aspeed,ast2400", gives no SoC at
    all, and the CPU model is not consulted either.
   */
  lemma BoardFirstCompatGivesNoSoc(rest: string)
    ensures ReadDtCompat(Some("facebook,wedge100-bmc\0" + rest)).Some?
    ensures SocOfCompat(ReadDtCompat(Some("facebook,wedge100-bmc\0" + rest)).value) == SocInvalid
  {
    var entry := "facebook,wedge100-bmc";
    assert entry + "\0" + rest == "facebook,wedge100-bmc\0" + rest;
    FirstCompatEntryWithoutTwoGivesNoSoc(entry, rest);
  }

  // ---------------------------------------------------------------------------
  // The kernel version
  // ---------------------------------------------------------------------------

  /** `strtol(pos, &pos, 10)` from a digit: the digit run's value, `LONG_MAX` when it does not fit. */
  function StrtolRun(digits: string): (v: nat)
    requires forall k :: 0 <= k < |digits| ==> IsDigit(digits[k])
    ensures v <= LONG_MAX
  {
    var d := DecimalValue(digits);
    if d > LONG_MAX then LONG_MAX else d
  }

  /** The values of all maximal decimal runs of `s`, left to right: the reference for the scan. */
  function Runs(s: string): (vs: seq<nat>)
    decreases |s|
  {
    if s == [] then []
    else if IsDigit(s[0]) then
      var n := DigitRunLength(s);
      [StrtolRun(s[..n])] + Runs(s[n..])
    else Runs(s[1..])
  }

  /** major.minor.patch: the first three runs, 0 for the ones that are missing. */
  function FirstThree(vs: seq<nat>): (v: (nat, nat, nat))
    ensures |vs| >= 1 ==> v.0 == vs[0]
    ensures |vs| >= 2 ==> v.1 == vs[1]
    ensures |vs| >= 3 ==> v.2 == vs[2]
    ensures |vs| < 1 ==> v.0 == 0
    ensures |vs| < 2 ==> v.1 == 0
    ensures |vs| < 3 ==> v.2 == 0
  {
    (if |vs| >= 1 then vs[0] else 0, if |vs| >= 2 then vs[1] else 0, if |vs| >= 3 then vs[2] else 0)
  }

  /**
    `get_kernel_version` on `uname`'s release field (`None` when `uname`
    fails): the scan skips non-digits and takes each digit run with
    `strtol`, stopping after three.  Returns the three fields that
    `KERNEL_VERSION` packs; a failing `uname` gives the invalid version 0.
   */
  method GetKernelVersion(release: Option<string>) returns (v: (nat, nat, nat))
    ensures release.None? ==> v == (0, 0, 0)
    ensures release.Some? ==> v == FirstThree(Runs(CString(release.value)))
  {
    if release.None? {
      return (0, 0, 0);
    }
    var s := CString(release.value);
    var versions: seq<nat> := [];
    var pos := 0;
    while pos < |s| && |versions| < 3
      invariant 0 <= pos <= |s|
      invariant |versions| <= 3
      invariant Scanned(s, pos, versions)
      decreases |s| - pos
    {
      if IsDigit(s[pos]) {
        var n := DigitRunLength(s[pos..]);
        ScanDigit(s, pos, versions);
        versions := versions + [StrtolRun(s[pos..][..n])];
        pos := pos + n;
      } else {
        ScanSeparator(s, pos, versions);
        pos := pos + 1;
      }
    }
    ScanDone(s, pos, versions);
    return FirstThree(versions);
  }

  /** The fields found before `pos`, followed by the runs of the rest, are the runs of `s`. */
  predicate Scanned(s: string, pos: nat, versions: seq<nat>)
    requires pos <= |s|
  {
    versions + Runs(s[pos..]) == Runs(s)
  }

  /** Taking the digit run at `pos` as the next field keeps the fields and the rest of the scan together. */
  lemma ScanDigit(s: string, pos: nat, versions: seq<nat>)
    requires pos < |s| && IsDigit(s[pos]) && Scanned(s, pos, versions)
    ensures var n := DigitRunLength(s[pos..]);
            pos + n <= |s| && Scanned(s, pos + n, versions + [StrtolRun(s[pos..][..n])])
  {
    var t := s[pos..];
    var n := DigitRunLength(t);
    RunsAtDigit(t);
    DropTwice(s, pos, n);
    AppendField(versions, StrtolRun(t[..n]), Runs(s[pos + n..]));
  }

  /** Skipping the non-digit at `pos` keeps the fields and the rest of the scan together. */
  lemma ScanSeparator(s: string, pos: nat, versions: seq<nat>)
    requires pos < |s| && !IsDigit(s[pos]) && Scanned(s, pos, versions)
    ensures Scanned(s, pos + 1, versions)
  {
    var t := s[pos..];
    RunsAtSeparator(t);
    DropTwice(s, pos, 1);
  }

  /** When the scan stops, the fields are all runs of `s`, or the first three. */
  lemma ScanDone(s: string, pos: nat, versions: seq<nat>)
    requires pos <= |s| && |versions| <= 3 && Scanned(s, pos, versions)
    requires pos == |s| || |versions| == 3
    ensures FirstThree(versions) == FirstThree(Runs(s))
  {
    if pos == |s| {
      assert Runs(s[pos..]) == [];
      assert versions == Runs(s);
    } else {
      assert versions == Runs(s)[..3];
    }
  }

  /** A string starting with a digit scans that digit run as its first field. */
  lemma RunsAtDigit(t: string)
    requires t != [] && IsDigit(t[0])
    ensures Runs(t) == [StrtolRun(t[..DigitRunLength(t)])] + Runs(t[DigitRunLength(t)..])
  {
  }

  /** A string starting with a non-digit scans as its tail. */
  lemma RunsAtSeparator(t: string)
    requires t != [] && !IsDigit(t[0])
    ensures Runs(t) == Runs(t[1..])
  {
  }

  /** Dropping `a` elements, then `b` more, drops `a + b`. */
  lemma DropTwice(s: string, a: nat, b: nat)
    requires a + b <= |s|
    ensures s[a..][b..] == s[a + b..]
  {
  }

  lemma AppendField(vs: seq<nat>, x: nat, rest: seq<nat>)
    ensures (vs + [x]) + rest == vs + ([x] + rest)
  {
  }

  predicate AllDigits(s: string) {
    forall k :: 0 <= k < |s| ==> IsDigit(s[k])
  }

  /** The digit run at the start of `a + rest` is `a` when `rest` does not go on with a digit. */
  lemma {:induction false} DigitRunOfPrefix(a: string, rest: string)
    requires AllDigits(a)
    requires rest == [] || !IsDigit(rest[0])
    ensures DigitRunLength(a + rest) == |a|
    decreases |a|
  {
    if a == [] {
      assert a + rest == rest;
    } else {
      assert (a + rest)[0] == a[0] && (a + rest)[1..] == a[1..] + rest;
      DigitRunOfPrefix(a[1..], rest);
    }
  }

  /** A leading run `a` is scanned as one field. */
  lemma {:induction false} RunsOfRun(a: string, rest: string)
    requires a != [] && AllDigits(a)
    requires rest == [] || !IsDigit(rest[0])
    ensures Runs(a + rest) == [StrtolRun(a)] + Runs(rest)
  {
    DigitRunOfPrefix(a, rest);
    assert (a + rest)[0] == a[0];
    assert (a + rest)[..|a|] == a && (a + rest)[|a|..] == rest;
  }

  /** A leading non-digit is skipped. */
  lemma RunsOfSeparator(c: char, rest: string)
    requires !IsDigit(c)
    ensures Runs([c] + rest) == Runs(rest)
  {
    assert ([c] + rest)[1..] == rest;
  }

  /**
    A release "a.b.c" followed by anything that does not go on with a digit
    (such as "-rc1" or "+") gives the fields a, b and c.
   */
  lemma DottedRelease(a: string, b: string, c: string, tail: string)
    requires a != [] && b != [] && c != [] && AllDigits(a) && AllDigits(b) && AllDigits(c)
    requires tail == [] || !IsDigit(tail[0])
    ensures FirstThree(Runs(a + ("." + (b + ("." + (c + tail)))))) == (StrtolRun(a), StrtolRun(b), StrtolRun(c))
  {
    var r3 := c + tail;
    var r2 := "." + r3;
    var r1 := b + r2;
    var r0 := "." + r1;
    RunsOfRun(c, tail);
    RunsOfSeparator('.', r3);
    RunsOfRun(b, r2);
    RunsOfSeparator('.', r1);
    RunsOfRun(a, r0);
    FieldsOf(Runs(a + r0), StrtolRun(a), StrtolRun(b), StrtolRun(c), Runs(tail));
  }

  /** The first three fields of a list that starts with `x`, `y` and `z`. */
  lemma FieldsOf(vs: seq<nat>, x: nat, y: nat, z: nat, rest: seq<nat>)
    requires vs == [x] + ([y] + ([z] + rest))
    ensures FirstThree(vs) == (x, y, z)
  {
  }

  /** A release "a.b" whose tail holds no digit gives patch level 0. */
  lemma {:induction false} TwoFieldRelease(a: string, b: string, tail: string)
    requires a != [] && b != [] && AllDigits(a) && AllDigits(b)
    requires forall k :: 0 <= k < |tail| ==> !IsDigit(tail[k])
    ensures FirstThree(Runs(a + ("." + (b + tail)))) == (StrtolRun(a), StrtolRun(b), 0)
  {
    var r1 := b + tail;
    var r0 := "." + r1;
    NoDigitsNoRuns(tail);
    RunsOfRun(b, tail);
    RunsOfSeparator('.', r1);
    RunsOfRun(a, r0);
    TwoFieldsOf(Runs(a + r0), StrtolRun(a), StrtolRun(b));
  }

  /** A list of two fields has patch level 0. */
  lemma TwoFieldsOf(vs: seq<nat>, x: nat, y: nat)
    requires vs == [x] + ([y] + [])
    ensures FirstThree(vs) == (x, y, 0)
  {
  }

  lemma {:induction false} NoDigitsNoRuns(s: string)
    requires forall k :: 0 <= k < |s| ==> !IsDigit(s[k])
    ensures Runs(s) == []
    decreases |s|
  {
    if s != [] {
      NoDigitsNoRuns(s[1..]);
    }
  }

  // ---------------------------------------------------------------------------
  // single_instance_lock
  // ---------------------------------------------------------------------------

  /** `open` flags and `flock` operations used. */
  const O_RDWR: bv32 := 0x2
  const O_CREAT: bv32 := 0x40
  const LOCK_EX: bv32 := 2
  const LOCK_NB: bv32 := 4

  /** The calls `single_instance_lock` makes, in order. */
  datatype Call = Open(path: string, flags: bv32) | Flock(fd: int, op: bv32) | Close(fd: int)

  /** What `open` and `flock` do: a descriptor or a failure with its errno. */
  datatype SysResult = Ok(fd: nat) | Fails(errno: int)

  /** The return value, `errno` afterwards, and the calls made. */
  datatype LockResult = LockResult(ret: int, errno: int, calls: seq<Call>)

  /** `snprintf(path, PATH_MAX, "/var/run/%s.pid", prog_name)`: truncated to PATH_MAX - 1 characters. */
  function PidPath(prog: string): (p: string)
    ensures |p| < 4096
  {
    var full := "/var/run/" + prog + ".pid";
    if |full| < 4096 then full else full[..4095]
  }

  /**
    `single_instance_lock`: open (creating) the pid file, then try an
    exclusive lock without blocking.  On a failed lock the descriptor is
    closed and the lock's errno restored over whatever `close` set.
   */
  function SingleInstanceLock(prog: string, open: SysResult, lock: SysResult, errnoIn: int): (r: LockResult)
    ensures r.ret == -1 || (open.Ok? && r.ret == open.fd)
    ensures |r.calls| >= 1 && r.calls[0] == Open(PidPath(prog), O_CREAT | O_RDWR)
    ensures open.Fails? ==> r == LockResult(-1, open.errno, r.calls) && |r.calls| == 1
    ensures open.Ok? ==> |r.calls| >= 2 && r.calls[1] == Flock(open.fd, LOCK_EX | LOCK_NB)
    ensures open.Ok? && lock.Fails? ==>
              r.ret == -1 && r.errno == lock.errno && r.calls[2..] == [Close(open.fd)]
    ensures open.Ok? && lock.Ok? ==> r.ret == open.fd && |r.calls| == 2 && r.errno == errnoIn
    ensures r.ret >= 0 <==> open.Ok? && lock.Ok?
  {
    var o := Open(PidPath(prog), O_CREAT | O_RDWR);
    match open
    case Fails(e) => LockResult(-1, e, [o])
    case Ok(fd) =>
      match lock
      case Fails(e) => LockResult(-1, e, [o, Flock(fd, LOCK_EX | LOCK_NB), Close(fd)])
      case Ok(_) => LockResult(fd, errnoIn, [o, Flock(fd, LOCK_EX | LOCK_NB)])
  }

  /** No descriptor is left open on failure: every path that returns -1 after opening closes it. */
  lemma LockFailureClosesFd(prog: string, open: SysResult, lock: SysResult, errnoIn: int)
    requires open.Ok?
    ensures var r := SingleInstanceLock(prog, open, lock, errnoIn);
            r.ret == -1 <==> Close(open.fd) in r.calls
  {
  }
}

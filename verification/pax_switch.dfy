/**
  The clearcreek PCIe-switch (PAX) firmware layer: the advisory lock on
  `/tmp/pax_lock`, the image-type gate, the update call, the three cached
  version getters, the die-temperature read and cache invalidation.

  Everything the code does is modelled as a pure function of a process
  state (`Pax`: lock held or not, the volatile key-value cache, and the
  ordered trace of effects) and an environment (`PaxEnv`) that fixes what
  the foreign calls answer: the power state, whether `open`/`flock` of the
  lock file succeed, the update tool's exit status, what the switchtec SDK
  returns and which `kv_set` calls the key-value store refuses.

  The lock is `flock(LOCK_EX)` on a freshly opened descriptor.  Within one
  process, a second acquisition while an earlier descriptor still holds the
  lock waits on the process itself and never returns; the model calls such
  a call `Stuck`.  The `open` of the lock file comes first, so when it fails
  the call returns -1 whether or not the lock is held.
 */
module PaxSwitch {
  import opened Common

  // ---------------------------------------------------------------------------
  // Entities
  // ---------------------------------------------------------------------------

  /** The sub-image a caller asks for (`PAX_BL2`, `PAX_IMG`, `PAX_CFG`, or any other code). */
  datatype PaxComp = CompBl2 | CompImg | CompCfg | CompOther(code: nat)

  /** The type tag `switchtec_fw_file_info` reads from an image header. */
  datatype FwType = TypeBl2 | TypeImg | TypeCfg | TypeOther(tag: nat)

  /** What opening and parsing the candidate image file yields. */
  datatype ImageProbe = Unopenable | Unparsable | Parsed(fwType: FwType)

  /** How an attempt to take the lock ends: `open` fails, `flock` fails, or the lock is taken. */
  datatype LockAttempt = OpenFails | FlockFails | Acquired

  /** The status `system()` reports for the update command. */
  datatype ExitStatus = Exited(code: int) | Killed(signal: nat)

  /** Active partition versions from `switchtec_fw_part_summary`. */
  datatype Summary = Summary(bl2: string, img: string)

  /** Observable effects, in the order the code performs them. */
  datatype Event =
    | PowerQueried
    | LockTaken
    | LockReleased
    | ToolRun
    | DeviceOpened
    | DeviceClosed
    | CacheRead(key: string)
    | CacheWrite(key: string, value: string)   // a `kv_set` call, whether or not the store takes it
    | CacheDelete(key: string)

  /** Process state: whether this process holds the PAX lock, the version cache, the trace. */
  datatype Pax = Pax(lockHeld: bool, cache: map<string, string>, trace: seq<Event>)

  /** Answers of the foreign calls for one operation. */
  datatype PaxEnv = PaxEnv(
    serverOff: bool,
    lock: LockAttempt,
    toolStatus: ExitStatus,
    deviceOpens: bool,
    summary: Option<Summary>,
    gasMapOk: bool,
    cfgRegister: nat,
    sensorCmdStatus: int,
    setFails: set<string>)   // the keys whose `kv_set` fails in this call

  /** A call either returns (with a code, a version string and the new state) or waits forever. */
  datatype Reply = Done(ret: int, ver: string, st: Pax) | Stuck(st: Pax)

  /** Sensor-read result: a value or `ERR_SENSOR_NA`. */
  datatype SensorReply = SensorOk(st: Pax) | SensorNa(st: Pax) | SensorStuck(st: Pax)

  // ---------------------------------------------------------------------------
  // Cache keys
  // ---------------------------------------------------------------------------

  function Bl2Key(id: nat): string { "pax" + NatToDecimal(id) + "_bl2" }
  function ImgKey(id: nat): string { "pax" + NatToDecimal(id) + "_img" }
  function CfgKey(id: nat): string { "pax" + NatToDecimal(id) + "_cfg" }

  /** The three keys of one switch are pairwise different. */
  lemma KeysDistinct(id: nat)
    ensures Bl2Key(id) != ImgKey(id) && Bl2Key(id) != CfgKey(id) && ImgKey(id) != CfgKey(id)
  {
    var d := NatToDecimal(id);
    var n := 3 + |d|;
    assert Bl2Key(id)[n + 1] == 'b';
    assert ImgKey(id)[n + 1] == 'i';
    assert CfgKey(id)[n + 1] == 'c';
  }

  // ---------------------------------------------------------------------------
  // Lock
  // ---------------------------------------------------------------------------

  function Emit(s: Pax, e: Event): Pax {
    s.(trace := s.trace + [e])
  }

  /**
    `pax_lock`: returns the new state and whether the lock was taken, or
    None when the lock file opened but the process already holds the lock
    (the `flock` waits on itself).  A failed `open` returns before any
    `flock`, and a failed `open` or `flock` leaves the state as it was.
   */
  function PaxLock(s: Pax, attempt: LockAttempt): (r: Option<(bool, Pax)>)
    ensures s.lockHeld && attempt != OpenFails <==> r.None?
    ensures r.Some? ==> (r.value.0 <==> attempt == Acquired)
    ensures r.Some? && r.value.0 ==> r.value.1 == Pax(true, s.cache, s.trace + [LockTaken])
    ensures r.Some? && !r.value.0 ==> r.value.1 == s
  {
    if attempt == OpenFails then Some((false, s))
    else if s.lockHeld then None
    else if attempt == Acquired then Some((true, Emit(s.(lockHeld := true), LockTaken)))
    else Some((false, s))
  }

  /** `pax_unlock` on a descriptor `pax_lock` returned: the lock becomes free. */
  function PaxUnlock(s: Pax): (t: Pax)
    ensures !t.lockHeld && t.cache == s.cache && t.trace == s.trace + [LockReleased]
  {
    Emit(s.(lockHeld := false), LockReleased)
  }

  // ---------------------------------------------------------------------------
  // Image-type gate
  // ---------------------------------------------------------------------------

  predicate Paired(comp: PaxComp, t: FwType) {
    (comp == CompBl2 && t == TypeBl2) || (comp == CompImg && t == TypeImg) || (comp == CompCfg && t == TypeCfg)
  }

  /** `pal_check_pax_fw_type`: the return code and whether a descriptor is left open. */
  function CheckPaxFwType(comp: PaxComp, probe: ImageProbe): (r: (int, bool))
    ensures r.0 == 0 || r.0 == -1
    ensures r.0 == 0 <==> probe.Parsed? && Paired(comp, probe.fwType)
    ensures r.1 <==> probe == Unparsable
  {
    match probe
    case Unopenable => (-1, false)
    case Unparsable => (-1, true)
    case Parsed(t) =>
      if (comp == CompBl2 && t == TypeBl2) || (comp == CompImg && t == TypeImg) || (comp == CompCfg && t == TypeCfg)
      then (0, false) else (-1, false)
  }

  /** Each sub-image accepts exactly one type tag, and no tag opens two sub-images. */
  lemma FwTypeGateExclusive(c1: PaxComp, c2: PaxComp, t: FwType)
    requires CheckPaxFwType(c1, Parsed(t)).0 == 0 && CheckPaxFwType(c2, Parsed(t)).0 == 0
    ensures c1 == c2
  {
  }

  // ---------------------------------------------------------------------------
  // Cache invalidation
  // ---------------------------------------------------------------------------

  /** `pal_clear_pax_cache`. */
  function ClearPaxCache(s: Pax, id: nat): (t: Pax)
    ensures t.lockHeld == s.lockHeld
    ensures t.cache == s.cache - {Bl2Key(id), ImgKey(id), CfgKey(id)}
    ensures t.trace == s.trace + [CacheDelete(Bl2Key(id)), CacheDelete(ImgKey(id)), CacheDelete(CfgKey(id))]
  {
    var s1 := Emit(s.(cache := s.cache - {Bl2Key(id)}), CacheDelete(Bl2Key(id)));
    var s2 := Emit(s1.(cache := s1.cache - {ImgKey(id)}), CacheDelete(ImgKey(id)));
    var s3 := Emit(s2.(cache := s2.cache - {CfgKey(id)}), CacheDelete(CfgKey(id)));
    s3
  }

  // ---------------------------------------------------------------------------
  // Update
  // ---------------------------------------------------------------------------

  /** `pal_pax_fw_update`. */
  function PaxFwUpdate(s: Pax, id: nat, env: PaxEnv): (r: Reply)
    ensures r.st.cache == s.cache
    ensures env.serverOff ==> r == Done(-1, "", Emit(s, PowerQueried))
    ensures !env.serverOff && (env.lock == OpenFails || (!s.lockHeld && env.lock == FlockFails)) ==>
              r == Done(-1, "", Emit(s, PowerQueried))
    ensures r.Stuck? <==> !env.serverOff && s.lockHeld && env.lock != OpenFails
    // With the lock taken, the tool runs and the lock is released before the status is looked at.
    ensures !env.serverOff && !s.lockHeld && env.lock == Acquired ==>
              r.Done? && r.st.trace == s.trace + [PowerQueried, LockTaken, ToolRun, LockReleased]
    ensures r.Done? ==> (r.ret == 0 <==> !env.serverOff && env.lock == Acquired && env.toolStatus == Exited(0))
    ensures r.Done? && !s.lockHeld ==> !r.st.lockHeld
  {
    var s1 := Emit(s, PowerQueried);
    if env.serverOff then Done(-1, "", s1)
    else
      match PaxLock(s1, env.lock)
      case None => Stuck(s1)
      case Some((taken, s2)) =>
        if !taken then Done(-1, "", s2)
        else
          var s3 := PaxUnlock(Emit(s2, ToolRun));
          if env.toolStatus.Exited? && env.toolStatus.code == 0 then Done(0, "", s3) else Done(-1, "", s3)
  }

  /** The update never reads, writes or deletes a cache entry. */
  lemma UpdateLeavesCacheAlone(s: Pax, id: nat, env: PaxEnv, e: Event)
    requires e in PaxFwUpdate(s, id, env).st.trace && e !in s.trace
    ensures !e.CacheRead? && !e.CacheWrite? && !e.CacheDelete?
  {
  }

  /** With the lock free, every update path ends with the lock free again, so a second waiter can take it. */
  lemma UpdateNeverLeaksLock(s: Pax, id: nat, env: PaxEnv)
    requires !s.lockHeld
    ensures PaxFwUpdate(s, id, env).Done?
    ensures !PaxFwUpdate(s, id, env).st.lockHeld
  {
  }

  // ---------------------------------------------------------------------------
  // Version getters
  // ---------------------------------------------------------------------------

  /**
    `get_pax_ver_sum`.  On a device-open failure it returns without
    releasing the lock (the descriptor stays open and locked).
   */
  function GetPaxVerSum(s: Pax, env: PaxEnv): (r: Option<(Option<Summary>, Pax)>)
    ensures s.lockHeld && env.lock != OpenFails <==> r.None?
    ensures r.Some? && env.lock != Acquired ==> r.value == (None, s)
    ensures r.Some? && r.value.0.Some? ==> env.lock == Acquired && env.deviceOpens && r.value.0 == env.summary
    ensures r.Some? && env.lock == Acquired && env.deviceOpens ==>
              r.value.1 == Pax(false, s.cache, s.trace + [LockTaken, DeviceOpened, DeviceClosed, LockReleased])
    ensures r.Some? && env.lock == Acquired && !env.deviceOpens ==>
              r.value == (None, Pax(true, s.cache, s.trace + [LockTaken]))
  {
    match PaxLock(s, env.lock)
    case None => None
    case Some((taken, s1)) =>
      if !taken then Some((None, s1))
      else if !env.deviceOpens then Some((None, s1))
      else
        var s2 := Emit(Emit(s1, DeviceOpened), DeviceClosed);
        Some((env.summary, PaxUnlock(s2)))
  }

  /** `kv_set(key, value)` with its result ignored: the cache takes the value unless the store refuses it. */
  function KvSet(s: Pax, key: string, value: string, fails: set<string>): (t: Pax)
    ensures t.lockHeld == s.lockHeld && t.trace == s.trace + [CacheWrite(key, value)]
    ensures key !in fails ==> t.cache == s.cache[key := value]
    ensures key in fails ==> t.cache == s.cache
  {
    Emit(if key in fails then s else s.(cache := s.cache[key := value]), CacheWrite(key, value))
  }

  /** Store both versions of a summary, the `first` key before the `second`. */
  function StoreVersions(s: Pax, firstKey: string, firstVer: string, secondKey: string, secondVer: string,
                         fails: set<string>): Pax {
    KvSet(KvSet(s, firstKey, firstVer, fails), secondKey, secondVer, fails)
  }

  /**
    The shared shape of `pal_get_pax_bl2_ver` (`wantBl2`) and
    `pal_get_pax_fw_ver` (`!wantBl2`): cache lookup, power check, summary,
    then both keys written with the requested one last.
   */
  function GetSummaryVersion(s: Pax, id: nat, env: PaxEnv, wantBl2: bool): Reply {
    var key := if wantBl2 then Bl2Key(id) else ImgKey(id);
    var s0 := Emit(s, CacheRead(key));
    if key in s.cache then Done(0, s.cache[key], s0)
    else
      var s1 := Emit(s0, PowerQueried);
      if env.serverOff then Done(-1, "", s1)
      else
        match GetPaxVerSum(s1, env)
        case None => Stuck(s1)
        case Some((sum, s2)) =>
          if sum.None? then Done(-1, "", s2)
          else
            var v := sum.value;
            if wantBl2 then Done(0, v.bl2, StoreVersions(s2, ImgKey(id), v.img, Bl2Key(id), v.bl2, env.setFails))
            else Done(0, v.img, StoreVersions(s2, Bl2Key(id), v.bl2, ImgKey(id), v.img, env.setFails))
  }

  /** `pal_get_pax_bl2_ver`. */
  function GetPaxBl2Ver(s: Pax, id: nat, env: PaxEnv): (r: Reply)
    // A hit answers from the cache with no power check, no lock and no device access.
    ensures Bl2Key(id) in s.cache ==> r == Done(0, s.cache[Bl2Key(id)], Emit(s, CacheRead(Bl2Key(id))))
    // A miss with a summary sets the image key, then the BL2 key, and answers the BL2 version;
    // a key whose set fails stays as it was.
    ensures Bl2Key(id) !in s.cache && !s.lockHeld && !env.serverOff && env.lock == Acquired
            && env.deviceOpens && env.summary.Some? ==>
              r.Done? && r.ret == 0 && r.ver == env.summary.value.bl2 && !r.st.lockHeld
              && |r.st.trace| >= 2 && r.st.trace[|r.st.trace| - 2..] == [CacheWrite(ImgKey(id), env.summary.value.img),
                                                   CacheWrite(Bl2Key(id), env.summary.value.bl2)]
              && (Bl2Key(id) in r.st.cache <==> Bl2Key(id) !in env.setFails)
              && (Bl2Key(id) !in env.setFails ==> r.st.cache[Bl2Key(id)] == env.summary.value.bl2)
              && (ImgKey(id) !in env.setFails ==> ImgKey(id) in r.st.cache
                                                   && r.st.cache[ImgKey(id)] == env.summary.value.img)
              && (ImgKey(id) in env.setFails ==> (ImgKey(id) in r.st.cache <==> ImgKey(id) in s.cache)
                                                 && (ImgKey(id) in s.cache ==> r.st.cache[ImgKey(id)] == s.cache[ImgKey(id)]))
              && (forall k :: k != Bl2Key(id) && k != ImgKey(id) ==>
                                (k in r.st.cache <==> k in s.cache) && (k in s.cache ==> r.st.cache[k] == s.cache[k]))
    ensures r.Done? && r.ret != 0 ==> r.ret == -1 && r.st.cache == s.cache
  {
    KeysDistinct(id);
    GetSummaryVersion(s, id, env, true)
  }

  /** `pal_get_pax_fw_ver`. */
  function GetPaxFwVer(s: Pax, id: nat, env: PaxEnv): (r: Reply)
    ensures ImgKey(id) in s.cache ==> r == Done(0, s.cache[ImgKey(id)], Emit(s, CacheRead(ImgKey(id))))
    ensures ImgKey(id) !in s.cache && !s.lockHeld && !env.serverOff && env.lock == Acquired
            && env.deviceOpens && env.summary.Some? ==>
              r.Done? && r.ret == 0 && r.ver == env.summary.value.img && !r.st.lockHeld
              && |r.st.trace| >= 2 && r.st.trace[|r.st.trace| - 2..] == [CacheWrite(Bl2Key(id), env.summary.value.bl2),
                                                   CacheWrite(ImgKey(id), env.summary.value.img)]
              && (ImgKey(id) in r.st.cache <==> ImgKey(id) !in env.setFails)
              && (ImgKey(id) !in env.setFails ==> r.st.cache[ImgKey(id)] == env.summary.value.img)
              && (Bl2Key(id) !in env.setFails ==> Bl2Key(id) in r.st.cache
                                                   && r.st.cache[Bl2Key(id)] == env.summary.value.bl2)
              && (Bl2Key(id) in env.setFails ==> (Bl2Key(id) in r.st.cache <==> Bl2Key(id) in s.cache)
                                                 && (Bl2Key(id) in s.cache ==> r.st.cache[Bl2Key(id)] == s.cache[Bl2Key(id)]))
              && (forall k :: k != Bl2Key(id) && k != ImgKey(id) ==>
                                (k in r.st.cache <==> k in s.cache) && (k in s.cache ==> r.st.cache[k] == s.cache[k]))
    ensures r.Done? && r.ret != 0 ==> r.ret == -1 && r.st.cache == s.cache
  {
    KeysDistinct(id);
    GetSummaryVersion(s, id, env, false)
  }

  /** `pal_get_pax_cfg_ver`: the configuration version is register 0x2104 of the GAS map, printed `%x`. */
  function GetPaxCfgVer(s: Pax, id: nat, env: PaxEnv): (r: Reply)
    ensures CfgKey(id) in s.cache ==> r == Done(0, s.cache[CfgKey(id)], Emit(s, CacheRead(CfgKey(id))))
    ensures r.Done? && r.ret != 0 ==> r.ret == -1 && r.st.cache == s.cache
    // The cache changes only when the register map succeeded and the store took the value.
    ensures r.Done? && r.st.cache != s.cache ==>
              env.gasMapOk && CfgKey(id) !in env.setFails
              && r.st.cache == s.cache[CfgKey(id) := NatToHex(env.cfgRegister)]
    ensures CfgKey(id) !in s.cache && !s.lockHeld && !env.serverOff && env.lock == Acquired ==>
              r.Done? && !r.st.lockHeld
              && (r.ret == 0 <==> env.deviceOpens && env.gasMapOk)
              && (CfgKey(id) in r.st.cache <==> r.ret == 0 && CfgKey(id) !in env.setFails)
  {
    var key := CfgKey(id);
    var s0 := Emit(s, CacheRead(key));
    if key in s.cache then Done(0, s.cache[key], s0)
    else
      var s1 := Emit(s0, PowerQueried);
      if env.serverOff then Done(-1, "", s1)
      else
        match PaxLock(s1, env.lock)
        case None => Stuck(s1)
        case Some((taken, s2)) =>
          if !taken then Done(-1, "", s2)
          else if !env.deviceOpens then Done(-1, "", PaxUnlock(s2))
          else
            var s3 := PaxUnlock(Emit(Emit(s2, DeviceOpened), DeviceClosed));
            if env.gasMapOk then
              var v := NatToHex(env.cfgRegister);
              Done(0, v, KvSet(s3, key, v, env.setFails))
            else Done(-1, "", s3)
  }

  /** `pal_read_pax_dietemp`, lock discipline only (the temperature conversion is not modelled). */
  function ReadPaxDieTemp(s: Pax, env: PaxEnv): (r: SensorReply)
    ensures r.st.cache == s.cache
    ensures !s.lockHeld ==> !r.SensorStuck? && !r.st.lockHeld
    ensures r.SensorStuck? <==> !env.serverOff && s.lockHeld && env.lock != OpenFails
    ensures r.SensorOk? <==>
              !s.lockHeld && !env.serverOff && env.lock == Acquired && env.deviceOpens && env.sensorCmdStatus >= 0
  {
    var s1 := Emit(s, PowerQueried);
    if env.serverOff then SensorNa(s1)
    else
      match PaxLock(s1, env.lock)
      case None => SensorStuck(s1)
      case Some((taken, s2)) =>
        if !taken then SensorNa(s2)
        else if !env.deviceOpens then SensorNa(PaxUnlock(s2))
        else
          var s3 := PaxUnlock(Emit(Emit(s2, DeviceOpened), DeviceClosed));
          if env.sensorCmdStatus < 0 then SensorNa(s3) else SensorOk(s3)
  }

  // ---------------------------------------------------------------------------
  // Properties across calls
  // ---------------------------------------------------------------------------

  /** The lock events of a trace, in order. */
  function LockEvents(t: seq<Event>): (l: seq<Event>)
    ensures forall e :: e in l ==> e == LockTaken || e == LockReleased
  {
    if t == [] then []
    else (if t[0] == LockTaken || t[0] == LockReleased then [t[0]] else []) + LockEvents(t[1..])
  }

  lemma {:induction false} LockEventsAppend(a: seq<Event>, b: seq<Event>)
    ensures LockEvents(a + b) == LockEvents(a) + LockEvents(b)
  {
    if a == [] {
      assert a + b == b;
    } else {
      assert (a + b)[0] == a[0];
      assert (a + b)[1..] == a[1..] + b;
      LockEventsAppend(a[1..], b);
    }
  }

  /** The events a cfg read can append when the lock starts free: one of five shapes. */
  predicate CfgShape(key: string, v: string, added: seq<Event>) {
    var pre := [CacheRead(key), PowerQueried];
    added == [CacheRead(key)] || added == pre || added == pre + [LockTaken, LockReleased]
    || added == pre + [LockTaken, DeviceOpened, DeviceClosed, LockReleased]
    || added == pre + [LockTaken, DeviceOpened, DeviceClosed, LockReleased] + [CacheWrite(key, v)]
  }

  /** What follows a prefix is what was appended to it. */
  lemma AppendedAfter(t: seq<Event>, added: seq<Event>)
    ensures StartsWith(t + added, t) && (t + added)[|t|..] == added
  {
    assert (t + added)[..|t|] == t;
  }

  /** A cfg read that starts with the lock free returns, having appended one of the shapes. */
  lemma CfgVerTraceShape(s: Pax, id: nat, env: PaxEnv)
    requires !s.lockHeld
    ensures var r := GetPaxCfgVer(s, id, env);
            r.Done? && StartsWith(r.st.trace, s.trace)
            && CfgShape(CfgKey(id), NatToHex(env.cfgRegister), r.st.trace[|s.trace|..])
  {
    var key := CfgKey(id);
    var v := NatToHex(env.cfgRegister);
    var r := GetPaxCfgVer(s, id, env);
    var pre := [CacheRead(key), PowerQueried];
    var span := [LockTaken, DeviceOpened, DeviceClosed, LockReleased];
    var added: seq<Event>;
    if key in s.cache {
      added := [CacheRead(key)];
    } else if env.serverOff || env.lock != Acquired {
      added := pre;
    } else if !env.deviceOpens {
      added := pre + [LockTaken, LockReleased];
    } else if !env.gasMapOk {
      added := pre + span;
    } else {
      added := pre + span + [CacheWrite(key, v)];
    }
    assert r.st.trace == s.trace + added;
    AppendedAfter(s.trace, added);
  }

  lemma LockEventsSingle(e: Event)
    ensures LockEvents([e]) == (if e == LockTaken || e == LockReleased then [e] else [])
  {
    assert [e][1..] == [];
  }

  /** Lock events of `a + [e]`, one step at a time. */
  lemma LockEventsSnoc(a: seq<Event>, e: Event)
    ensures LockEvents(a + [e]) == LockEvents(a) + (if e == LockTaken || e == LockReleased then [e] else [])
  {
    LockEventsAppend(a, [e]);
    LockEventsSingle(e);
  }

  /** The cache lookup and the power query before the lock take no lock events. */
  lemma PreludeHasNoLock(key: string)
    ensures LockEvents([CacheRead(key)]) == []
    ensures LockEvents([CacheRead(key), PowerQueried]) == []
  {
    LockEventsSingle(CacheRead(key));
    LockEventsSnoc([CacheRead(key)], PowerQueried);
    assert [CacheRead(key)] + [PowerQueried] == [CacheRead(key), PowerQueried];
  }

  /** Taking the lock and releasing it straight away. */
  lemma TakeThenRelease()
    ensures LockEvents([LockTaken, LockReleased]) == [LockTaken, LockReleased]
  {
    LockEventsSingle(LockTaken);
    LockEventsSnoc([LockTaken], LockReleased);
    assert [LockTaken] + [LockReleased] == [LockTaken, LockReleased];
  }

  /** Taking the lock, opening and closing the device, releasing the lock. */
  lemma TakeOpenCloseRelease()
    ensures LockEvents([LockTaken, DeviceOpened, DeviceClosed, LockReleased]) == [LockTaken, LockReleased]
  {
    var t := [LockTaken, DeviceOpened, DeviceClosed, LockReleased];
    assert t == [LockTaken] + [DeviceOpened, DeviceClosed] + [LockReleased];
    LockEventsAppend([LockTaken] + [DeviceOpened, DeviceClosed], [LockReleased]);
    LockEventsAppend([LockTaken], [DeviceOpened, DeviceClosed]);
    LockEventsSingle(LockTaken);
    LockEventsSingle(LockReleased);
    assert [DeviceOpened, DeviceClosed][1..] == [DeviceClosed];
    LockEventsSingle(DeviceClosed);
  }

  /** Each shape holds no lock events, or the lock taken and then released. */
  lemma LockEventsOfCfgShapes(key: string, v: string, added: seq<Event>)
    requires CfgShape(key, v, added)
    ensures LockEvents(added) == [] || LockEvents(added) == [LockTaken, LockReleased]
  {
    var pre := [CacheRead(key), PowerQueried];
    var span := [LockTaken, DeviceOpened, DeviceClosed, LockReleased];
    PreludeHasNoLock(key);
    TakeThenRelease();
    TakeOpenCloseRelease();
    LockEventsAppend(pre, [LockTaken, LockReleased]);
    LockEventsAppend(pre, span);
    LockEventsAppend(pre + span, [CacheWrite(key, v)]);
    LockEventsSingle(CacheWrite(key, v));
  }

  /** In the cfg getter, every path that took the lock releases it exactly once, after taking it. */
  lemma {:induction false} CfgVerReleasesOnce(s: Pax, id: nat, env: PaxEnv)
    requires !s.lockHeld
    ensures var r := GetPaxCfgVer(s, id, env);
            r.Done? && StartsWith(r.st.trace, s.trace)
            && (LockEvents(r.st.trace[|s.trace|..]) == []
                || LockEvents(r.st.trace[|s.trace|..]) == [LockTaken, LockReleased])
  {
    CfgVerTraceShape(s, id, env);
    var r := GetPaxCfgVer(s, id, env);
    LockEventsOfCfgShapes(CfgKey(id), NatToHex(env.cfgRegister), r.st.trace[|s.trace|..]);
  }

  /** The summary path takes the lock and, when the device does not open, never releases it. */
  lemma VerSumLeaksLockOnOpenFailure(s: Pax, id: nat, env: PaxEnv)
    requires Bl2Key(id) !in s.cache && !s.lockHeld
    requires !env.serverOff && env.lock == Acquired && !env.deviceOpens
    ensures var r := GetPaxBl2Ver(s, id, env);
            r.Done? && r.ret == -1 && r.st.lockHeld && LockReleased !in r.st.trace[|s.trace|..]
  {
    var r := GetPaxBl2Ver(s, id, env);
    assert r.st.trace[|s.trace|..] == [CacheRead(Bl2Key(id)), PowerQueried, LockTaken];
  }

  /**
    After that leak, the next version read that misses the cache and opens
    the lock file waits on the process's own lock forever.
   */
  lemma LeakedLockBlocksNextMiss(s: Pax, id: nat, env: PaxEnv, env2: PaxEnv)
    requires Bl2Key(id) !in s.cache && ImgKey(id) !in s.cache && !s.lockHeld
    requires !env.serverOff && env.lock == Acquired && !env.deviceOpens
    requires !env2.serverOff && env2.lock != OpenFails
    ensures GetPaxFwVer(GetPaxBl2Ver(s, id, env).st, id, env2).Stuck?
  {
  }

  /** When the lock file cannot be opened, that next read returns -1 instead, with the lock still held. */
  lemma LeakedLockOpenFailureReturns(s: Pax, id: nat, env: PaxEnv, env2: PaxEnv)
    requires Bl2Key(id) !in s.cache && ImgKey(id) !in s.cache && !s.lockHeld
    requires !env.serverOff && env.lock == Acquired && !env.deviceOpens
    requires env2.lock == OpenFails
    ensures var r := GetPaxFwVer(GetPaxBl2Ver(s, id, env).st, id, env2);
            r.Done? && r.ret == -1 && r.st.lockHeld
  {
  }

  /** On the path where the device opens, the summary read releases the lock it took. */
  lemma VerSumReleasesWhenDeviceOpens(s: Pax, env: PaxEnv)
    requires !s.lockHeld && env.lock == Acquired && env.deviceOpens
    ensures var r := GetPaxVerSum(s, env);
            r.Some? && !r.value.1.lockHeld
            && r.value.1.trace[|s.trace|..] == [LockTaken, DeviceOpened, DeviceClosed, LockReleased]
  {
    var r := GetPaxVerSum(s, env);
    assert r.value.1.trace == s.trace + [LockTaken, DeviceOpened, DeviceClosed, LockReleased];
  }

  /** The events the BL2 getter appends when the lock starts free, path by path. */
  function Bl2Added(s: Pax, id: nat, env: PaxEnv): seq<Event> {
    var key := Bl2Key(id);
    var pre := [CacheRead(key), PowerQueried];
    if key in s.cache then [CacheRead(key)]
    else if env.serverOff || env.lock != Acquired then pre
    else if !env.deviceOpens then pre + [LockTaken]
    else if env.summary.None? then pre + [LockTaken, DeviceOpened, DeviceClosed, LockReleased]
    else
      var v := env.summary.value;
      pre + [LockTaken, DeviceOpened, DeviceClosed, LockReleased]
      + [CacheWrite(ImgKey(id), v.img), CacheWrite(key, v.bl2)]
  }

  /** With the lock free, the BL2 getter returns and appends exactly those events. */
  lemma Bl2Appends(s: Pax, id: nat, env: PaxEnv)
    requires !s.lockHeld
    ensures GetPaxBl2Ver(s, id, env).Done?
    ensures GetPaxBl2Ver(s, id, env).st.trace == s.trace + Bl2Added(s, id, env)
  {
    var key := Bl2Key(id);
    var t := s.trace;
    if key !in s.cache && !env.serverOff && env.lock == Acquired {
      var locked := t + [CacheRead(key), PowerQueried, LockTaken];
      assert locked == t + [CacheRead(key)] + [PowerQueried] + [LockTaken];
      if env.deviceOpens {
        var released := locked + [DeviceOpened, DeviceClosed, LockReleased];
        assert released == locked + [DeviceOpened] + [DeviceClosed] + [LockReleased];
        if env.summary.Some? {
          var v := env.summary.value;
          assert released + [CacheWrite(ImgKey(id), v.img), CacheWrite(key, v.bl2)]
              == released + [CacheWrite(ImgKey(id), v.img)] + [CacheWrite(key, v.bl2)];
        }
      }
    }
  }

  /** In those events, a cache write comes only after the release at position 5. */
  lemma Bl2AddedWritesLate(s: Pax, id: nat, env: PaxEnv, i: nat)
    requires i < |Bl2Added(s, id, env)| && Bl2Added(s, id, env)[i].CacheWrite?
    ensures 5 < i && Bl2Added(s, id, env)[5] == LockReleased
  {
  }

  /** Cache writes of a getter come after it released the lock. */
  lemma CacheWrittenAfterRelease(s: Pax, id: nat, env: PaxEnv, i: nat)
    requires !s.lockHeld
    requires |s.trace| <= i < |GetPaxBl2Ver(s, id, env).st.trace|
    requires GetPaxBl2Ver(s, id, env).st.trace[i].CacheWrite?
    ensures var t := GetPaxBl2Ver(s, id, env).st.trace;
            exists j :: |s.trace| <= j < i && t[j] == LockReleased
  {
    var t := GetPaxBl2Ver(s, id, env).st.trace;
    var k := |s.trace|;
    Bl2Appends(s, id, env);
    var added := Bl2Added(s, id, env);
    assert t[i] == added[i - k];
    Bl2AddedWritesLate(s, id, env, i - k);
    assert t[k + 5] == added[5];
  }

  /**
    Two reads with no update in between agree, and the second only consults
    the cache, provided the first did not have to store a value the store
    refused.
   */
  lemma CachedReadIsIdempotent(s: Pax, id: nat, env: PaxEnv, env2: PaxEnv)
    requires GetPaxBl2Ver(s, id, env).Done? && GetPaxBl2Ver(s, id, env).ret == 0
    requires Bl2Key(id) in s.cache || Bl2Key(id) !in env.setFails
    ensures var r1 := GetPaxBl2Ver(s, id, env);
            var r2 := GetPaxBl2Ver(r1.st, id, env2);
            r2 == Done(0, r1.ver, Emit(r1.st, CacheRead(Bl2Key(id))))
  {
    KeysDistinct(id);
  }

  /** Same for the configuration version. */
  lemma CachedCfgReadIsIdempotent(s: Pax, id: nat, env: PaxEnv, env2: PaxEnv)
    requires GetPaxCfgVer(s, id, env).Done? && GetPaxCfgVer(s, id, env).ret == 0
    requires CfgKey(id) in s.cache || CfgKey(id) !in env.setFails
    ensures var r1 := GetPaxCfgVer(s, id, env);
            var r2 := GetPaxCfgVer(r1.st, id, env2);
            r2 == Done(0, r1.ver, Emit(r1.st, CacheRead(CfgKey(id))))
  {
  }

  /**
    The caveat is real: `kv_set`'s result is ignored, so when the store
    refuses the BL2 key the read still returns 0, and the next read misses
    and goes back to the device.
   */
  lemma FailedSetForcesDeviceRead(s: Pax, id: nat, env: PaxEnv, env2: PaxEnv)
    requires Bl2Key(id) !in s.cache && !s.lockHeld
    requires !env.serverOff && env.lock == Acquired && env.deviceOpens && env.summary.Some?
    requires Bl2Key(id) in env.setFails
    requires !env2.serverOff && env2.lock == Acquired && env2.deviceOpens
    ensures var r1 := GetPaxBl2Ver(s, id, env);
            var r2 := GetPaxBl2Ver(r1.st, id, env2);
            r1.Done? && r1.ret == 0 && Bl2Key(id) !in r1.st.cache
            && r2.Done? && DeviceOpened in r2.st.trace[|r1.st.trace|..]
  {
    var r1 := GetPaxBl2Ver(s, id, env);
    var r2 := GetPaxBl2Ver(r1.st, id, env2);
    assert r2.st.trace[|r1.st.trace| + 3] == DeviceOpened;
  }

  /** Likewise for the configuration version. */
  lemma FailedCfgSetForcesDeviceRead(s: Pax, id: nat, env: PaxEnv, env2: PaxEnv)
    requires CfgKey(id) !in s.cache && !s.lockHeld
    requires !env.serverOff && env.lock == Acquired && env.deviceOpens && env.gasMapOk
    requires CfgKey(id) in env.setFails
    requires !env2.serverOff && env2.lock == Acquired && env2.deviceOpens
    ensures var r1 := GetPaxCfgVer(s, id, env);
            var r2 := GetPaxCfgVer(r1.st, id, env2);
            r1.Done? && r1.ret == 0 && CfgKey(id) !in r1.st.cache
            && r2.Done? && DeviceOpened in r2.st.trace[|r1.st.trace|..]
  {
    var r1 := GetPaxCfgVer(s, id, env);
    var r2 := GetPaxCfgVer(r1.st, id, env2);
    assert r2.st.trace[|r1.st.trace| + 3] == DeviceOpened;
  }

  /**
    After an update followed by cache invalidation, the next read of any
    sub-image misses the cache and goes to the device instead of reporting the
    pre-update version.
   */
  lemma InvalidationForcesFreshRead(s: Pax, id: nat, env: PaxEnv, env2: PaxEnv)
    requires !s.lockHeld
    requires PaxFwUpdate(s, id, env).ret == 0
    requires !env2.serverOff && env2.lock == Acquired && env2.deviceOpens
    ensures var t := ClearPaxCache(PaxFwUpdate(s, id, env).st, id);
            var r := GetPaxBl2Ver(t, id, env2);
            Bl2Key(id) !in t.cache && r.Done? && DeviceOpened in r.st.trace[|t.trace|..]
  {
    var t := ClearPaxCache(PaxFwUpdate(s, id, env).st, id);
    var r := GetPaxBl2Ver(t, id, env2);
    assert r.st.trace[|t.trace| + 3] == DeviceOpened;
  }
}

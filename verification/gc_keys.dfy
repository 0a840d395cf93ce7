/**
  grandcanyon platform configuration keys (pal.c): the table of known keys
  with their defaults, key lookup by configured prefix, get and set through
  the persistent key-value store, and the create-only population of
  defaults.  Also the FRU name table and its lookup.

  The persistent store is a `map<string, string>`; whether a `kv_set` fails
  for a reason other than the key already existing is an oracle.
 */
module GcKeys {
  import opened Common

  /** One row of `key_cfg`: a key name and its default value (no row has a hook function). */
  datatype KeyCfg = KeyCfg(name: string, defVal: string)

  /** `key_cfg`, without its terminating NULL row. */
  const KEY_CFG: seq<KeyCfg> := [
    KeyCfg("system_identify", "off"),
    KeyCfg("server_boot_order", "0100090203ff"),
    KeyCfg("server_por_cfg", "on"),
    KeyCfg("sysfw_ver", "0"),
    KeyCfg("system_identify_led_interval", "default"),
    KeyCfg("pwr_server_last_state", "on"),
    KeyCfg("system_info", "0")
  ]

  /** `cfg_support_key_list`: the keys cfg-util may set. */
  const CFG_SUPPORT_KEYS: seq<string> := ["server_por_cfg", "system_info"]

  function Names(cfgs: seq<KeyCfg>): (ns: seq<string>)
    ensures |ns| == |cfgs|
    ensures forall i :: 0 <= i < |cfgs| ==> ns[i] == cfgs[i].name
  {
    if cfgs == [] then [] else [cfgs[0].name] + Names(cfgs[1..])
  }

  /**
    The first index `i >= from` whose name is a prefix of `key` (the test
    `strncmp(key, name, strlen(name)) == 0`), or -1.
   */
  function FirstPrefix(key: string, names: seq<string>, from: nat): (r: int)
    requires from <= |names|
    ensures r == -1 || from <= r < |names|
    ensures r >= 0 ==> StartsWith(key, names[r])
    ensures r >= 0 ==> forall j :: from <= j < r ==> !StartsWith(key, names[j])
    ensures r == -1 ==> forall j :: from <= j < |names| ==> !StartsWith(key, names[j])
    decreases |names| - from
  {
    if from == |names| then -1
    else if StartsWith(key, names[from]) then from
    else FirstPrefix(key, names, from + 1)
  }

  /**
    `pal_key_index`: the smallest index whose configured name is a prefix of
    `key`, or -1 when none is.
   */
  function KeyIndex(key: string): (r: int)
    ensures -1 <= r < |KEY_CFG|
    ensures r >= 0 ==> StartsWith(key, KEY_CFG[r].name)
                       && forall j :: 0 <= j < r ==> !StartsWith(key, KEY_CFG[j].name)
    ensures r == -1 <==> forall j :: 0 <= j < |KEY_CFG| ==> !StartsWith(key, KEY_CFG[j].name)
  {
    FirstPrefix(key, Names(KEY_CFG), 0)
  }

  /** `pal_cfg_key_check`: 0 when a cfg-util key is a prefix of `key`, else -1. */
  function CfgKeyCheck(key: string): (r: int)
    ensures r == 0 || r == -1
    ensures r == 0 <==> StartsWith(key, "server_por_cfg") || StartsWith(key, "system_info")
  {
    if FirstPrefix(key, CFG_SUPPORT_KEYS, 0) >= 0 then 0 else -1
  }

  /** A name that differs from `key` at a position both reach is not a prefix of it. */
  lemma NotPrefixAt(key: string, name: string, k: nat)
    requires k < |name| && k < |key| && key[k] != name[k]
    ensures !StartsWith(key, name)
  {
    if |name| <= |key| {
      assert key[..|name|][k] == key[k];
    }
  }

  /** `KeyIndex` is `i` exactly when row `i` is the first whose name is a prefix of `key`. */
  lemma KeyIndexIs(key: string, i: nat)
    requires i < |KEY_CFG| && StartsWith(key, KEY_CFG[i].name)
    requires forall j :: 0 <= j < i ==> !StartsWith(key, KEY_CFG[j].name)
    ensures KeyIndex(key) == i
  {
  }

  /** A name is a prefix of itself. */
  lemma OwnPrefix(name: string)
    ensures StartsWith(name, name)
  {
    assert name[..|name|] == name;
  }

  /**
    Lookup is by prefix, so a longer key shadowed by an earlier one is never
    told apart from it: "system_identify_led_interval" resolves to the row of
    "system_identify", while every other configured key resolves to its own row.
   */
  lemma KeyIndexOfConfiguredKeys()
    ensures KeyIndex("system_identify_led_interval") == 0
    ensures forall i :: 0 <= i < |KEY_CFG| && i != 4 ==> KeyIndex(KEY_CFG[i].name) == i
  {
    ShadowedKey();
    forall i | 0 <= i < |KEY_CFG| && i != 4
      ensures KeyIndex(KEY_CFG[i].name) == i
    {
      KeyRow(i);
    }
  }

  lemma ShadowedKey()
    ensures KeyIndex("system_identify_led_interval") == 0
  {
    assert StartsWith("system_identify_led_interval", KEY_CFG[0].name);
    KeyIndexIs("system_identify_led_interval", 0);
  }

  /** Row `i`'s own name finds row `i`, the shadowed row 4 aside. */
  lemma KeyRow(i: nat)
    requires i < |KEY_CFG| && i != 4
    ensures KeyIndex(KEY_CFG[i].name) == i
  {
    if i == 0 { KeyRow0(); }
    else if i == 1 { KeyRow1(); }
    else if i == 2 { KeyRow2(); }
    else if i == 3 { KeyRow3(); }
    else if i == 5 { KeyRow5(); }
    else { KeyRow6(); }
  }

  lemma KeyRow0()
    ensures KeyIndex(KEY_CFG[0].name) == 0
  {
    OwnPrefix(KEY_CFG[0].name);
    KeyIndexIs(KEY_CFG[0].name, 0);
  }

  lemma KeyRow1()
    ensures KeyIndex(KEY_CFG[1].name) == 1
  {
    var key := KEY_CFG[1].name;
    OwnPrefix(key);
    NotPrefixAt(key, KEY_CFG[0].name, 1);
    KeyIndexIs(key, 1);
  }

  lemma KeyRow2()
    ensures KeyIndex(KEY_CFG[2].name) == 2
  {
    var key := KEY_CFG[2].name;
    OwnPrefix(key);
    NotPrefixAt(key, KEY_CFG[0].name, 1);
    NotPrefixAt(key, KEY_CFG[1].name, 7);
    KeyIndexIs(key, 2);
  }

  lemma KeyRow3()
    ensures KeyIndex(KEY_CFG[3].name) == 3
  {
    var key := KEY_CFG[3].name;
    OwnPrefix(key);
    NotPrefixAt(key, KEY_CFG[0].name, 3);
    NotPrefixAt(key, KEY_CFG[1].name, 1);
    NotPrefixAt(key, KEY_CFG[2].name, 1);
    KeyIndexIs(key, 3);
  }

  lemma KeyRow5()
    ensures KeyIndex(KEY_CFG[5].name) == 5
  {
    var key := KEY_CFG[5].name;
    OwnPrefix(key);
    NotPrefixAt(key, KEY_CFG[0].name, 0);
    NotPrefixAt(key, KEY_CFG[1].name, 0);
    NotPrefixAt(key, KEY_CFG[2].name, 0);
    NotPrefixAt(key, KEY_CFG[3].name, 0);
    NotPrefixAt(key, KEY_CFG[4].name, 0);
    KeyIndexIs(key, 5);
  }

  lemma KeyRow6()
    ensures KeyIndex(KEY_CFG[6].name) == 6
  {
    var key := KEY_CFG[6].name;
    OwnPrefix(key);
    NotPrefixAt(key, KEY_CFG[0].name, 8);
    NotPrefixAt(key, KEY_CFG[1].name, 1);
    NotPrefixAt(key, KEY_CFG[2].name, 1);
    NotPrefixAt(key, KEY_CFG[3].name, 3);
    NotPrefixAt(key, KEY_CFG[4].name, 8);
    NotPrefixAt(key, KEY_CFG[5].name, 0);
    KeyIndexIs(key, 6);
  }

  // ---------------------------------------------------------------------------
  // The persistent store
  // ---------------------------------------------------------------------------

  type Kv = map<string, string>

  /** `pal_get_key_value`: -1 for an unknown key, else `kv_get` of the full key. */
  function GetKeyValue(kv: Kv, key: string): (r: (int, string))
    ensures r.0 == 0 || r.0 == -1
    ensures r.0 == 0 <==> KeyIndex(key) >= 0 && key in kv
    ensures r.0 == 0 ==> r.1 == kv[key]
  {
    if KeyIndex(key) < 0 then (-1, "")
    else if key in kv then (0, kv[key])
    else (-1, "")
  }

  /**
    `pal_set_key_value`: -1 for an unknown key, else `kv_set` of the full key;
    `fault` says the store failed the write.
   */
  function SetKeyValue(kv: Kv, key: string, value: string, fault: bool): (r: (int, Kv))
    ensures r.0 == 0 || r.0 == -1
    ensures r.0 == 0 <==> KeyIndex(key) >= 0 && !fault
    ensures r.0 == 0 ==> r.1 == kv[key := value]
    ensures r.0 != 0 ==> r.1 == kv
  {
    if KeyIndex(key) < 0 then (-1, kv)
    else if fault then (-1, kv)
    else (0, kv[key := value])
  }

  /** A successful set is read back by the next get, and no other key changes. */
  lemma SetThenGet(kv: Kv, key: string, value: string, other: string)
    requires SetKeyValue(kv, key, value, false).0 == 0
    ensures GetKeyValue(SetKeyValue(kv, key, value, false).1, key) == (0, value)
    ensures other != key ==> GetKeyValue(SetKeyValue(kv, key, value, false).1, other) == GetKeyValue(kv, other)
  {
  }

  /** The table's names are pairwise different. */
  predicate DistinctNames(cfgs: seq<KeyCfg>) {
    forall i, j :: 0 <= i < j < |cfgs| ==> cfgs[i].name != cfgs[j].name
  }

  /** Whether populating row `c` counts as a failure: `kv_set` failed with an errno other than EEXIST. */
  predicate DefaultFails(kv: Kv, c: KeyCfg, fails: string -> bool) {
    c.name !in kv && fails(c.name)
  }

  /** Every key of `kv` is still in `kv'` with its old value. */
  predicate Keeps(kv: Kv, kv': Kv) {
    forall k :: k in kv ==> k in kv' && kv'[k] == kv[k]
  }

  /** Every key `kv'` adds to `kv` is a name of `cfgs`. */
  predicate OnlyNames(cfgs: seq<KeyCfg>, kv: Kv, kv': Kv) {
    forall k :: k in kv' && k !in kv ==> k in Names(cfgs)
  }

  /** A row's key is in `kv'` exactly when writing it did not fail. */
  predicate Present(cfgs: seq<KeyCfg>, kv: Kv, fails: string -> bool, kv': Kv) {
    forall i :: 0 <= i < |cfgs| ==> (cfgs[i].name in kv' <==> !DefaultFails(kv, cfgs[i], fails))
  }

  /** A row's key that was created holds the row's default. */
  predicate Defaults(cfgs: seq<KeyCfg>, kv: Kv, fails: string -> bool, kv': Kv) {
    forall i :: 0 <= i < |cfgs| && cfgs[i].name !in kv && !fails(cfgs[i].name) ==>
      cfgs[i].name in kv' && kv'[cfgs[i].name] == cfgs[i].defVal
  }

  /** No failure is counted exactly when no write failed. */
  predicate CountsFailures(cfgs: seq<KeyCfg>, kv: Kv, fails: string -> bool, n: nat) {
    n == 0 <==> forall i :: 0 <= i < |cfgs| ==> !DefaultFails(kv, cfgs[i], fails)
  }

  /** What populating `cfgs` into `kv` yields, as a relation on the result `r`. */
  predicate PopulateSpec(cfgs: seq<KeyCfg>, kv: Kv, fails: string -> bool, r: (nat, Kv)) {
    && Keeps(kv, r.1)
    && OnlyNames(cfgs, kv, r.1)
    && Present(cfgs, kv, fails, r.1)
    && Defaults(cfgs, kv, fails, r.1)
    && CountsFailures(cfgs, kv, fails, r.0)
  }

  /**
    The loop of `pal_set_def_key_value` over `cfgs`: `kv_set` with
    `KV_FCREATE` leaves an existing key alone (EEXIST, not counted) and
    otherwise creates it unless the store fails (counted).  The result is the
    number of failures and the store afterwards.
   */
  function Populate(cfgs: seq<KeyCfg>, kv: Kv, fails: string -> bool): (r: (nat, Kv))
    requires DistinctNames(cfgs)
    ensures forall k :: k in kv ==> k in r.1 && r.1[k] == kv[k]
    ensures forall k :: k in r.1 && k !in kv ==> k in Names(cfgs)
    ensures forall i :: 0 <= i < |cfgs| ==> (cfgs[i].name in r.1 <==> !DefaultFails(kv, cfgs[i], fails))
    ensures forall i :: 0 <= i < |cfgs| && cfgs[i].name !in kv && !fails(cfgs[i].name) ==>
              cfgs[i].name in r.1 && r.1[cfgs[i].name] == cfgs[i].defVal
    ensures r.0 == 0 <==> forall i :: 0 <= i < |cfgs| ==> !DefaultFails(kv, cfgs[i], fails)
  {
    if cfgs == [] then (0, kv)
    else
      var c := cfgs[0];
      var failed := DefaultFails(kv, c, fails);
      var kv1 := FirstRow(cfgs, kv, fails);
      assert DistinctNames(cfgs[1..]);
      var rest := Populate(cfgs[1..], kv1, fails);
      var r := (if failed then rest.0 + 1 else rest.0, rest.1);
      PopulateStep(cfgs, kv, fails, kv1, rest);
      r
  }

  /** The store after row 0 of `cfgs`: its key created with its default, unless it exists or the write fails. */
  function FirstRow(cfgs: seq<KeyCfg>, kv: Kv, fails: string -> bool): Kv
    requires cfgs != []
  {
    if cfgs[0].name in kv || DefaultFails(kv, cfgs[0], fails) then kv
    else kv[cfgs[0].name := cfgs[0].defVal]
  }

  /** One row of the loop: the spec for the remaining rows from `kv1` gives the spec for all rows from `kv`. */
  lemma PopulateStep(cfgs: seq<KeyCfg>, kv: Kv, fails: string -> bool, kv1: Kv, rest: (nat, Kv))
    requires cfgs != [] && DistinctNames(cfgs)
    requires kv1 == FirstRow(cfgs, kv, fails)
    requires PopulateSpec(cfgs[1..], kv1, fails, rest)
    ensures PopulateSpec(cfgs, kv, fails,
                         (if DefaultFails(kv, cfgs[0], fails) then rest.0 + 1 else rest.0, rest.1))
  {
    StepKeeps(cfgs, kv, fails, kv1, rest.1);
    StepOnlyNames(cfgs, kv, fails, kv1, rest.1);
    StepPresent(cfgs, kv, fails, kv1, rest.1);
    StepDefaults(cfgs, kv, fails, kv1, rest.1);
    StepCounts(cfgs, kv, fails, kv1, rest.0);
  }

  /** Rows after the first have other names, so row 0 does not change whether they fail. */
  lemma TailRows(cfgs: seq<KeyCfg>, kv: Kv, fails: string -> bool, kv1: Kv, i: nat)
    requires cfgs != [] && DistinctNames(cfgs) && 1 <= i < |cfgs|
    requires kv1 == FirstRow(cfgs, kv, fails)
    ensures cfgs[i] == cfgs[1..][i - 1] && cfgs[i].name != cfgs[0].name
    ensures cfgs[i].name in kv1 <==> cfgs[i].name in kv
    ensures DefaultFails(kv1, cfgs[i], fails) <==> DefaultFails(kv, cfgs[i], fails)
  {
  }

  lemma StepKeeps(cfgs: seq<KeyCfg>, kv: Kv, fails: string -> bool, kv1: Kv, kv': Kv)
    requires cfgs != []
    requires kv1 == FirstRow(cfgs, kv, fails)
    requires Keeps(kv1, kv')
    ensures Keeps(kv, kv')
  {
    assert Keeps(kv, kv1);
  }

  lemma StepOnlyNames(cfgs: seq<KeyCfg>, kv: Kv, fails: string -> bool, kv1: Kv, kv': Kv)
    requires cfgs != []
    requires kv1 == FirstRow(cfgs, kv, fails)
    requires OnlyNames(cfgs[1..], kv1, kv')
    ensures OnlyNames(cfgs, kv, kv')
  {
    assert Names(cfgs) == [cfgs[0].name] + Names(cfgs[1..]);
    forall k | k in kv' && k !in kv
      ensures k in Names(cfgs)
    {
      if k in kv1 {
        assert k == cfgs[0].name;
      }
    }
  }

  lemma StepPresent(cfgs: seq<KeyCfg>, kv: Kv, fails: string -> bool, kv1: Kv, kv': Kv)
    requires cfgs != [] && DistinctNames(cfgs)
    requires kv1 == FirstRow(cfgs, kv, fails)
    requires Keeps(kv1, kv') && OnlyNames(cfgs[1..], kv1, kv')
    requires Present(cfgs[1..], kv1, fails, kv')
    ensures Present(cfgs, kv, fails, kv')
  {
    var c := cfgs[0];
    if DefaultFails(kv, c, fails) {
      forall j | 0 <= j < |cfgs[1..]|
        ensures Names(cfgs[1..])[j] != c.name
      {
        TailRows(cfgs, kv, fails, kv1, j + 1);
      }
      assert c.name !in kv1;
    }
    forall i | 1 <= i < |cfgs|
      ensures cfgs[i].name in kv' <==> !DefaultFails(kv, cfgs[i], fails)
    {
      TailRows(cfgs, kv, fails, kv1, i);
    }
  }

  lemma StepDefaults(cfgs: seq<KeyCfg>, kv: Kv, fails: string -> bool, kv1: Kv, kv': Kv)
    requires cfgs != [] && DistinctNames(cfgs)
    requires kv1 == FirstRow(cfgs, kv, fails)
    requires Keeps(kv1, kv')
    requires Defaults(cfgs[1..], kv1, fails, kv')
    ensures Defaults(cfgs, kv, fails, kv')
  {
    forall i | 1 <= i < |cfgs| && cfgs[i].name !in kv && !fails(cfgs[i].name)
      ensures cfgs[i].name in kv' && kv'[cfgs[i].name] == cfgs[i].defVal
    {
      TailRows(cfgs, kv, fails, kv1, i);
    }
  }

  lemma StepCounts(cfgs: seq<KeyCfg>, kv: Kv, fails: string -> bool, kv1: Kv, n: nat)
    requires cfgs != [] && DistinctNames(cfgs)
    requires kv1 == FirstRow(cfgs, kv, fails)
    requires CountsFailures(cfgs[1..], kv1, fails, n)
    ensures CountsFailures(cfgs, kv, fails, if DefaultFails(kv, cfgs[0], fails) then n + 1 else n)
  {
    forall i | 1 <= i < |cfgs|
      ensures DefaultFails(kv1, cfgs[1..][i - 1], fails) <==> DefaultFails(kv, cfgs[i], fails)
    {
      TailRows(cfgs, kv, fails, kv1, i);
    }
  }

  /** `pal_set_def_key_value`: every default written create-only; -1 iff some write failed. */
  function SetDefKeyValue(kv: Kv, fails: string -> bool): (r: (int, Kv))
    ensures r.0 == 0 || r.0 == -1
    ensures r.0 == 0 <==> forall i :: 0 <= i < |KEY_CFG| ==> !DefaultFails(kv, KEY_CFG[i], fails)
    ensures forall k :: k in kv ==> k in r.1 && r.1[k] == kv[k]
    ensures forall k :: k in r.1 && k !in kv ==> k in Names(KEY_CFG)
  {
    var p := Populate(KEY_CFG, kv, fails);
    (if p.0 != 0 then -1 else 0, p.1)
  }

  /** After a population that reported success, every configured key reads back, as its old value or its default. */
  lemma DefaultsReadBack(kv: Kv, fails: string -> bool, i: nat)
    requires i < |KEY_CFG|
    requires forall j :: 0 <= j < |KEY_CFG| ==> !DefaultFails(kv, KEY_CFG[j], fails)
    ensures var kv' := SetDefKeyValue(kv, fails).1;
            var name := KEY_CFG[i].name;
            GetKeyValue(kv', name) == (0, if name in kv then kv[name] else KEY_CFG[i].defVal)
  {
    var c := KEY_CFG[i];
    KeyCfgDistinct();
    var p := Populate(KEY_CFG, kv, fails);
    assert p.0 == 0;
    assert !DefaultFails(kv, c, fails);
    assert c.name in p.1;
    assert p.1[c.name] == if c.name in kv then kv[c.name] else c.defVal;
    OwnPrefix(c.name);
    assert KeyIndex(c.name) >= 0;
  }

  /** The configured key names all differ (they even differ in length). */
  lemma KeyCfgDistinct()
    ensures DistinctNames(KEY_CFG)
  {
    var lens := seq(|KEY_CFG|, i requires 0 <= i < |KEY_CFG| => |KEY_CFG[i].name|);
    assert lens == [15, 17, 14, 9, 28, 21, 11];
  }

  /** After a successful population every row's key exists, so a second one finds them all. */
  lemma {:induction false} PopulateAgain(cfgs: seq<KeyCfg>, kv: Kv, fails: string -> bool, fails2: string -> bool)
    requires DistinctNames(cfgs)
    requires Populate(cfgs, kv, fails).0 == 0
    ensures var kv' := Populate(cfgs, kv, fails).1;
            Populate(cfgs, kv', fails2) == (0, kv')
  {
    var kv' := Populate(cfgs, kv, fails).1;
    var r := Populate(cfgs, kv', fails2);
    forall i | 0 <= i < |cfgs|
      ensures cfgs[i].name in kv'
    {
      assert !DefaultFails(kv, cfgs[i], fails);
    }
    forall k | k in r.1
      ensures k in kv'
    {
    }
    assert r.1.Keys == kv'.Keys;
    assert r.1 == kv';
  }

  /** Populating again after a successful population changes nothing and succeeds, whatever the store does. */
  lemma SetDefaultsIdempotent(kv: Kv, fails: string -> bool, fails2: string -> bool)
    requires forall j :: 0 <= j < |KEY_CFG| ==> !DefaultFails(kv, KEY_CFG[j], fails)
    ensures var kv' := SetDefKeyValue(kv, fails).1;
            SetDefKeyValue(kv', fails2) == (0, kv')
  {
    KeyCfgDistinct();
    PopulateAgain(KEY_CFG, kv, fails, fails2);
  }

  // ---------------------------------------------------------------------------
  // FRU names
  // ---------------------------------------------------------------------------

  /** `fru_str_list`: each FRU id's name and alias ("" when it has none); index 0 is FRU_ALL. */
  const FRU_STR_LIST: seq<(string, string)> := [
    ("all", ""), ("server", ""), ("bmc", ""), ("uic", ""), ("dpb", ""), ("scc", ""),
    ("nic", ""), ("iocm", "e1s_iocm"), ("fan0", ""), ("fan1", ""), ("fan2", ""), ("fan3", "")
  ]

  /** The first id from `from` on whose name or alias equals `name`, or -1. */
  function FindFru(name: string, from: nat): (r: int)
    requires from <= |FRU_STR_LIST|
    ensures r == -1 || from <= r < |FRU_STR_LIST|
    ensures r >= 0 ==> name == FRU_STR_LIST[r].0 || name == FRU_STR_LIST[r].1
    ensures r >= 0 ==> forall j :: from <= j < r ==> name != FRU_STR_LIST[j].0 && name != FRU_STR_LIST[j].1
    ensures r == -1 ==> forall j :: from <= j < |FRU_STR_LIST| ==> name != FRU_STR_LIST[j].0 && name != FRU_STR_LIST[j].1
    decreases |FRU_STR_LIST| - from
  {
    if from == |FRU_STR_LIST| then -1
    else if name == FRU_STR_LIST[from].0 || name == FRU_STR_LIST[from].1 then from
    else FindFru(name, from + 1)
  }

  /**
    `pal_get_fru_id`: 0 and the first id whose name or alias is `name`; -1
    with `*fru` as it was when no entry matches.
   */
  function GetFruId(name: string, fru: Byte): (r: (int, Byte))
    ensures r.0 == 0 || r.0 == -1
    ensures r.0 == -1 <==> forall j :: 0 <= j < |FRU_STR_LIST| ==> name != FRU_STR_LIST[j].0 && name != FRU_STR_LIST[j].1
    ensures r.0 == -1 ==> r.1 == fru
    ensures r.0 == 0 ==> r.1 < |FRU_STR_LIST| && (name == FRU_STR_LIST[r.1].0 || name == FRU_STR_LIST[r.1].1)
  {
    var id := FindFru(name, 0);
    if id < 0 then (-1, fru) else (0, id)
  }

  /** Each primary name finds its own id, and the alias "e1s_iocm" finds the id of "iocm". */
  lemma FruNamesRoundTrip(fru: Byte)
    ensures forall i :: 0 <= i < |FRU_STR_LIST| ==> GetFruId(FRU_STR_LIST[i].0, fru) == (0, i)
    ensures GetFruId("e1s_iocm", fru) == GetFruId("iocm", fru) == (0, 7)
  {
    forall i | 0 <= i < |FRU_STR_LIST|
      ensures GetFruId(FRU_STR_LIST[i].0, fru) == (0, i)
    {
      FindOwnName(i);
    }
    AliasFindsIocm(fru);
  }

  lemma FindOwnName(i: nat)
    requires i < |FRU_STR_LIST|
    ensures FindFru(FRU_STR_LIST[i].0, 0) == i
  {
    var r := FindFru(FRU_STR_LIST[i].0, 0);
    if 0 <= r < i {
      NamesDiffer(i, r);
    }
  }

  lemma AliasFindsIocm(fru: Byte)
    ensures GetFruId("e1s_iocm", fru) == GetFruId("iocm", fru) == (0, 7)
  {
    assert FRU_STR_LIST[7].1 == "e1s_iocm";
    FindOwnName(7);
  }

  /** Names are told apart by length, or for the fans by their last digit; aliases other than "e1s_iocm" are empty. */
  lemma NamesDiffer(i: nat, j: nat)
    requires j < i < |FRU_STR_LIST|
    ensures FRU_STR_LIST[i].0 != FRU_STR_LIST[j].0 && FRU_STR_LIST[i].0 != FRU_STR_LIST[j].1
  {
    var t := FRU_STR_LIST;
    assert |t[i].0| > 0;
    if |t[i].0| == |t[j].0| {
      assert t[i].0[|t[i].0| - 1] != t[j].0[|t[j].0| - 1] || t[i].0[0] != t[j].0[0];
    }
    if j == 7 {
      assert |t[i].0| != |t[j].1|;
    }
  }

  /** The empty name matches the empty alias of "all", so it selects FRU_ALL. */
  lemma EmptyNameIsAll(fru: Byte)
    ensures GetFruId("", fru) == (0, 0)
  {
  }
}

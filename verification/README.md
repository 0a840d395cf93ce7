# OpenBMC firmware-update and platform helpers, modelled in Dafny

This project models the firmware-component update and version layer of
OpenBMC, together with the small encoders, decoders and selection rules
around it. Each source file has its own Dafny module:

- `PaxSwitch` (`pax_switch.dfy`) models the clearcreek PCIe switch (PAX):
  - the advisory update lock, held or free per process;
  - the image-type gate and the update call;
  - the three cached version getters, with the key-value cache as a
    `map<string, string>`;
  - cache invalidation.

  Every operation appends observable events (lock taken or released, device
  opened or closed, cache read, written or deleted) to a trace. Properties
  about order are stated over that trace. The switchtec SDK, the update
  tool, the power check, `open` and `flock` of the lock file, and which
  `kv_set` calls the store refuses are answers supplied in a `PaxEnv`.
- `Staging`, `ClearcreekFruid`, `FbepFruid` and `GcEeprom` model FRU
  EEPROM staging:
  - the EEPROM and the `/tmp` staging file are byte sequences with read and
    write offsets that are never rewound;
  - clearcreek retries the copy up to four times and re-parses after each
    copy, while fbep and grandcanyon copy once;
  - each platform has its FRU-id-to-file read dispatch.

  The outcome of `open`, `read`, `write` and `fruid_parse` is a parameter,
  and so is the `errno` each `fruid_parse` leaves behind.
- `ExpansionVr` models the fby3 expansion-board VR component:
  - readiness gating;
  - one version line per VR, in the order of the VR codes;
  - version strings formatted from the BIC's raw bytes.
- Five modules model the grandcanyon `pal.c` helpers, all pure functions:
  - `GcKeys`: config keys and FRU names;
  - `GcCodecs`: boot order, system firmware version and SKU bits;
  - `GcGuid`: serial-to-GUID packing;
  - `GcPost`: post-code LEDs.
  The fifth, `GcEeprom`, is listed under FRU EEPROM staging above.
- `PyVersion`, `PyMtd`, `PyMeta` and `PyFlash` model pypartition's
  `system.py`:
  - version normalisation and the image compatibility check;
  - MTD selection by vboot enforcement mode;
  - image-meta error classification;
  - meta partition typing and the rules for valid partitions;
  - the flash retry loop.
- `PlatUtils` models misc-utils' `plat-utils.c`:
  - cpuinfo parsing;
  - CPU and SoC model detection;
  - the kernel-version parser;
  - `single_instance_lock`.
- `JtagShim` models the AST JTAG shim of cpldupdate: init and cleanup of
  the descriptor table, and pin reads and writes.
- `PimStatus` models the elbert REST PIM status handler. The filesystem is a
  function from path to optional file contents.
- `FwComponent` gives the shape of the NIC and VR component identities from
  fw-util's `nic.h` and `vr_fw.h`. These headers hold declarations only.
- `Common` holds shared text helpers:
  - C `strtol`/`atoi` on hex and decimal text;
  - `%02x` hex encoding and decoding;
  - prefixes, `CString`, and stripping white space.

Foreign calls are parameters of the operations that make them: system
calls, the kv store's write failures, GPIO, the BIC, the switchtec SDK, md5,
json, `strings` and `uname`. Each contract holds for every answer those
calls can give, except where "## Left out" names an answer the model does
not offer.

## Model

| member | source | states |
|---|---|---|
| PaxSwitch.PaxLock | meta-facebook/meta-clearcreek/recipes-fbcc/plat-libs/files/pal/pal_switch.c:31-45 | The `open` of the lock file comes first: when it fails, the call returns -1 with the state unchanged, whether or not the lock is held. Otherwise, when the process already holds the lock, taking it again never returns. With the lock free, it is taken exactly when `flock` succeeds, and a failed `flock` leaves the state unchanged. |
| PaxSwitch.PaxUnlock | meta-facebook/meta-clearcreek/recipes-fbcc/plat-libs/files/pal/pal_switch.c:47-58 | Frees the lock, leaves the cache alone and records one release. |
| PaxSwitch.CheckPaxFwType | meta-facebook/meta-clearcreek/recipes-fbcc/plat-libs/files/pal/pal_switch.c:60-78 | Returns 0 exactly when the header parses and its type is the one paired with the requested sub-image. The "not parsable" flag is set exactly when the file opens but its header cannot be read. |
| PaxSwitch.FwTypeGateExclusive | meta-facebook/meta-clearcreek/recipes-fbcc/plat-libs/files/pal/pal_switch.c:60-78 | A given image type passes the gate for at most one sub-image. |
| PaxSwitch.ClearPaxCache | meta-facebook/meta-clearcreek/recipes-fbcc/plat-libs/files/pal/pal_switch.c:80-89 | Deletes exactly the switch's `_bl2`, `_img` and `_cfg` keys, in that order, and nothing else. |
| PaxSwitch.KeysDistinct | meta-facebook/meta-clearcreek/recipes-fbcc/plat-libs/files/pal/pal_switch.c:80-89 | A switch's three cache keys are pairwise different. |
| PaxSwitch.PaxFwUpdate | meta-facebook/meta-clearcreek/recipes-fbcc/plat-libs/files/pal/pal_switch.c:91-111 | The update never changes the cache. With the server off, when the lock file cannot be opened, or when a free lock cannot be taken, it returns -1 without running the tool. It hangs exactly when the server is on, the lock file opens and the process already holds the lock. With the lock taken, the tool runs and the lock is released before the status is inspected. The result is 0 exactly when the tool exited normally with status 0. |
| PaxSwitch.UpdateLeavesCacheAlone | meta-facebook/meta-clearcreek/recipes-fbcc/plat-libs/files/pal/pal_switch.c:91-111 | No event the update adds is a cache read, write or delete. |
| PaxSwitch.UpdateNeverLeaksLock | meta-facebook/meta-clearcreek/recipes-fbcc/plat-libs/files/pal/pal_switch.c:91-111 | Starting with the lock free, the update returns and leaves the lock free. |
| PaxSwitch.GetPaxVerSum | meta-facebook/meta-clearcreek/recipes-fbcc/plat-libs/files/pal/pal_switch.c:151-178 | Hangs exactly when the lock is already held and the lock file opens. When the lock is not taken it returns nothing and changes nothing. It returns a summary only when the lock was taken and the device opened, and then the events are lock, open, close, release. When the device fails to open, it returns nothing and the lock is still held. |
| PaxSwitch.VerSumReleasesWhenDeviceOpens | meta-facebook/meta-clearcreek/recipes-fbcc/plat-libs/files/pal/pal_switch.c:160-177 | When the device opens, the lock is released and the trace gains exactly take, open, close, release. |
| PaxSwitch.VerSumLeaksLockOnOpenFailure | meta-facebook/meta-clearcreek/recipes-fbcc/plat-libs/files/pal/pal_switch.c:164-168 | When the device cannot be opened, a BL2 cache miss returns -1 and never releases the lock. |
| PaxSwitch.LeakedLockBlocksNextMiss | meta-facebook/meta-clearcreek/recipes-fbcc/plat-libs/files/pal/pal_switch.c:31-45 | After that leak, the next cache miss in the same process, here for the image version, never returns when the lock file opens. |
| PaxSwitch.LeakedLockOpenFailureReturns | meta-facebook/meta-clearcreek/recipes-fbcc/plat-libs/files/pal/pal_switch.c:35-37 | After that leak, a next miss whose lock-file `open` fails returns -1 and the lock stays held. |
| PaxSwitch.GetPaxBl2Ver | meta-facebook/meta-clearcreek/recipes-fbcc/plat-libs/files/pal/pal_switch.c:179-204 | A hit answers from the cache with no power check, no lock and no device access. A miss with a summary calls `kv_set` for `_img` and then `_bl2`, answers the BL2 version and frees the lock. Each key then holds the new version exactly when the store took it. A refused `_img` keeps its old entry, or stays absent, and no other key changes. A failure returns -1 and leaves the cache unchanged. |
| PaxSwitch.GetPaxFwVer | meta-facebook/meta-clearcreek/recipes-fbcc/plat-libs/files/pal/pal_switch.c:206-231 | A hit on `_img` answers from the cache with no power check, no lock and no device access. A miss with a summary calls `kv_set` for `_bl2` and then `_img`, answers the image version and frees the lock. Each key then holds the new version exactly when the store took it. A refused `_bl2` keeps its old entry, or stays absent, and no key other than `_bl2` and `_img` changes. A failure returns -1 and leaves the cache unchanged. |
| PaxSwitch.GetPaxCfgVer | meta-facebook/meta-clearcreek/recipes-fbcc/plat-libs/files/pal/pal_switch.c:233-280 | A hit answers from the cache. The cache changes only when the register map succeeded and the store took the value, and then with the register's value in hex. A miss with the lock free, the server on and the lock taken returns with the lock free. It then returns 0 exactly when the device opened and the map succeeded, and the key is cached exactly when it returned 0 and the store took the value. |
| PaxSwitch.CfgVerReleasesOnce | meta-facebook/meta-clearcreek/recipes-fbcc/plat-libs/files/pal/pal_switch.c:252-279 | The lock events the CFG getter adds are either none or exactly one take followed by one release. |
| PaxSwitch.CacheWrittenAfterRelease | meta-facebook/meta-clearcreek/recipes-fbcc/plat-libs/files/pal/pal_switch.c:193-203 | Every cache write of a BL2 miss comes after the lock release. |
| PaxSwitch.CachedReadIsIdempotent | meta-facebook/meta-clearcreek/recipes-fbcc/plat-libs/files/pal/pal_switch.c:187-188 | After a successful BL2 read that hit the cache or had its `_bl2` value taken by the store, reading again answers the same version from the cache, whatever the device does. |
| PaxSwitch.CachedCfgReadIsIdempotent | meta-facebook/meta-clearcreek/recipes-fbcc/plat-libs/files/pal/pal_switch.c:244-245 | After a successful CFG read that hit the cache or had its value taken by the store, reading again answers the same version from the cache. |
| PaxSwitch.FailedSetForcesDeviceRead | meta-facebook/meta-clearcreek/recipes-fbcc/plat-libs/files/pal/pal_switch.c:187-203 | When the store refuses the `_bl2` value, the read still returns 0, the key stays uncached, and the next read goes back to the device. |
| PaxSwitch.FailedCfgSetForcesDeviceRead | meta-facebook/meta-clearcreek/recipes-fbcc/plat-libs/files/pal/pal_switch.c:244-279 | When the store refuses the `_cfg` value, the read still returns 0 and the next read goes back to the device. |
| PaxSwitch.InvalidationForcesFreshRead | meta-facebook/meta-clearcreek/recipes-fbcc/plat-libs/files/pal/pal_switch.c:80-111 | After a successful update followed by cache invalidation, the next BL2 read misses and opens the device. |
| PaxSwitch.ReadPaxDieTemp | meta-facebook/meta-clearcreek/recipes-fbcc/plat-libs/files/pal/pal_switch.c:113-149 | The sensor read never touches the cache. It always returns, with the lock free, when it starts free. It hangs exactly when the server is on, the lock file opens and the lock is already held. It succeeds exactly when the server is on, the lock is taken, the device opens and the command succeeds. |
| Staging.ReadAt | meta-facebook/meta-clearcreek/recipes-fbcc/ipmid/files/fruid.c:93 | A read at offset `pos` returns at most `n` bytes, all taken from the file at `pos`. When enough bytes remain, it returns exactly `n`. |
| Staging.Overwrite | meta-facebook/meta-clearcreek/recipes-fbcc/ipmid/files/fruid.c:103 | A write at `pos` keeps the bytes before `pos`, places the block at `pos`, and keeps any bytes after the block. |
| Staging.CopyCycle | meta-facebook/meta-clearcreek/recipes-fbcc/ipmid/files/fruid.c:92-108 | One read/write cycle copies a block exactly when the read returns a full block and the write takes it all. A failed or short read writes nothing. On success, the next 512 EEPROM bytes land at the staging file's write offset, and both offsets advance by 512. |
| Staging.StagedImage | meta-facebook/meta-clearcreek/recipes-fbcc/ipmid/files/fruid.c:92-109 | After `k` copied cycles, the staging file starts with the first `512·k` EEPROM bytes. |
| Staging.StagedImageStep | meta-facebook/meta-clearcreek/recipes-fbcc/ipmid/files/fruid.c:92-109 | A copied cycle from that state yields the image of `k+1` cycles. |
| Staging.CycleErrno | meta-facebook/meta-clearcreek/recipes-fbcc/ipmid/files/fruid.c:92-117 | Only a failed read or write sets `errno`. A short read or short write leaves it as the cycle found it. |
| Staging.ReadFile | meta-facebook/meta-clearcreek/recipes-fbcc/ipmid/files/fruid.c:193-214 | Returns 0 with exactly `count` bytes from `offset` when the file exists and holds them, and -1 with no data otherwise. A `count` of -1 makes `read` fail with -1, which equals `count`, so the call returns 0 with no data. |
| Staging.FileSize | meta-facebook/meta-clearcreek/recipes-fbcc/ipmid/files/fruid.c:152-161 | `stat` size of the file, or 0 when it does not exist. |
| Staging.Lookup | meta-facebook/meta-clearcreek/recipes-fbcc/ipmid/files/fruid.c:85 | A staging file is present exactly when its path is in the file map, and then holds the mapped bytes. |
| Staging.Store | meta-facebook/meta-clearcreek/recipes-fbcc/ipmid/files/fruid.c:85-113 | The file map after a copy holds the copy's result only when the staging file was opened. |
| ClearcreekFruid.Attempts | meta-facebook/meta-clearcreek/recipes-fbcc/ipmid/files/fruid.c:92-110 | The retry loop runs at most MAX_RELOAD_FRU+1 cycles and ends in one of three ways: parsed, out of retries, or stopped by a cycle that did not copy. A parse or running out of retries returns the `errno` the last `fruid_parse` left. A failed read or write returns its own `errno`. A short read or a short write returns the `errno` the cycle started with. |
| ClearcreekFruid.CopyEepromToBin | meta-facebook/meta-clearcreek/recipes-fbcc/ipmid/files/fruid.c:67-118 | An EEPROM open failure returns that `errno` with no staging file opened. A staging-file open failure returns its `errno`. Otherwise it is the retry loop from the first cycle, with `errno` 0. |
| ClearcreekFruid.CopyEepromToBinLoop | meta-facebook/meta-clearcreek/recipes-fbcc/ipmid/files/fruid.c:67-118 | The imperative do/while loop, with `errno` as a variable that each `fruid_parse` overwrites, computes the same result as the recursive definition. |
| ClearcreekFruid.FromFacts | meta-facebook/meta-clearcreek/recipes-fbcc/ipmid/files/fruid.c:92-110 | Starting from the first cycle, the loop leaves the image of the cycles it copied. Every image before the last one fails to parse. |
| ClearcreekFruid.CopyAtMostFourCycles | meta-facebook/meta-clearcreek/recipes-fbcc/ipmid/files/fruid.c:92-110 | At most four cycles run, and running out of retries means exactly four. |
| ClearcreekFruid.CopyStopsAtFirstParse | meta-facebook/meta-clearcreek/recipes-fbcc/ipmid/files/fruid.c:92-110 | No earlier staged image parsed. When the copy ends parsed, the staging file is the image of the last cycle and it parses. |
| ClearcreekFruid.CopyParsesAfter | meta-facebook/meta-clearcreek/recipes-fbcc/ipmid/files/fruid.c:92-110 | When every cycle copies and the image of cycle `p` is the first to parse, the copy stops after exactly `p` cycles and returns the `errno` that parse left. |
| ClearcreekFruid.CopyNeverRewinds | meta-facebook/meta-clearcreek/recipes-fbcc/ipmid/files/fruid.c:78-109 | After `k` cycles the staging file starts with the first `512·k` EEPROM bytes. Cycle `k` therefore read the next block and wrote it at the next offset. |
| ClearcreekFruid.CopyShortReadWritesNothing | meta-facebook/meta-clearcreek/recipes-fbcc/ipmid/files/fruid.c:93-101 | A failed or short read leaves the staging file as the previous cycles made it. A short read means fewer than 512 bytes were left. It returns 0 in the first cycle and the previous parse's `errno` in a later one. |
| ClearcreekFruid.CopyReturnsErrno | meta-facebook/meta-clearcreek/recipes-fbcc/ipmid/files/fruid.c:75-117 | Open failures return their `errno`, and failed reads or writes return theirs. A parse or running out of retries returns the `errno` the last `fruid_parse` left, so exhausted retries report failure only if that parse set `errno`. A short read or short write returns 0 in the first cycle and the previous parse's `errno` later. |
| ClearcreekFruid.CopyAll | meta-facebook/meta-clearcreek/recipes-fbcc/ipmid/files/fruid.c:121-148 | Copying a list of sources gives one outcome per source. |
| ClearcreekFruid.CopyAllIndependent | meta-facebook/meta-clearcreek/recipes-fbcc/ipmid/files/fruid.c:121-148 | With distinct staging paths, each source's copy depends only on its own staging file, whatever the earlier copies did. Its result is what ends up stored. |
| ClearcreekFruid.CopyAllKeeps | meta-facebook/meta-clearcreek/recipes-fbcc/ipmid/files/fruid.c:121-148 | Paths that are not staging targets are left unchanged. |
| ClearcreekFruid.FruidInit | meta-facebook/meta-clearcreek/recipes-fbcc/ipmid/files/fruid.c:121-148 | Init returns 0 and produces one outcome for each of the eight sources. |
| ClearcreekFruid.InitAttemptsEverySource | meta-facebook/meta-clearcreek/recipes-fbcc/ipmid/files/fruid.c:121-148 | Each of the eight sources is copied with its own EEPROM and staging file, regardless of earlier failures. |
| ClearcreekFruid.FruidSize | meta-facebook/meta-clearcreek/recipes-fbcc/ipmid/files/fruid.c:150-162 | The size of the MB staging file for any payload id, or 0 when it is missing. |
| ClearcreekFruid.FruFile | meta-facebook/meta-clearcreek/recipes-fbcc/ipmid/files/fruid.c:169-191 | Takes the ids in the source's order: MB, PDB, BSM, CARRIER1, CARRIER2, FIO, with `id - 1` matched and the first match winning. MB, PDB, BSM and FIO get their own staging files. CARRIER1 gets the AVA1 file when carrier 0 is M.2 and the E1S1 file otherwise, and CARRIER2 does the same with carrier 1. Any other id gets no file. Conversely, a carrier file is only ever chosen for its carrier id and its carrier type. |
| ClearcreekFruid.FruidData | meta-facebook/meta-clearcreek/recipes-fbcc/ipmid/files/fruid.c:164-215 | Returns -1 with no data for an id with no file. Otherwise it is the read of that file at `offset` and `count`. It returns 0 exactly when the file exists, the offset is not negative, and either `count` bytes are at `offset` or `count` is -1. On success the data is exactly the file's `count` bytes from `offset`. A failure, or a `count` of -1, gives no data. |
| ClearcreekFruid.InitThenReadMb | meta-facebook/meta-clearcreek/recipes-fbcc/ipmid/files/fruid.c:121-215 | After an init whose MB copy completed a cycle, reading 512 bytes of the MB FRU returns the EEPROM's first block. |
| FbepFruid.CopyEepromToBin | meta-facebook/meta-fbep/recipes-fbep/ipmid/files/fruid.c:49-95 | One attempt at most, with no retry and no parse. An EEPROM open failure returns before the staging file is opened. A failed or short read writes nothing, and a short read returns 0. |
| FbepFruid.SingleAttemptIsFirstRetryCycle | meta-facebook/meta-fbep/recipes-fbep/ipmid/files/fruid.c:58-80 | When the first image always parses, the single attempt leaves the same file and offsets as clearcreek's loop. It returns the same value unless a full block was copied: then fbep returns 0 and clearcreek the `errno` of its one `fruid_parse`. |
| FbepFruid.FruidInit | meta-facebook/meta-fbep/recipes-fbep/ipmid/files/fruid.c:98-113 | Returns 0 with three outcomes. |
| FbepFruid.InitCopiesIndependently | meta-facebook/meta-fbep/recipes-fbep/ipmid/files/fruid.c:98-113 | MB, PDB and BSM are each copied from their own EEPROM onto their own staging file. |
| FbepFruid.FruidSize | meta-facebook/meta-fbep/recipes-fbep/ipmid/files/fruid.c:115-127 | The size of the MB staging file, or 0 when it is missing. |
| FbepFruid.FruidData | meta-facebook/meta-fbep/recipes-fbep/ipmid/files/fruid.c:129-166 | Takes the MB, PDB and BSM ids in that order, with the first match winning, and reads each one's own staging file at `offset` and `count`. Every other id gives -1 with no data. A full read of `count` bytes returns exactly those bytes of the file, and fewer bytes give -1. A `count` of -1 gives 0 with no data. |
| GcEeprom.CopyEepromToBin | meta-facebook/meta-grandcanyon/recipes-grandcanyon/plat-libs/files/pal/pal.c:1215-1269 | A NULL path gives -1 before anything is opened. The result is 0 exactly when both files open, a full block is read and all of it is written. After a failed or short read the staging file is unchanged. |
| GcEeprom.SameCopyAsFbep | meta-facebook/meta-grandcanyon/recipes-grandcanyon/plat-libs/files/pal/pal.c:1224-1254 | With both paths given, the file effects are those of fbep's single copy. |
| GcEeprom.ShortWriteReported | meta-facebook/meta-grandcanyon/recipes-grandcanyon/plat-libs/files/pal/pal.c:1256-1261 | A short write returns -1 here, whereas fbep returns 0 for it. |
| GcKeys.KeyIndex | meta-facebook/meta-grandcanyon/recipes-grandcanyon/plat-libs/files/pal/pal.c:174-189 | Returns the smallest index whose configured name is a prefix of the key, or -1 exactly when no name is. |
| GcKeys.KeyIndexOfConfiguredKeys | meta-facebook/meta-grandcanyon/recipes-grandcanyon/plat-libs/files/pal/pal.c:114-125 | Each configured key resolves to its own row, except "system_identify_led_interval", which resolves to "system_identify". |
| GcKeys.ShadowedKey | meta-facebook/meta-grandcanyon/recipes-grandcanyon/plat-libs/files/pal/pal.c:116-120 | "system_identify_led_interval" resolves to row 0. |
| GcKeys.CfgKeyCheck | meta-facebook/meta-grandcanyon/recipes-grandcanyon/plat-libs/files/pal/pal.c:193-207 | Returns 0 exactly when the key starts with one of the two cfg-util keys. |
| GcKeys.GetKeyValue | meta-facebook/meta-grandcanyon/recipes-grandcanyon/plat-libs/files/pal/pal.c:210-218 | Returns 0 with the stored value exactly when the key is configured and present. |
| GcKeys.SetKeyValue | meta-facebook/meta-grandcanyon/recipes-grandcanyon/plat-libs/files/pal/pal.c:221-235 | An unconfigured key or a store failure gives -1 and leaves the store unchanged. Otherwise the one key is updated. |
| GcKeys.SetThenGet | meta-facebook/meta-grandcanyon/recipes-grandcanyon/plat-libs/files/pal/pal.c:210-235 | A successful set reads back, and other keys read as before. |
| GcKeys.Populate | meta-facebook/meta-grandcanyon/recipes-grandcanyon/plat-libs/files/pal/pal.c:256-278 | Defaults are written create-only. Existing values are kept and only configured names are added. A row's key ends up present exactly when its write did not fail. The failure count is 0 exactly when no write failed. |
| GcKeys.SetDefKeyValue | meta-facebook/meta-grandcanyon/recipes-grandcanyon/plat-libs/files/pal/pal.c:256-278 | Returns -1 exactly when some write failed with an error other than EEXIST. Existing values are unchanged. |
| GcKeys.DefaultsReadBack | meta-facebook/meta-grandcanyon/recipes-grandcanyon/plat-libs/files/pal/pal.c:210-278 | After a population in which no default write failed (exactly when it returns 0), every configured key reads back its old value, or its default if it had none. |
| GcKeys.PopulateAgain | meta-facebook/meta-grandcanyon/recipes-grandcanyon/plat-libs/files/pal/pal.c:256-278 | Populating again after a success changes nothing and cannot fail. |
| GcKeys.SetDefaultsIdempotent | meta-facebook/meta-grandcanyon/recipes-grandcanyon/plat-libs/files/pal/pal.c:256-278 | Once a population has had no failed write (so it returned 0), a second one returns 0 and changes nothing, whatever the store does. |
| GcKeys.GetFruId | meta-facebook/meta-grandcanyon/recipes-grandcanyon/plat-libs/files/pal/pal.c:281-295 | Returns -1 with `*fru` unchanged exactly when no name or alias matches. Otherwise it returns an id whose name or alias is the string. |
| GcKeys.FindFru | meta-facebook/meta-grandcanyon/recipes-grandcanyon/plat-libs/files/pal/pal.c:283-294 | The first id whose name or alias equals the string. |
| GcKeys.FruNamesRoundTrip | meta-facebook/meta-grandcanyon/recipes-grandcanyon/plat-libs/files/pal/pal.c:281-295 | Every FRU name maps back to its own id, and "e1s_iocm" gives the same id as "iocm". |
| GcKeys.AliasFindsIocm | meta-facebook/meta-grandcanyon/recipes-grandcanyon/plat-libs/files/pal/pal.c:72-85 | "e1s_iocm" and "iocm" both give id 7. |
| GcKeys.EmptyNameIsAll | meta-facebook/meta-grandcanyon/recipes-grandcanyon/plat-libs/files/pal/pal.c:281-295 | The empty string matches the empty alias of row 0. |
| GcCodecs.SetBootOrder | meta-facebook/meta-grandcanyon/recipes-grandcanyon/plat-libs/files/pal/pal.c:888-906 | Stores two lowercase hex digits per byte under "server_boot_order" and changes nothing else. `res_len` is 0. A store failure leaves the store unchanged. |
| GcCodecs.GetBootOrder | meta-facebook/meta-grandcanyon/recipes-grandcanyon/plat-libs/files/pal/pal.c:853-885 | Returns 0 exactly when the key exists, with `res_len` equal to the size. Well-formed hex text decodes to the stored bytes. |
| GcCodecs.BootOrderRoundTrip | meta-facebook/meta-grandcanyon/recipes-grandcanyon/plat-libs/files/pal/pal.c:853-906 | Set followed by get returns the original bytes. |
| GcCodecs.DefaultBootOrder | meta-facebook/meta-grandcanyon/recipes-grandcanyon/plat-libs/files/pal/pal.c:853-885 | The default "0100090203ff" reads as boot order 1, 0, 9, 2, 3, 255. |
| GcCodecs.SetSysfwVer | meta-facebook/meta-grandcanyon/recipes-grandcanyon/plat-libs/files/pal/pal.c:932-960 | A NULL buffer gives -1. Otherwise the `%02x` text of the bytes is stored under "sysfw_ver" and nothing else changes. |
| GcCodecs.GetSysfwVer | meta-facebook/meta-grandcanyon/recipes-grandcanyon/plat-libs/files/pal/pal.c:963-988 | A NULL buffer gives -1. A missing key gives PAL_ENOTSUP with the buffer untouched. Otherwise every byte is decoded from its pair of hex characters. |
| GcCodecs.SysfwByteIsStrtol | meta-facebook/meta-grandcanyon/recipes-grandcanyon/plat-libs/files/pal/pal.c:982-985 | Each byte is the low 8 bits of C `strtol(…, 16)` applied to its two characters. |
| GcCodecs.SysfwRoundTrip | meta-facebook/meta-grandcanyon/recipes-grandcanyon/plat-libs/files/pal/pal.c:932-988 | Set followed by get returns the original version bytes. |
| GcCodecs.BitsValue | meta-facebook/meta-grandcanyon/recipes-grandcanyon/plat-libs/files/pal/pal.c:1143-1155 | The '0'/'1' text, read in binary, is the value modulo 2^width, as in two's complement. |
| GcCodecs.GetSku | meta-facebook/meta-grandcanyon/recipes-grandcanyon/plat-libs/files/pal/pal.c:1118-1158 | Returns 0 exactly when the buffer is given, "system_info" is present and its `atoi` value is below the maximum. That value saturates at LONG_MIN and LONG_MAX. The result is then the low `width` bits, most significant first, which read back as the value modulo `2^width`. A text whose number is below LONG_MIN, such as "-99999999999", gives all zeros for any width up to 31. |
| GcCodecs.SkuBits | meta-facebook/meta-grandcanyon/recipes-grandcanyon/plat-libs/files/pal/pal.c:1143-1155 | The shifting loop produces the two's complement bits. |
| GcCodecs.SkuInRangeRoundTrip | meta-facebook/meta-grandcanyon/recipes-grandcanyon/plat-libs/files/pal/pal.c:1143-1155 | A value that fits in `width` bits reads back from its bit text. |
| GcCodecs.LongMinLowBits | meta-facebook/meta-grandcanyon/recipes-grandcanyon/plat-libs/files/pal/pal.c:1143-1155 | The saturated value LONG_MIN, which is -2^31, packs to all zeros in any width up to 31. |
| GcGuid.PopulateGuid | meta-facebook/meta-grandcanyon/recipes-grandcanyon/plat-libs/files/pal/pal.c:558-627 | The GUID is 16 bytes. Byte 7's high nibble is 0x1, and bytes 10-15 are the serial tail. |
| GcGuid.ScanSerial | meta-facebook/meta-grandcanyon/recipes-grandcanyon/plat-libs/files/pal/pal.c:589-624 | The right-to-left scan fills byte 15 downward with the scanned units, at most six of them. |
| GcGuid.TailIsSerial | meta-facebook/meta-grandcanyon/recipes-grandcanyon/plat-libs/files/pal/pal.c:589-624 | The scanned bytes with the rest zeroed form the serial tail. |
| GcGuid.LongSerialFillsTail | meta-facebook/meta-grandcanyon/recipes-grandcanyon/plat-libs/files/pal/pal.c:589-624 | A serial of 12 or more characters fills all six bytes with its last six units in reverse order. |
| GcGuid.DigitSerialIsBcd | meta-facebook/meta-grandcanyon/recipes-grandcanyon/plat-libs/files/pal/pal.c:604-618 | An all-digit serial yields BCD bytes only. |
| GcGuid.LetterSerialCopied | meta-facebook/meta-grandcanyon/recipes-grandcanyon/plat-libs/files/pal/pal.c:597-601 | For an all-letter serial, the tail is the last six letters, copied as they are. |
| GcGuid.SerialExample | meta-facebook/meta-grandcanyon/recipes-grandcanyon/plat-libs/files/pal/pal.c:589-624 | "LSP62100035" packs to 53 50 62 10 00 35. |
| GcGuid.UnitsLength | meta-facebook/meta-grandcanyon/recipes-grandcanyon/plat-libs/files/pal/pal.c:589-624 | Each scanned unit consumes at most two characters. |
| GcPost.PostDisplay | meta-facebook/meta-grandcanyon/recipes-grandcanyon/plat-libs/files/pal/pal.c:1272-1290 | LED `i` shows bit `i` of the code. The loop stops at the first failing pin and returns its error. The result is negative exactly when it stopped early. No other pin changes. |
| GcPost.GetCurrentLedPostCode | meta-facebook/meta-grandcanyon/recipes-grandcanyon/plat-libs/files/pal/pal.c:1293-1316 | With a NULL `post_code` it returns -1. Otherwise it returns 0 exactly when all eight LED pins read valid values. |
| GcPost.DisplayThenRead | meta-facebook/meta-grandcanyon/recipes-grandcanyon/plat-libs/files/pal/pal.c:1272-1316 | Reading back a fully displayed code yields the same byte. |
| GcPost.ShiftInBits | meta-facebook/meta-grandcanyon/recipes-grandcanyon/plat-libs/files/pal/pal.c:1304-1313 | Shifting in the eight levels, most significant first, rebuilds the byte. |
| GcPost.GetDebugCardUartSel | meta-facebook/meta-grandcanyon/recipes-grandcanyon/plat-libs/files/pal/pal.c:1319-1342 | Returns 0 exactly when the four select pins read valid values. The value is then the pin levels packed with SEL3 as bit 3, SEL2 as bit 2, SEL1 as bit 1 and SEL0 as bit 0, following the SEL3-first order of `GPIO_BMC_FPGA_UART_SEL_TABLE` (lines 159-164). |
| GcPost.UartSelDistinguishesPins | meta-facebook/meta-grandcanyon/recipes-grandcanyon/plat-libs/files/pal/pal.c:159-164 | For valid pins, two readings give the same selection exactly when SEL0 to SEL3 are at the same levels. |
| GcPost.IsDebugCardPresent | meta-facebook/meta-grandcanyon/recipes-grandcanyon/plat-libs/files/pal/pal.c:1345-1368 | Returns 0 with the presence for a known answer, and -1 otherwise. |
| GcPost.PostHandle | meta-facebook/meta-grandcanyon/recipes-grandcanyon/plat-libs/files/pal/pal.c:1371-1397 | Displays nothing when the card is absent or unknown, when the selection cannot be read, or when the UART selects the BMC. Otherwise it displays the code. |
| GcPost.HandleLeavesPinsUnlessShown | meta-facebook/meta-grandcanyon/recipes-grandcanyon/plat-libs/files/pal/pal.c:1371-1397 | The UART selects never change, and the LEDs change only on the display path. |
| GcPost.HandleThenRead | meta-facebook/meta-grandcanyon/recipes-grandcanyon/plat-libs/files/pal/pal.c:1371-1397 | On the display path with working pins, the code reads back. |
| ExpansionVr.GetVerStr | meta-facebook/meta-fby3/recipes-fby3/fw-util/files/bic_expansion_vr.cpp:18-33 | The PESW VR gets four uppercase hex bytes, then ", Remaining Writes: " and the decimal of byte 4. Other VRs get two hex bytes. The BIC status is returned unchanged. |
| ExpansionVr.RemainingWritesReadsBack | meta-facebook/meta-fby3/recipes-fby3/fw-util/files/bic_expansion_vr.cpp:26 | The text after the label is all digits and reads back as byte 4. |
| ExpansionVr.SortByCode | meta-facebook/meta-fby3/recipes-fby3/fw-util/files/bic_expansion_vr.cpp:41-45 | Iterating the `std::map` visits a permutation of the five VRs, in increasing code order. |
| ExpansionVr.PrintsEveryVrOnce | meta-facebook/meta-fby3/recipes-fby3/fw-util/files/bic_expansion_vr.cpp:41-71 | Every VR is printed exactly once, in code order. |
| ExpansionVr.NotReady | meta-facebook/meta-fby3/recipes-fby3/fw-util/files/bic_expansion_vr.cpp:51-54 | The board is ready exactly when neither check throws. The server's error wins. |
| ExpansionVr.VrLine | meta-facebook/meta-fby3/recipes-fby3/fw-util/files/bic_expansion_vr.cpp:61-71 | A negative BIC status gives the NA line naming the board. Otherwise the line is the prefix followed by the version string. |
| ExpansionVr.PrintVersion | meta-facebook/meta-fby3/recipes-fby3/fw-util/files/bic_expansion_vr.cpp:39-74 | Always returns success with five lines. When the board is not ready, every line is an NA line with the error. Otherwise each line is its own VR's line. |
| ExpansionVr.VrFailureIsLocal | meta-facebook/meta-fby3/recipes-fby3/fw-util/files/bic_expansion_vr.cpp:61-71 | A VR's line depends only on that VR's BIC answer. |
| ExpansionVr.EveryLineNamesItsVr | meta-facebook/meta-fby3/recipes-fby3/fw-util/files/bic_expansion_vr.cpp:55-70 | Line `i` starts with the board name and the name of the `i`th VR. |
| ExpansionVr.BoardNameUppercased | meta-facebook/meta-fby3/recipes-fby3/fw-util/files/bic_expansion_vr.cpp:50 | Every line starts with the board name in upper case. |
| ExpansionVr.Update | meta-facebook/meta-fby3/recipes-fby3/fw-util/files/bic_expansion_vr.cpp:76-88 | When the board is not ready, it returns FW_STATUS_NOT_SUPPORTED with no BIC call. Otherwise it makes exactly one unforced BIC update and returns its result. |
| FwComponent.NewNic | common/recipes-core/fw-util/files/nic.h:6-15 | A NIC component keeps its FRU and name and uses the key "nic_fw_ver". |
| FwComponent.NewNicWithKey | common/recipes-core/fw-util/files/nic.h:16-17 | The second constructor uses the given key. |
| FwComponent.OverrideWithDefaultIsDefault | common/recipes-core/fw-util/files/nic.h:6-17 | The two constructors agree exactly when the override is the default key. |
| FwComponent.NewVr | common/recipes-core/fw-util/files/vr_fw.h:10-11 | The constructor keeps the FRU and component names and stores its third argument as the device name. |
| FwComponent.NewVrInjective | common/recipes-core/fw-util/files/vr_fw.h:6-11 | Two VR components are equal exactly when all three constructor arguments agree. |
| PyVersion.NormalizeVersion | common/recipes-utils/pypartition/files/system.py:949-958 | Only the first case-insensitive "fby2-gpv2-" is replaced by "fbgp2-". A string without it is returned unchanged. |
| PyVersion.FindIgnoringCase | common/recipes-utils/pypartition/files/system.py:954 | The first position where the pattern matches, ignoring case, or -1 when none does. |
| PyVersion.NoOldNameUnchanged | common/recipes-utils/pypartition/files/system.py:949-958 | A version with no '-' is returned unchanged. |
| PyVersion.RenamedPrefix | common/recipes-utils/pypartition/files/system.py:949-958 | A version starting with the old platform name gets the new one. |
| PyVersion.Release | common/recipes-utils/pypartition/files/system.py:961-990 | The issue line's version is the maximal word run after the release prefix. |
| PyVersion.SearchUboot | common/recipes-utils/pypartition/files/system.py:961-990 | A U-Boot version is found exactly when some position matches, and the first match is the one taken. |
| PyVersion.FirstUbootVersion | common/recipes-utils/pypartition/files/system.py:982-990 | Nothing is found exactly when no line has a U-Boot version. |
| PyVersion.FirstLineDecides | common/recipes-utils/pypartition/files/system.py:983-987 | The first line with a version decides. |
| PyVersion.ImageFileCompatible | common/recipes-utils/pypartition/files/system.py:961-990 | An unparsable issue line gives True. A failing `strings` gives False. Otherwise the image is compatible when no version is found or the first one equals the release. |
| PyVersion.MismatchRefused | common/recipes-utils/pypartition/files/system.py:961-990 | When the first version found differs from the release, the image is refused. |
| PyMtd.Selected | common/recipes-utils/pypartition/files/system.py:381-400 | With no vboot, any full-flash name qualifies. Under software enforcement only flash0 and flash1 qualify, and under hardware enforcement only flash1, with offset 384. |
| PyMtd.Candidates | common/recipes-utils/pypartition/files/system.py:381-397 | The candidates are exactly the selected entries. |
| PyMtd.AllMtds | common/recipes-utils/pypartition/files/system.py:381-400 | Every parsed MTD is in `all_mtds`, with offset 0. |
| PyMtd.SortDescending | common/recipes-utils/pypartition/files/system.py:399 | The result is a permutation of the input, sorted by device name in descending order. |
| PyMtd.GetMtds | common/recipes-utils/pypartition/files/system.py:368-400 | The offered list is the selected candidates, sorted in descending order. `all_mtds` lists every entry. |
| PyMtd.OfferedIffSelected | common/recipes-utils/pypartition/files/system.py:381-400 | An MTD is offered exactly when some entry selects it. |
| PyMtd.HardwareEnforceOffersFlash1 | common/recipes-utils/pypartition/files/system.py:394-397 | Under hardware enforcement, only flash1 at offset 384 is offered. |
| PyMtd.OfferedAmongAll | common/recipes-utils/pypartition/files/system.py:381-400 | Every offered MTD is also in `all_mtds`. |
| PyMtd.Insert | common/recipes-utils/pypartition/files/system.py:399 | Inserting into a sorted list keeps it sorted and adds exactly that element. |
| PyMeta.LoadImageMeta | common/recipes-utils/pypartition/files/system.py:668-726 | Errors come in order. A too-small image is NotFound. A failed `open` raises its own error. A failed read is NotFound. An md5 mismatch is Corrupted. A meta line that does not parse, or a version that `%d` cannot format, raises that error. A finite non-integer or boolean version, or an integer outside 1..1, is VerNotSupport. Missing part infos is MissingPartInfos. Each is raised exactly under its condition. |
| PyMeta.WellFormedMetaLoads | common/recipes-utils/pypartition/files/system.py:668-726 | Well-formed version-1 meta loads its part infos. |
| PyMeta.TypePart | common/recipes-utils/pypartition/files/system.py:737-795 | raw gives an external checksum, fit a device tree, and data/meta plain. mtdonly applies only to devices. rom is plain under hardware enforcement and checksummed otherwise. An unknown type is an AssertionError. |
| PyMeta.PartitionsFromMeta | common/recipes-utils/pypartition/files/system.py:731-795 | Succeeds exactly when every type is known, and then holds exactly the partitions made. Otherwise it reports the first unknown part. |
| PyMeta.ValidPartitionsFromMeta | common/recipes-utils/pypartition/files/system.py:799-808 | Returns the partitions exactly when all are valid. Otherwise it exits with 1. |
| PyMeta.Unvalidated | common/recipes-utils/pypartition/files/system.py:854-868 | env and data0 are never validated. u-boot is skipped exactly under hardware enforcement. |
| PyMeta.Covered | common/recipes-utils/pypartition/files/system.py:844-850 | The names covered by any partition's checksum. |
| PyMeta.CheckLegacy | common/recipes-utils/pypartition/files/system.py:870-888 | Accepts exactly when every partition is valid, covered or unvalidated, and consecutive partitions are contiguous. |
| PyMeta.GetValidPartitions | common/recipes-utils/pypartition/files/system.py:810-888 | Empty input gives []. A single image with meta is validated by the meta. Meta errors other than NotFound are re-raised. Otherwise the legacy checks decide. |
| PyMeta.UnvalidatedTolerated | common/recipes-utils/pypartition/files/system.py:854-879 | env, data0 and, under hardware enforcement, u-boot are accepted even when invalid. |
| PyMeta.UbootCheckedUnlessHardwareEnforced | common/recipes-utils/pypartition/files/system.py:867-879 | Outside hardware enforcement, an invalid and uncovered u-boot is refused. |
| PyMeta.GapRefused | common/recipes-utils/pypartition/files/system.py:881-885 | A gap between consecutive partitions is refused. |
| PyFlash.Flash | common/recipes-utils/pypartition/files/system.py:993-1042 | Exits with 1 when the image is too large, another flasher runs, or the image is incompatible and not forced. Fewer than one attempt means a single dd to /dev/null. Otherwise it tries up to `attempts` times and stops at the first success. A read-only head is spliced into a `.tmp` image, which is removed afterwards. |
| PyFlash.Retry | common/recipes-utils/pypartition/files/system.py:1029-1039 | Runs until the first success, within the budget, and reports whether the last run succeeded. |
| PyFlash.SpliceHead | common/recipes-utils/pypartition/files/system.py:1014-1021 | The temporary image is the device's first `offset` KiB followed by the rest of the image from that point. |
| PyFlash.FirstSuccessStops | common/recipes-utils/pypartition/files/system.py:1029-1039 | When run `k` is the first success, exactly `k+1` runs happen. |
| PyFlash.AllFailExhaust | common/recipes-utils/pypartition/files/system.py:1029-1039 | When every run fails, the whole budget is used and the flash fails. |
| PlatUtils.Chunks | common/recipes-lib/misc-utils/files/plat-utils.c:54 | `fgets` splits the file into chunks of 1 to LINE_MAX-1 characters. |
| PlatUtils.ChunksCoverFile | common/recipes-lib/misc-utils/files/plat-utils.c:54 | The chunks, put back together, are the file. |
| PlatUtils.ModelNameOf | common/recipes-lib/misc-utils/files/plat-utils.c:55-66 | Only lines that start with "model name" and contain ':' give a name. The name has the white space after the colon removed. |
| PlatUtils.ReadCpuinfo | common/recipes-lib/misc-utils/files/plat-utils.c:44-72 | An unopenable file gives -1. Otherwise the last model name wins. |
| PlatUtils.GetCpuModel | common/recipes-lib/misc-utils/files/plat-utils.c:80-93 | Names starting "ARM926" give ARMv5 and names starting "ARMv6" give ARMv6. |
| PlatUtils.ReadDtCompat | common/recipes-lib/misc-utils/files/plat-utils.c:95-109 | An unreadable or empty device tree gives nothing. |
| PlatUtils.GetSocModel | common/recipes-lib/misc-utils/files/plat-utils.c:117-148 | A readable device tree decides by "ast2400" or "ast2500". Otherwise ARM926 gives G4 and ARMv6 gives G5. |
| PlatUtils.FirstCompatEntryDecides | common/recipes-lib/misc-utils/files/plat-utils.c:95-133 | Only the first NUL-separated entry of the compatible file is read. Whatever follows the first NUL, the buffer is that entry with trailing white space removed. |
| PlatUtils.FirstCompatEntryWithoutTwoGivesNoSoc | common/recipes-lib/misc-utils/files/plat-utils.c:117-133 | A first entry without the digit '2' gives no SoC, whatever entries follow it, and the CPU model is not consulted. |
| PlatUtils.BoardFirstCompatGivesNoSoc | common/recipes-lib/misc-utils/files/plat-utils.c:126-133 | A compatible file whose first entry is "facebook,wedge100-bmc" gives no SoC, even when "aspeed,ast2400" follows. |
| PlatUtils.GetKernelVersion | common/recipes-lib/misc-utils/files/plat-utils.c:156-178 | A failing `uname` gives 0. Otherwise the result is the first three maximal decimal runs, with missing fields 0. |
| PlatUtils.DottedRelease | common/recipes-lib/misc-utils/files/plat-utils.c:161-177 | "a.b.c-suffix" parses to (a, b, c). |
| PlatUtils.TwoFieldRelease | common/recipes-lib/misc-utils/files/plat-utils.c:161-177 | "a.b" parses to (a, b, 0). |
| PlatUtils.NoDigitsNoRuns | common/recipes-lib/misc-utils/files/plat-utils.c:161-177 | A release without digits parses to zeros. |
| PlatUtils.SingleInstanceLock | common/recipes-lib/misc-utils/files/plat-utils.c:186-206 | Opens the pid file and takes a non-blocking exclusive `flock`. On failure it closes the descriptor and returns -1 with `errno` preserved. It returns the descriptor exactly when both calls succeed. |
| PlatUtils.LockFailureClosesFd | common/recipes-lib/misc-utils/files/plat-utils.c:193-205 | Once the open succeeded, the descriptor is closed exactly when the lock fails. |
| JtagShim.Free | meta-aspeed/recipes-utils/cpldupdate/files/cpldupdate_dll_ast_jtag.c:54-72 | Does nothing on NULL. Otherwise it closes the chardev first when it is open, then exactly the pin descriptors other than -1. |
| JtagShim.OpenPins | meta-aspeed/recipes-utils/cpldupdate/files/cpldupdate_dll_ast_jtag.c:97-119 | Opens TDI, TCK, TMS and TDO in order. On the first failure it frees the context, closing exactly the descriptors opened so far, and returns that `errno`. |
| JtagShim.ChardevAsWritten | meta-aspeed/recipes-utils/cpldupdate/files/cpldupdate_dll_ast_jtag.c:89-95 | As written: a failed chardev open stops init without setting `rc`. |
| JtagShim.ChardevFailureReportsSuccess | meta-aspeed/recipes-utils/cpldupdate/files/cpldupdate_dll_ast_jtag.c:75-119 | As written, a chardev open failure returns 0 with no context. |
| JtagShim.InitAsWritten | meta-aspeed/recipes-utils/cpldupdate/files/cpldupdate_dll_ast_jtag.c:74-120 | As written: ENOMEM when allocation fails, and 0 with no context on a chardev failure. |
| JtagShim.Chardev | meta-aspeed/recipes-utils/cpldupdate/files/cpldupdate_dll_ast_jtag.c:89-95 | Corrected: a chardev open failure returns its `errno`. |
| JtagShim.Init | meta-aspeed/recipes-utils/cpldupdate/files/cpldupdate_dll_ast_jtag.c:74-120 | A context is returned exactly when allocation, the chardev (if needed) and all four pins succeed. It then holds the opened descriptors, with rc 0. A chardev failure returns that open's `errno`. When every failing open reports a positive `errno`, the rc is 0 exactly when a context is returned. A failure after the chardev opened closes it. |
| JtagShim.WritePin | meta-aspeed/recipes-utils/cpldupdate/files/cpldupdate_dll_ast_jtag.c:122-139 | A NULL context or a pin out of range gives EINVAL. A seek or write error is returned. LOW writes "0" and any other value writes "1". |
| JtagShim.ReadPin | meta-aspeed/recipes-utils/cpldupdate/files/cpldupdate_dll_ast_jtag.c:141-159 | The same checks as `write_pin`. The value is HIGH exactly when `atoi` of the bytes read is nonzero. |
| JtagShim.WriteThenRead | meta-aspeed/recipes-utils/cpldupdate/files/cpldupdate_dll_ast_jtag.c:122-159 | Reading back what was written, optionally followed by a newline, gives the written level. |
| PimStatus.PimState | meta-facebook/meta-elbert/recipes-utils/rest-api/files/rest_pimstatus.py:35-40 | "down" exactly when the first line strips to "0xff", "up" for any other readable file, and "unknown" when the file cannot be read. |
| PimStatus.PreparePimStatus | meta-facebook/meta-elbert/recipes-utils/rest-api/files/rest_pimstatus.py:29-42 | The keys are exactly pim2 to pim9, each with its own PIM's state, and every value is down, up or unknown. |
| PimStatus.RevisionDecides | meta-facebook/meta-elbert/recipes-utils/rest-api/files/rest_pimstatus.py:36-38 | A blank-padded "0xff" line gives down, and any other revision gives up. |
| PimStatus.KeysAndPathsDistinct | meta-facebook/meta-elbert/recipes-utils/rest-api/files/rest_pimstatus.py:26-34 | Different PIMs have different keys and paths. |
| PimStatus.FullStatusKeys | meta-facebook/meta-elbert/recipes-utils/rest-api/files/rest_pimstatus.py:32-34 | The map has exactly eight keys. |
| PimStatus.GetPimStatus | meta-facebook/meta-elbert/recipes-utils/rest-api/files/rest_pimstatus.py:45-48 | Wraps the map as the information, with no actions and no resources. |
| Common.HexDecodeEncode | meta-facebook/meta-grandcanyon/recipes-grandcanyon/plat-libs/files/pal/pal.c:900-903 | Decoding the `%02x` text of bytes gives those bytes back. |
| Common.Atoi | meta-facebook/meta-grandcanyon/recipes-grandcanyon/plat-libs/files/pal/pal.c:1143 | `atoi` on the 32-bit BMC reads the leading decimal number and saturates it to the range [LONG_MIN, LONG_MAX]. It keeps the value when it fits, and it is 0 exactly when the number is 0. |
| Common.StrtolHexPair | meta-facebook/meta-grandcanyon/recipes-grandcanyon/plat-libs/files/pal/pal.c:982-985 | C `strtol(…, 16)` on two characters and a newline is their hex pair value. |

## Left out

- `pal_read_pax_dietemp` is modelled only for its lock and cache behaviour. Its floating-point temperature conversion is left out.
- Real `flock` semantics and blocking between processes are left out. The PAX lock is a held flag, and an attempt succeeds or fails as its parameter says.
- PaxSwitch.PaxLock: the descriptor `pax_lock` leaks when `flock` fails (pal_switch.c:39-42) is not modelled. It holds no lock, so the lock state is unaffected.
- A `kv_get` that fails on a key that is present is not modelled, in `PaxSwitch` and `GcKeys`. A read hits exactly when the key is stored.
- A `pax_lock` by a process that already holds the lock is modelled as a call that never returns.
- `pal.c`'s GPIO and LED setters, `pal_bypass_cmd`, and the i2c bind/unbind shell commands are left out. They are hardware I/O and shell.
- The time and `rand()` bytes of `pal_populate_guid` are parameters, not computed.
- The switchtec SDK, the BIC, `kv_*`, `fruid_parse`, md5, json, `strings`, regex and subprocess calls are parameters: their answers, not their code.
- `pal.h`, `fruid.h`, `bic.h`, `kv.h`, `fw-util.h` and `cpldupdate_dll.h` are not part of this model. Header constants the model needs become parameters:
  - FRU ids;
  - SIZE_BOOT_ORDER, as the input length;
  - the SKU width and MAX_SKU_VALUE;
  - the BMC UART selection;
  - PAL_ENOTSUP.
- `virtualcat.py` and `partition.py` are not part of this model. The legacy `get_partitions` result, partition validity and checksum coverage are parameters of `PyMeta.GetValidPartitions`.
- `improve_system.py`, `pal-sensors.h` and the Go tests in `tools/flashy` are not modelled. They are orchestration, declarations and tests.
- `PlatUtils.GetKernelVersion` returns the three fields. The `KERNEL_VERSION` packing is left out.
- `PlatUtils.ReadDtCompat` does not model the descriptor that `proc_read_dt_compat` leaves open.
- `single_instance_unlock` is not modelled.
- VrComponent's `update(image)`, `fupdate(image)` and private `update(image, force)` are not modelled. `vr_fw.h:8,14-15` only declares them, and their bodies in `vr_fw.cpp` are not part of this model.
- `JtagShim.ReadPin` does not model the 32-byte buffer's NUL termination. It takes `atoi` of at most the first 32 bytes.
- `PyVersion.SearchUboot` and `PyVersion.Release` state the regular expressions as word runs after a fixed prefix, not as a regex engine.
- PyVersion.Release: `\w` and `re.I` are taken as ASCII-only. The issue line is read as text, where Python 3 matches Unicode word characters and folds Unicode case, so a release with non-ASCII letters can differ.
- ClearcreekFruid.CopyReturnsErrno: `syslog` and `strerror`, called on the error paths before `errno` is returned, are assumed to leave `errno` alone.
- syslog, logging and stdout text other than the version lines are not modelled.
- `PlatUtils.StrtolRun` is bounded by LONG_MAX, and the saturation of larger runs is not modelled in detail.

## Findings

| source | as written | input that shows it | evidently intended | confidence | as-written member | corrected member |
|---|---|---|---|---|---|---|
| meta-aspeed/recipes-utils/cpldupdate/files/cpldupdate_dll_ast_jtag.c:75,89-95,117-119 | When the JTAG chardev open fails on kernels 5.6 and later, init jumps to `err_out` without setting `rc`, which is still 0. It returns success and leaves `*ctx` unset. | kernel 5.6 or later and `open(JTAG_CHAR_DEV)` failing with `errno` = ENOENT | return the open's `errno`, as the pin opens do | not executed | JtagShim.ChardevFailureReportsSuccess | JtagShim.Init |

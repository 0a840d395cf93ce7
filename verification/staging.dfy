/**
  Descriptor-level model of copying a FRU EEPROM into a staging file, shared
  by the clearcreek, fbep and grandcanyon copies.

  An EEPROM is opened read-only and the staging ("bin") file write-only with
  `O_CREAT` and without `O_TRUNC`, so bytes beyond what is written survive
  from an earlier copy.  Each descriptor keeps its own offset: a `read`
  continues where the previous one stopped and a `write` lands where the
  previous one ended.  Whether a system call fails is an oracle
  (`ReadResult`, `WriteResult`); what a successful read returns is fixed by
  the EEPROM contents and the offset.
 */
module Staging {
  import opened Common

  /** `FRUID_SIZE`: every copy moves one 512-byte block. */
  const FRUID_SIZE: nat := 512

  datatype OpenResult = Opens | OpenFails(errno: int)
  datatype ReadResult = ReadOk | ReadFails(errno: int)
  /** `write` either reports how many bytes it wrote or fails with an errno. */
  datatype WriteResult = Wrote(count: nat) | WriteFails(errno: int)

  /** How one read-then-write cycle ended. */
  datatype CycleEnd =
    | Copied          // a full block was read and written
    | ReadError(errno: int)
    | ShortRead       // fewer than FRUID_SIZE bytes were available
    | WriteError(errno: int)
    | ShortWrite      // `write` wrote fewer bytes than were read

  /** The end of a cycle with both descriptor offsets and the staging file afterwards. */
  datatype Cycle = Cycle(end: CycleEnd, block: seq<Byte>, rpos: nat, bin: seq<Byte>, wpos: nat)

  function Min(a: nat, b: nat): nat { if a <= b then a else b }

  /** `read(fd, buf, n)` at offset `pos` of a file holding `data`. */
  function ReadAt(data: seq<Byte>, pos: nat, n: nat): (b: seq<Byte>)
    ensures |b| <= n
    ensures pos + |b| <= |data| || b == []
    ensures pos + n <= |data| ==> b == data[pos..pos + n]
    ensures n > 0 && pos + n > |data| ==> |b| < n
    ensures pos <= |data| ==> b == data[pos..pos + |b|]
  {
    if pos >= |data| then [] else data[pos..Min(pos + n, |data|)]
  }

  /** `write(fd, block, |block|)` at offset `pos`: overwrite, extending the file when needed. */
  function Overwrite(data: seq<Byte>, pos: nat, block: seq<Byte>): (r: seq<Byte>)
    requires pos <= |data|
    ensures |r| == if pos + |block| <= |data| then |data| else pos + |block|
    ensures r[..pos] == data[..pos]
    ensures r[pos..pos + |block|] == block
    ensures pos + |block| < |data| ==> r[pos + |block|..] == data[pos + |block|..]
  {
    data[..pos] + block + (if pos + |block| < |data| then data[pos + |block|..] else [])
  }

  /**
    One cycle of `read(eeprom, tmp, FRUID_SIZE)` followed, when a full block
    came back, by `write(bin, tmp, bytes_rd)`.
   */
  function CopyCycle(eeprom: seq<Byte>, rpos: nat, bin: seq<Byte>, wpos: nat,
                     rd: ReadResult, wr: WriteResult): (c: Cycle)
    requires wpos <= |bin|
    ensures c.wpos <= |c.bin|
    ensures |c.bin| >= |bin| && c.bin[..wpos] == bin[..wpos]
    ensures c.end != Copied ==> c.wpos == wpos || c.end == ShortWrite
    ensures c.end == Copied <==> rd == ReadOk && rpos + FRUID_SIZE <= |eeprom| && wr.Wrote? && wr.count >= FRUID_SIZE
    ensures c.end == Copied ==>
              c.block == eeprom[rpos..rpos + FRUID_SIZE] && c.rpos == rpos + FRUID_SIZE
              && c.wpos == wpos + FRUID_SIZE && c.bin == Overwrite(bin, wpos, c.block)
    ensures c.end == ShortRead <==> rd == ReadOk && rpos + FRUID_SIZE > |eeprom|
    ensures (c.end.ReadError? || c.end == ShortRead || c.end.WriteError?) ==> c.bin == bin
    ensures c.end.ReadError? ==> rd == ReadFails(c.end.errno)
    ensures c.end.WriteError? ==> wr == WriteFails(c.end.errno)
    ensures c.end == ShortWrite <==> rd == ReadOk && rpos + FRUID_SIZE <= |eeprom| && wr.Wrote? && wr.count < FRUID_SIZE
    ensures c.end == ShortRead && rpos <= |eeprom| ==> c.rpos == |eeprom|
  {
    match rd
    case ReadFails(e) => Cycle(ReadError(e), [], rpos, bin, wpos)
    case ReadOk =>
      var block := ReadAt(eeprom, rpos, FRUID_SIZE);
      if |block| < FRUID_SIZE then Cycle(ShortRead, block, rpos + |block|, bin, wpos)
      else
        match wr
        case WriteFails(e) => Cycle(WriteError(e), block, rpos + |block|, bin, wpos)
        case Wrote(n) =>
          var m := Min(n, |block|);
          var bin' := Overwrite(bin, wpos, block[..m]);
          if m != |block| then Cycle(ShortWrite, block, rpos + |block|, bin', wpos + m)
          else Cycle(Copied, block, rpos + |block|, bin', wpos + m)
  }

  /**
    The staging file after `k` full cycles of a copy that started on a file
    holding `orig`: the first `k` EEPROM blocks, then whatever of `orig` lies
    beyond them.
   */
  function StagedImage(eeprom: seq<Byte>, orig: seq<Byte>, k: nat): (img: seq<Byte>)
    requires FRUID_SIZE * k <= |eeprom|
    ensures |img| >= FRUID_SIZE * k
    ensures img[..FRUID_SIZE * k] == eeprom[..FRUID_SIZE * k]
  {
    var n := FRUID_SIZE * k;
    eeprom[..n] + (if n < |orig| then orig[n..] else [])
  }

  /** A full cycle at the end of `k` cycles produces the image of `k + 1` cycles. */
  lemma StagedImageStep(eeprom: seq<Byte>, orig: seq<Byte>, k: nat, rd: ReadResult, wr: WriteResult)
    requires FRUID_SIZE * k <= |eeprom|
    requires CopyCycle(eeprom, FRUID_SIZE * k, StagedImage(eeprom, orig, k), FRUID_SIZE * k, rd, wr).end == Copied
    ensures FRUID_SIZE * (k + 1) <= |eeprom|
    ensures CopyCycle(eeprom, FRUID_SIZE * k, StagedImage(eeprom, orig, k), FRUID_SIZE * k, rd, wr).bin
            == StagedImage(eeprom, orig, k + 1)
  {
    var n := FRUID_SIZE * k;
    var img := StagedImage(eeprom, orig, k);
    var c := CopyCycle(eeprom, n, img, n, rd, wr);
    var next := StagedImage(eeprom, orig, k + 1);
    assert |c.bin| == |next|;
    forall i | 0 <= i < |next|
      ensures c.bin[i] == next[i]
    {
      if i < n {
        assert c.bin[..n] == img[..n];
        assert c.bin[i] == c.bin[..n][i];
        assert img[..n] == eeprom[..n];
        assert next[..n + FRUID_SIZE] == eeprom[..n + FRUID_SIZE];
        assert next[i] == next[..n + FRUID_SIZE][i];
      } else if i < n + FRUID_SIZE {
        assert c.bin[n..n + FRUID_SIZE] == c.block;
        assert c.bin[i] == c.bin[n..n + FRUID_SIZE][i - n];
        assert next[i] == next[..n + FRUID_SIZE][i];
      } else {
        assert c.bin[n + FRUID_SIZE..] == img[n + FRUID_SIZE..];
        assert c.bin[i] == c.bin[n + FRUID_SIZE..][i - n - FRUID_SIZE];
      }
    }
  }

  // ---------------------------------------------------------------------------
  // A whole copy and the files it leaves behind
  // ---------------------------------------------------------------------------

  /**
    What the calls of one copy return: the two opens, the read and write of
    attempt `k` (0-based), and `errno` as the `fruid_parse` after attempt
    `k` leaves it (that parser is foreign code, free to set `errno` or not).
   */
  datatype StageEnv = StageEnv(eepromOpen: OpenResult, binOpen: OpenResult,
                               read: nat -> ReadResult, write: nat -> WriteResult,
                               parseErrno: nat -> int)

  /** Why a copy returned. */
  datatype Exit =
    | EepromOpenFailed
    | BinOpenFailed
    | Stopped(end: CycleEnd)   // the last cycle did not complete (or, single-attempt copies, did)
    | Parsed                   // the staged image parsed after a full cycle
    | RetriesExhausted         // the retry budget ran out with the image still unparsable

  /**
    The result of a copy: the returned `errno`, why it returned, the staging
    file afterwards (`None`: it does not exist), the number of completed full
    cycles and the final offsets of both descriptors.
   */
  datatype Staged = Staged(ret: int, exit: Exit, bin: Option<seq<Byte>>, cycles: nat, rpos: nat, wpos: nat)

  /**
    The `errno` a cycle leaves behind when it starts with `before`: only a
    failing `read` or `write` sets it; a short read or short write leaves it.
   */
  function CycleErrno(e: CycleEnd, before: int): (n: int)
    ensures e.ReadError? ==> n == e.errno
    ensures e.WriteError? ==> n == e.errno
    ensures e == Copied || e == ShortRead || e == ShortWrite ==> n == before
  {
    match e
    case ReadError(n) => n
    case WriteError(n) => n
    case _ => before
  }

  /** What a staging file holds before it is (re)opened: nothing if it does not exist. */
  function Existing(f: Option<seq<Byte>>): seq<Byte> {
    if f.Some? then f.value else []
  }

  /** The files under /tmp, by path. */
  type Files = map<string, seq<Byte>>

  function Lookup(fs: Files, path: string): (f: Option<seq<Byte>>)
    ensures f.Some? <==> path in fs
    ensures f.Some? ==> f.value == fs[path]
  {
    if path in fs then Some(fs[path]) else None
  }

  /** The files after a copy into `path`: unchanged when the staging file was never opened. */
  function Store(fs: Files, path: string, r: Staged): (fs': Files)
    ensures r.bin.Some? ==> fs' == fs[path := r.bin.value]
    ensures r.bin.None? ==> fs' == fs
  {
    if r.bin.Some? then fs[path := r.bin.value] else fs
  }

  /** `stat(path).st_size`, or 0 when `stat` fails. */
  function FileSize(fs: Files, path: string): (n: nat)
    ensures path in fs ==> n == |fs[path]|
    ensures path !in fs ==> n == 0
  {
    if path in fs then |fs[path]| else 0
  }

  /**
    `open(path, O_RDONLY)`, `lseek(fd, offset, SEEK_SET)`, then
    `read(fd, data, count)` and the test `ret != count`: 0 with the bytes
    when exactly `count` bytes come back, -1 on every other outcome (a
    failed `open` and a failed `lseek` both return -1 themselves).

    A negative `count` becomes a `size_t` near SIZE_MAX, for which Linux's
    `read` fails with EFAULT before touching the file and returns -1.  For
    `count == -1` that equals `count`, so the call reports success with no
    data; for any other negative count it reports failure.
   */
  function ReadFile(fs: Files, path: string, offset: int, count: int): (r: (int, seq<Byte>))
    ensures r.0 == 0 || r.0 == -1
    ensures r.0 == 0 <==> path in fs && 0 <= offset
                          && (count == -1 || (0 <= count && (count == 0 || offset + count <= |fs[path]|)))
    ensures r.0 == 0 && count >= 0 ==> |r.1| == count
    ensures r.0 == 0 && count > 0 ==> r.1 == fs[path][offset..offset + count]
    ensures r.0 != 0 || count == -1 ==> r.1 == []
  {
    if path !in fs then (-1, [])
    else if offset < 0 then (-1, [])
    else if count < 0 then (if count == -1 then 0 else -1, [])   // `read` returned -1
    // seeking past the end succeeds; the read then returns 0 bytes
    else
      var got := ReadAt(fs[path], offset, count);
      if |got| != count then (-1, []) else (0, got)
  }
}

/**
 * The binary update test application: copies the stored image of `micom` into a
 * new slot one version higher (rewriting the header's version, streaming the
 * payload through a 512-byte buffer while accumulating the checksum, then
 * back-patching the checksum field), onboards a copy under a new name, and runs
 * the fixed scenario sequence that tallies failures in `fail_cnt`.
 *
 * Files are byte sequences behind small handle classes; the binary manager's
 * answers (queries, slot allocation, reload, callback registration) are oracle
 * values supplied by the caller.
 */
module BinaryUpdate {
  import opened Wrappers
  import opened ByteOrder
  import opened Crc
  import opened CString
  import opened BinaryHeader

  const APP_NAME: string := "micom"
  const NEW_APP_NAME: string := "newapp"
  const NEW_APP_VERSION: string := "20200421"
  const BUFFER_SIZE: nat := 512
  const OK: int := 0
  const ERROR: int := -1

  datatype Condition = DownloadValidBin | DownloadInvalidBin

  /** The file `<BINARY_DIR_PATH>/<name>_<version>` of the binary directory. */
  datatype BinaryFile = BinaryFile(name: string, version: string)

  /** `binary_update_info_t` as the binary manager reports it. */
  datatype UpdateInfo = UpdateInfo(name: string, version: string, availableSize: int)

  function Min(a: int, b: int): int { if a < b then a else b }
  function Max(a: int, b: int): int { if a < b then b else a }

  /** A descriptor from `open(path, O_RDONLY)`: reads move through the file and come up short only at its end. */
  class SourceFile {
    const contents: seq<byte>
    var pos: nat
    var isOpen: bool

    ghost predicate Valid()
      reads this
    {
      pos <= |contents|
    }

    constructor Open(contents: seq<byte>)
      ensures Valid() && this.contents == contents && pos == 0 && isOpen
    {
      this.contents := contents;
      pos := 0;
      isOpen := true;
    }

    /** `read(fd, buf, n)` */
    method Read(n: nat) returns (ret: int, buf: seq<byte>)
      requires Valid() && isOpen
      modifies this`pos
      ensures Valid()
      ensures ret == Min(n, |contents| - old(pos)) && ret >= 0
      ensures pos == old(pos) + ret
      ensures buf == contents[old(pos)..pos]
    {
      ret := Min(n, |contents| - pos);
      buf := contents[pos..pos + ret];
      pos := pos + ret;
    }

    method Close()
      modifies this`isOpen
      ensures !isOpen
    {
      isOpen := false;
    }
  }

  /** What `write` returns for n bytes at offset pos of a file that can hold `capacity` bytes. */
  function WriteResult(capacity: nat, pos: nat, n: nat): (r: int)
    ensures r == -1 <==> n > 0 && pos >= capacity
    ensures r != -1 ==> 0 <= r <= n && pos + r <= Max(capacity, pos)
    ensures n > 0 && pos < capacity ==> r > 0
    ensures 0 <= r < n ==> pos + r == capacity
  {
    if n == 0 then 0 else if pos >= capacity then -1 else Min(n, capacity - pos)
  }

  /** The file `data` after writing `bytes` at offset `pos`. */
  function Overwrite(data: seq<byte>, pos: nat, bytes: seq<byte>): (r: seq<byte>)
    requires pos <= |data|
    ensures |r| == Max(|data|, pos + |bytes|)
    ensures r[..pos] == data[..pos] && r[pos..pos + |bytes|] == bytes
    ensures pos + |bytes| < |data| ==> r[pos + |bytes|..] == data[pos + |bytes|..]
  {
    data[..pos] + bytes + (if pos + |bytes| < |data| then data[pos + |bytes|..] else [])
  }

  /**
   * A descriptor from `binary_manager_open_new_entry`: a new, empty slot file that
   * can hold `capacity` bytes. A write that does not fit comes up short, one that
   * finds no room at all fails with -1; `lseek` reports `seekResult`.
   */
  class SlotFile {
    const capacity: nat
    const seekResult: int
    var data: seq<byte>
    var pos: nat
    var isOpen: bool

    ghost predicate Valid()
      reads this
    {
      pos <= |data| <= capacity
    }

    constructor Create(capacity: nat, seekResult: int)
      ensures Valid() && this.capacity == capacity && this.seekResult == seekResult
      ensures data == [] && pos == 0 && isOpen
    {
      this.capacity := capacity;
      this.seekResult := seekResult;
      data := [];
      pos := 0;
      isOpen := true;
    }

    /** `write(fd, bytes, |bytes|)` */
    method Write(bytes: seq<byte>) returns (ret: int)
      requires Valid() && isOpen
      modifies this`data, this`pos
      ensures Valid()
      ensures ret == WriteResult(capacity, old(pos), |bytes|)
      ensures pos == old(pos) + Max(ret, 0)
      ensures data == Overwrite(old(data), old(pos), bytes[..Max(ret, 0)])
    {
      ret := WriteResult(capacity, pos, |bytes|);
      var written := Max(ret, 0);
      data := Overwrite(data, pos, bytes[..written]);
      pos := pos + written;
    }

    /** `lseek(fd, 0, SEEK_SET)` */
    method SeekStart() returns (ret: int)
      requires Valid()
      modifies this`pos
      ensures Valid()
      ensures ret == seekResult
      ensures pos == if ret == 0 then 0 else old(pos)
    {
      ret := seekResult;
      if ret == 0 {
        pos := 0;
      }
    }

    method Close()
      modifies this`isOpen
      ensures !isOpen
    {
      isOpen := false;
    }
  }

  /** The size of the next read of the copy loop: a full buffer, or what is left. */
  function ChunkSize(total: int, copied: int): (r: nat)
    requires copied < total
    ensures 0 < r <= BUFFER_SIZE
    ensures copied + r <= total
    ensures r < BUFFER_SIZE ==> copied + r == total
  {
    if total - copied < BUFFER_SIZE then total - copied else BUFFER_SIZE
  }

  /** The percentage the copy loop prints after each chunk. */
  function Progress(copied: int, total: int): int
    requires total > 0
  {
    copied * 100 / total
  }

  /**
   * The percentage as the copy loops compute it: `copy_size * 100` is a product of
   * 32-bit `int`s, which wraps around (as two's complement) once more than
   * INT32_MAX / 100 bytes are copied, before the truncating division.
   */
  function ProgressAsWritten(copied: int, total: int): (r: int)
    requires 0 <= copied <= INT32_MAX && total > 0
    ensures copied * 100 <= INT32_MAX ==> r == Progress(copied, total)
  {
    TruncDiv(Signed32(Unsigned32(copied * 100)), total)
  }

  /** An image of 21474837 bytes makes its last chunk print -99 instead of 100. */
  lemma ProgressOverflows()
    ensures ProgressAsWritten(21474837, 21474837) == -99
    ensures Progress(21474837, 21474837) == 100
  {
    assert Unsigned32(2147483700) as int == 2147483700;
    assert Signed32(Unsigned32(2147483700)) == 2147483700 - UINT32_MODULUS;
  }

  lemma MulMonotonic(a: int, b: int, t: int)
    requires a <= b && t >= 0
    ensures a * t <= b * t
  {
    assert b * t - a * t == (b - a) * t;
  }

  /** The progress stays within 0 .. 100 and reaches 100 exactly with the last chunk. */
  lemma ProgressBounds(copied: int, total: int)
    requires 0 <= copied <= total && total > 0
    ensures 0 <= Progress(copied, total) <= 100
    ensures Progress(copied, total) == 100 <==> copied == total
  {
    var p := copied * 100 / total;
    var q := copied * 100 % total;
    assert copied * 100 == p * total + q && 0 <= q < total;
    if p < 0 {
      MulMonotonic(p, -1, total);
      assert false;
    }
    if p > 100 {
      MulMonotonic(101, p, total);
      assert false;
    }
    if p < 100 {
      MulMonotonic(p, 99, total);
    }
  }

  /**
   * The payload bytes the copy loop moves before it stops, when `room` bytes can be
   * read from the source and written to the slot: all n, or whole buffers up to the
   * first chunk that does not fit.
   */
  function CopiedBeforeStop(n: nat, room: nat): (r: nat)
    ensures room >= n ==> r == n
    ensures room < n ==> r % BUFFER_SIZE == 0 && r <= room < r + BUFFER_SIZE && r < n
  {
    if room >= n then n else (room / BUFFER_SIZE) * BUFFER_SIZE
  }

  lemma FloorToChunk(k: nat, room: nat)
    requires BUFFER_SIZE * k <= room < BUFFER_SIZE * k + BUFFER_SIZE
    ensures (room / BUFFER_SIZE) * BUFFER_SIZE == BUFFER_SIZE * k
  {
  }

  /** The bytes appended so far followed by a prefix of the next chunk are again a slice of the source. */
  lemma AppendChunkPrefix(src: seq<byte>, from: nat, copied: nat, size: nat, appended: seq<byte>, chunk: seq<byte>,
                          m: nat, k: nat)
    requires from + copied + size <= |src| && m <= size && k == copied + m
    requires appended == src[from..from + copied] && chunk == src[from + copied..from + copied + size]
    ensures appended + chunk[..m] == src[from..from + k]
    ensures m == size ==> appended + chunk == src[from..from + k]
  {
    var whole := src[from..from + k];
    forall i | 0 <= i < k
      ensures (appended + chunk[..m])[i] == whole[i]
    {
      if i < copied {
        assert appended[i] == src[from + i];
      } else {
        assert chunk[..m][i - copied] == src[from + i];
      }
    }
    assert appended + chunk[..m] == whole;
    if m == size {
      assert chunk[..m] == chunk;
    }
  }

  lemma ConcatAssoc(a: seq<byte>, b: seq<byte>, c: seq<byte>)
    ensures a + b + c == a + (b + c)
  {
  }

  /** Writing at the end of a file appends. */
  lemma OverwriteAtEnd(data: seq<byte>, bytes: seq<byte>)
    ensures Overwrite(data, |data|, bytes) == data + bytes
  {
  }

  /** A write of n > 0 bytes at `pos` either goes in whole or fills the file up. */
  lemma WriteOutcome(capacity: nat, pos: nat, n: nat, ret: int)
    requires pos <= capacity && n > 0 && ret == WriteResult(capacity, pos, n)
    ensures ret == n <==> n <= capacity - pos
    ensures ret != n ==> Max(ret, 0) == capacity - pos && (ret == -1 <==> pos == capacity)
  {
  }

  /** Writing at the end of `start + appended` extends what was appended. */
  lemma WriteAppends(start: seq<byte>, appended: seq<byte>, bytes: seq<byte>)
    ensures Overwrite(start + appended, |start + appended|, bytes) == start + (appended + bytes)
  {
    OverwriteAtEnd(start + appended, bytes);
    ConcatAssoc(start, appended, bytes);
  }

  /** The payload length the copy loop uses: `bin_size` assigned to an `int`, nothing when negative. */
  function PayloadLength(h: Header): (n: nat)
    ensures n <= h.binSize as nat
    ensures h.binSize as int <= INT32_MAX ==> n == h.binSize as nat
    ensures h.binSize as int > INT32_MAX ==> n == 0
  {
    Max(Signed32(h.binSize), 0)
  }

  /** The value back-patched into the checksum field: the checksum, or the checksum plus one for an invalid image. */
  function Patched(crc: uint32, corrupt: bool): (r: uint32)
    ensures corrupt ==> r == Increment32(crc)
    ensures !corrupt ==> r == crc
    ensures corrupt <==> r != crc
  {
    if corrupt then Increment32(crc) else crc
  }

  datatype Stage =
    | SizeRejected       // onboarding only: the image does not fit the free space
    | OpenFailed         // no stored image to read
    | HeaderReadFailed   // the stored image is shorter than a header
    | EntryFailed        // the binary manager refused the new slot
    | HeaderWriteFailed
    | PayloadReadFailed
    | PayloadWriteFailed
    | SeekFailed
    | Completed
  {
    /** Stops before a slot exists: one failure, and no slot handle to close. */
    predicate BeforeSlot()
    {
      SizeRejected? || OpenFailed? || HeaderReadFailed? || EntryFailed?
    }
  }

  /**
   * How a download ended: the stage it reached, the last value of `ret`, the payload
   * bytes copied, the running checksum and the version requested for the slot.
   */
  datatype Download = Download(stage: Stage, lastRet: int, copied: nat, crc: uint32, requested: int)
  {
    /** What the download adds to `fail_cnt`. */
    function Failures(): nat
    {
      if stage.BeforeSlot() || lastRet < 0 then 1 else 0
    }
  }

  /** Where the copy loop stops, the last `ret`, what it copied and checksummed, and the bytes it appended. */
  datatype CopyEnd = CopyEnd(stage: Stage, ret: int, copied: nat, crc: uint32, appended: seq<byte>)

  /**
   * The copy loop in closed form: moving `total` bytes of `src` from offset `from` into
   * a slot with `slotRoom` bytes free, starting from checksum `crc0`. The `ret` of a
   * loop that ran to its end is overwritten before use and is left at 0 here.
   */
  function CopyExpected(src: seq<byte>, from: nat, slotRoom: nat, total: int, crc0: uint32, step: CrcStep): CopyEnd
    requires from <= |src|
  {
    var n := Max(total, 0);
    var srcRoom := |src| - from;
    var room := Min(srcRoom, slotRoom);
    var copied := CopiedBeforeStop(n, room);
    var crc := Crc32Part(step, src[from..from + copied], crc0);
    if room >= n then CopyEnd(Completed, 0, n, crc, src[from..from + n])
    else if srcRoom < copied + ChunkSize(n, copied) then
      CopyEnd(PayloadReadFailed, srcRoom - copied, copied, crc, src[from..from + copied])
    else
      CopyEnd(PayloadWriteFailed, if slotRoom == copied then -1 else slotRoom - copied, copied, crc,
              src[from..from + slotRoom])
  }

  /**
   * What the copy loop guarantees: it completes exactly when the payload fits both
   * files; otherwise it stops after whole buffers, having appended a prefix of the
   * payload that never exceeds the slot, with the checksum of what it copied.
   */
  lemma CopyExpectedBounds(src: seq<byte>, from: nat, slotRoom: nat, total: int, crc0: uint32, step: CrcStep)
    requires from <= |src|
    ensures var e := CopyExpected(src, from, slotRoom, total, crc0, step);
      && (e.stage == Completed || e.stage == PayloadReadFailed || e.stage == PayloadWriteFailed)
      && (e.stage == Completed <==> total <= Min(|src| - from, slotRoom))
      && e.copied <= Max(total, 0) && e.copied <= |src| - from && e.copied <= slotRoom
      && (e.stage == Completed ==> e.copied == Max(total, 0))
      && (e.stage != Completed ==> e.copied % BUFFER_SIZE == 0 && e.copied < total)
      && e.crc == Crc32Part(step, src[from..from + e.copied], crc0)
      && |e.appended| <= |src| - from && |e.appended| <= slotRoom
      && e.appended == src[from..from + |e.appended|]
      && (e.stage != PayloadWriteFailed ==> |e.appended| == e.copied)
      && (e.stage == PayloadWriteFailed ==> |e.appended| == slotRoom)
      && (e.stage != Completed ==> e.ret < BUFFER_SIZE)
  {
  }

  /**
   * The copy's checksum is the one the loop accumulates by resuming `crc32part` on
   * each chunk of at most BUFFER_SIZE bytes it moved.
   */
  lemma CopyChecksumByChunks(src: seq<byte>, from: nat, slotRoom: nat, total: int, crc0: uint32, step: CrcStep)
    requires from <= |src|
    ensures var e := CopyExpected(src, from, slotRoom, total, crc0, step);
      && from + e.copied <= |src|
      && e.crc == FeedChunks(step, Chunks(src[from..from + e.copied], BUFFER_SIZE), crc0)
  {
    CopyExpectedBounds(src, from, slotRoom, total, crc0, step);
    var e := CopyExpected(src, from, slotRoom, total, crc0, step);
    ChunkedIsWhole(step, src[from..from + e.copied], BUFFER_SIZE, crc0);
  }

  /** The loop stops at a read that comes up short: the source ends inside this chunk. */
  lemma ReadStopOutcome(src: seq<byte>, from: nat, slotRoom: nat, total: int, crc0: uint32, step: CrcStep,
                        copied: nat, k: nat)
    requires from <= |src| && copied < total && copied == BUFFER_SIZE * k
    requires copied <= |src| - from && copied <= slotRoom
    requires |src| - from < copied + ChunkSize(total, copied)
    ensures CopyExpected(src, from, slotRoom, total, crc0, step)
         == CopyEnd(PayloadReadFailed, |src| - from - copied, copied, Crc32Part(step, src[from..from + copied], crc0),
                    src[from..from + copied])
  {
    FloorToChunk(k, Min(|src| - from, slotRoom));
  }

  /** The loop stops at a write that comes up short or fails: the slot fills inside this chunk. */
  lemma WriteStopOutcome(src: seq<byte>, from: nat, slotRoom: nat, total: int, crc0: uint32, step: CrcStep,
                         copied: nat, k: nat)
    requires from <= |src| && copied < total && copied == BUFFER_SIZE * k
    requires copied + ChunkSize(total, copied) <= |src| - from && copied <= slotRoom
    requires slotRoom < copied + ChunkSize(total, copied)
    ensures CopyExpected(src, from, slotRoom, total, crc0, step)
         == CopyEnd(PayloadWriteFailed, if slotRoom == copied then -1 else slotRoom - copied, copied,
                    Crc32Part(step, src[from..from + copied], crc0), src[from..from + slotRoom])
  {
    FloorToChunk(k, slotRoom);
  }

  /** The loop ran to its end: all of the payload was appended and checksummed. */
  lemma DoneOutcome(src: seq<byte>, from: nat, slotRoom: nat, total: int, crc0: uint32, step: CrcStep, copied: nat)
    requires from <= |src| && copied == Max(total, 0)
    requires copied <= |src| - from && copied <= slotRoom
    ensures CopyExpected(src, from, slotRoom, total, crc0, step)
         == CopyEnd(Completed, 0, copied, Crc32Part(step, src[from..from + copied], crc0), src[from..from + copied])
  {
  }

  /**
   * One round of the copy loop: read min(remaining, BUFFER_SIZE) bytes, write what was
   * read to the end of the slot, fold it into the checksum and advance the count. The
   * ghost parameters carry the loop's view: the round starts with `copied` bytes of
   * `rd.contents` from offset `from` appended to `start`, `slotRoom` being the room
   * the slot had then. A round that stops ends the loop as CopyExpected says.
   */
  method CopyRound(rd: SourceFile, wr: SlotFile, total: int, copied: nat, crc: uint32, step: CrcStep,
                   ghost from: nat, ghost start: seq<byte>, ghost slotRoom: nat, ghost crc0: uint32,
                   ghost rounds: nat, ghost appended: seq<byte>)
    returns (stage: Stage, ret: int, newCopied: nat, newCrc: uint32, ghost newAppended: seq<byte>)
    requires rd.Valid() && rd.isOpen && wr.Valid() && wr.isOpen && wr.pos == |wr.data|
    requires copied < total && copied == BUFFER_SIZE * rounds
    requires copied <= |rd.contents| - from && copied <= slotRoom && rd.pos == from + copied
    requires wr.capacity - wr.pos + copied == slotRoom
    requires appended == rd.contents[from..from + copied] && wr.data == start + appended
    requires crc == Crc32Part(step, appended, crc0)
    modifies rd`pos, wr`data, wr`pos
    ensures rd.Valid() && rd.isOpen && wr.Valid() && wr.isOpen && wr.pos == |wr.data|
    ensures wr.data == start + newAppended
    ensures stage == Completed || stage == PayloadReadFailed || stage == PayloadWriteFailed
    ensures stage == Completed ==>
      && newCopied == copied + ChunkSize(total, copied)
      && (newCopied == Max(total, 0) || newCopied == BUFFER_SIZE * (rounds + 1))
      && newCopied <= |rd.contents| - from && newCopied <= slotRoom && rd.pos == from + newCopied
      && newAppended == rd.contents[from..from + newCopied]
      && newCrc == Crc32Part(step, newAppended, crc0)
    ensures stage != Completed ==> newCopied == copied && newCrc == crc
    ensures stage != Completed ==>
      CopyExpected(rd.contents, from, slotRoom, total, crc0, step) == CopyEnd(stage, ret, copied, crc, newAppended)
  {
    var readSize := ChunkSize(total, copied);
    var buffer;
    ret, buffer := rd.Read(readSize);
    if ret != readSize {
      ReadStopOutcome(rd.contents, from, slotRoom, total, crc0, step, copied, rounds);
      return PayloadReadFailed, ret, copied, crc, appended;
    }
    stage, ret, newCopied, newCrc, newAppended :=
      WriteChunk(wr, total, copied, crc, step, buffer, rd.contents, from, start, slotRoom, crc0, rounds, appended);
    if stage == Completed {
      var percent := Progress(newCopied, total);
    }
  }

  /**
   * The write half of a copy round: `buffer` holds the chunk just read from offset
   * `from + copied` of `src`; write it to the slot and, when it all went in, fold it
   * into the checksum.
   */
  method WriteChunk(wr: SlotFile, total: int, copied: nat, crc: uint32, step: CrcStep, buffer: seq<byte>,
                    ghost src: seq<byte>, ghost from: nat, ghost start: seq<byte>, ghost slotRoom: nat,
                    ghost crc0: uint32, ghost rounds: nat, ghost appended: seq<byte>)
    returns (stage: Stage, ret: int, newCopied: nat, newCrc: uint32, ghost newAppended: seq<byte>)
    requires wr.Valid() && wr.isOpen && wr.pos == |wr.data|
    requires copied < total && copied == BUFFER_SIZE * rounds
    requires from + copied + ChunkSize(total, copied) <= |src| && copied <= slotRoom
    requires buffer == src[from + copied..from + copied + ChunkSize(total, copied)]
    requires wr.capacity - wr.pos + copied == slotRoom
    requires appended == src[from..from + copied] && wr.data == start + appended
    requires crc == Crc32Part(step, appended, crc0)
    modifies wr`data, wr`pos
    ensures wr.Valid() && wr.isOpen && wr.pos == |wr.data|
    ensures wr.data == start + newAppended
    ensures stage == Completed || stage == PayloadWriteFailed
    ensures stage == Completed ==>
      && newCopied == copied + ChunkSize(total, copied)
      && newCopied <= slotRoom
      && newAppended == src[from..from + newCopied]
      && newCrc == Crc32Part(step, newAppended, crc0)
    ensures stage != Completed ==> newCopied == copied && newCrc == crc
    ensures stage != Completed ==>
      CopyExpected(src, from, slotRoom, total, crc0, step) == CopyEnd(stage, ret, copied, crc, newAppended)
  {
    var size := ChunkSize(total, copied);
    ret := wr.Write(buffer);
    WriteOutcome(wr.capacity, old(wr.pos), size, ret);
    WriteAppends(start, appended, buffer[..Max(ret, 0)]);
    if ret != size {
      WriteStopOutcome(src, from, slotRoom, total, crc0, step, copied, rounds);
      AppendChunkPrefix(src, from, copied, size, appended, buffer, slotRoom - copied, slotRoom);
      return PayloadWriteFailed, ret, copied, crc, appended + buffer[..slotRoom - copied];
    }
    AppendChunkPrefix(src, from, copied, size, appended, buffer, size, copied + size);
    assert buffer[..size] == buffer;
    Crc32PartAppend(step, appended, buffer, crc0);
    stage, newCopied, newCrc, newAppended := Completed, copied + size, Crc32Part(step, buffer, crc), appended + buffer;
  }

  /**
   * The `while (total_size > copy_size)` loop: moves min(remaining, BUFFER_SIZE) bytes
   * per round from the source to the slot and folds them into the checksum.
   * Stage Completed here means the loop ran to its end.
   */
  method CopyPayload(rd: SourceFile, wr: SlotFile, total: int, crc0: uint32, step: CrcStep)
    returns (stage: Stage, ret: int, copied: nat, crc: uint32, ghost appended: seq<byte>)
    requires rd.Valid() && rd.isOpen && wr.Valid() && wr.isOpen && wr.pos == |wr.data|
    modifies rd`pos, wr`data, wr`pos
    ensures rd.isOpen && wr.isOpen && wr.Valid()
    ensures wr.data == old(wr.data) + appended
    ensures var e := CopyExpected(rd.contents, old(rd.pos), wr.capacity - old(wr.pos), total, crc0, step);
      && stage == e.stage && copied == e.copied && crc == e.crc && appended == e.appended
      && (stage != Completed ==> ret == e.ret)
  {
    ghost var from := rd.pos;
    ghost var start := wr.data;
    ghost var slotRoom := wr.capacity - wr.pos;
    copied, crc, ret, appended := 0, crc0, 0, [];
    ghost var rounds: nat := 0;
    while total > copied
      invariant copied <= Max(total, 0) && (copied == Max(total, 0) || copied == BUFFER_SIZE * rounds)
      invariant copied <= |rd.contents| - from && copied <= slotRoom
      invariant rd.Valid() && rd.isOpen && rd.pos == from + copied
      invariant wr.Valid() && wr.isOpen && wr.pos == |wr.data| && wr.capacity - wr.pos + copied == slotRoom
      invariant appended == rd.contents[from..from + copied] && wr.data == start + appended
      invariant crc == Crc32Part(step, appended, crc0)
      decreases total - copied
    {
      stage, ret, copied, crc, appended :=
        CopyRound(rd, wr, total, copied, crc, step, from, start, slotRoom, crc0, rounds, appended);
      if stage != Completed {
        return;
      }
      rounds := rounds + 1;
    }
    DoneOutcome(rd.contents, from, slotRoom, total, crc0, step, copied);
    stage := Completed;
  }

  /** What the slot holds after a download, and how the download ended. */
  datatype SlotImage = SlotImage(result: Download, data: seq<byte>)

  /**
   * The slot after the download wrote header `hdr` and then the payload that follows
   * the header in `src`, into a slot able to hold `capacity` bytes, and back-patched
   * the checksum (plus one when `corrupt`).
   */
  function WrittenImage(src: seq<byte>, capacity: nat, seekResult: int, hdr: Header, corrupt: bool,
                        step: CrcStep, requested: int): SlotImage
    requires |src| >= HEADER_SIZE && WellFormed(hdr) && ScopeFits(hdr)
  {
    var image := Encode(hdr);
    if capacity < HEADER_SIZE then
      SlotImage(Download(HeaderWriteFailed, if capacity == 0 then -1 else capacity, 0, 0, requested), image[..capacity])
    else
      var e := CopyExpected(src, HEADER_SIZE, capacity - HEADER_SIZE, Signed32(hdr.binSize),
                            Crc32Part(step, ChecksumScope(hdr), 0), step);
      if e.stage != Completed then
        SlotImage(Download(e.stage, e.ret, e.copied, e.crc, requested), image + e.appended)
      else
        var crc := Patched(e.crc, corrupt);
        if seekResult != 0 then
          SlotImage(Download(SeekFailed, seekResult, e.copied, crc, requested), image + e.appended)
        else
          SlotImage(Download(Completed, CHECKSUM_SIZE, e.copied, crc, requested),
                    Encode(hdr.(crcHash := crc)) + e.appended)
  }

  /**
   * Where a download into the slot ends: the header write fails only in a slot smaller
   * than a header, the download completes exactly when the payload fits both files and
   * the seek succeeds, and the slot never holds more than its capacity.
   */
  lemma WrittenImageStages(src: seq<byte>, capacity: nat, seekResult: int, hdr: Header, corrupt: bool,
                           step: CrcStep, requested: int)
    requires |src| >= HEADER_SIZE && WellFormed(hdr) && ScopeFits(hdr)
    ensures var w := WrittenImage(src, capacity, seekResult, hdr, corrupt, step, requested);
      && w.result.requested == requested && !w.result.stage.BeforeSlot()
      && |w.data| <= capacity
      && (w.result.stage == HeaderWriteFailed <==> capacity < HEADER_SIZE)
      && (w.result.stage == Completed <==>
            seekResult == 0 && HEADER_SIZE + PayloadLength(hdr) <= Min(|src|, capacity))
      && (w.result.stage == Completed ==> |w.data| == HEADER_SIZE + PayloadLength(hdr))
      && (w.result.stage == PayloadReadFailed ==> |src| < HEADER_SIZE + PayloadLength(hdr))
      && (w.result.stage == PayloadWriteFailed ==> |w.data| == capacity < HEADER_SIZE + PayloadLength(hdr))
  {
    if capacity >= HEADER_SIZE {
      var crc0 := Crc32Part(step, ChecksumScope(hdr), 0);
      var e := CopyExpected(src, HEADER_SIZE, capacity - HEADER_SIZE, Signed32(hdr.binSize), crc0, step);
      CopyExpectedBounds(src, HEADER_SIZE, capacity - HEADER_SIZE, Signed32(hdr.binSize), crc0, step);
      WrittenImageAfterCopy(src, capacity, seekResult, hdr, corrupt, step, requested, e);
    }
  }

  /**
   * What a download leaves in the slot once the header is written: the header as
   * rewritten, then bytes of the stored payload in order; a completed download holds
   * the whole payload behind a header carrying the back-patched checksum.
   */
  lemma WrittenImageContents(src: seq<byte>, capacity: nat, seekResult: int, hdr: Header, corrupt: bool,
                             step: CrcStep, requested: int)
    requires |src| >= HEADER_SIZE && WellFormed(hdr) && ScopeFits(hdr)
    ensures var w := WrittenImage(src, capacity, seekResult, hdr, corrupt, step, requested);
      && (w.result.stage == HeaderWriteFailed ==> w.data == Encode(hdr)[..capacity])
      && (w.result.stage != HeaderWriteFailed && w.result.stage != Completed ==>
            && |w.data| >= HEADER_SIZE
            && w.data[..HEADER_SIZE] == Encode(hdr)
            && w.data[HEADER_SIZE..] == src[HEADER_SIZE..|w.data|])
      && (w.result.stage == Completed ==>
            w.data == Encode(hdr.(crcHash := w.result.crc)) + src[HEADER_SIZE..HEADER_SIZE + PayloadLength(hdr)])
  {
    if capacity >= HEADER_SIZE {
      var crc0 := Crc32Part(step, ChecksumScope(hdr), 0);
      var e := CopyExpected(src, HEADER_SIZE, capacity - HEADER_SIZE, Signed32(hdr.binSize), crc0, step);
      CopyExpectedBounds(src, HEADER_SIZE, capacity - HEADER_SIZE, Signed32(hdr.binSize), crc0, step);
      WrittenImageAfterCopy(src, capacity, seekResult, hdr, corrupt, step, requested, e);
      HeaderThenPayload(src, Encode(hdr), e.appended);
    }
  }

  /** A header image followed by a prefix of the payload splits back into the two. */
  lemma HeaderThenPayload(src: seq<byte>, image: seq<byte>, appended: seq<byte>)
    requires |image| == HEADER_SIZE && HEADER_SIZE + |appended| <= |src|
    requires appended == src[HEADER_SIZE..HEADER_SIZE + |appended|]
    ensures var data := image + appended;
      && |data| >= HEADER_SIZE && data[..HEADER_SIZE] == image && data[HEADER_SIZE..] == src[HEADER_SIZE..|data|]
  {
    AppendTake(image, appended);
    AppendDrop(image, appended, HEADER_SIZE);
  }

  /**
   * The integrity test an image passes when its stored checksum is what `crc32part`
   * gives over the header's checksummed bytes followed by the payload `bin_size` names.
   */
  predicate ChecksumHolds(step: CrcStep, image: seq<byte>)
  {
    && |image| >= HEADER_SIZE
    && var h := StoredHeader(image);
       && ScopeFits(h) && HEADER_SIZE + PayloadLength(h) <= |image|
       && Crc32Part(step, image[HEADER_SIZE..HEADER_SIZE + PayloadLength(h)],
                    Crc32Part(step, ChecksumScope(h), 0)) == h.crcHash
  }

  /** An image made of a header and the payload it names passes the test when its checksum field is the payload's checksum. */
  lemma ChecksumOfImage(step: CrcStep, hdr: Header, c: uint32, payload: seq<byte>)
    requires WellFormed(hdr) && ScopeFits(hdr) && |payload| == PayloadLength(hdr)
    ensures ChecksumHolds(step, Encode(hdr.(crcHash := c)) + payload)
        <==> c == Crc32Part(step, payload, Crc32Part(step, ChecksumScope(hdr), 0))
  {
    var h2 := hdr.(crcHash := c);
    AppendTake(Encode(h2), payload);
    DecodeEncode(h2);
    ScopeIgnoresChecksum(hdr, c);
    AppendDrop(Encode(h2), payload, HEADER_SIZE);
    assert (Encode(h2) + payload)[HEADER_SIZE..HEADER_SIZE + |payload|] == payload;
  }

  /** A completed download leaves the rewritten header, carrying the checksum it computed, in the slot. */
  lemma CompletedHeader(src: seq<byte>, capacity: nat, seekResult: int, hdr: Header, corrupt: bool,
                        step: CrcStep, requested: int)
    requires |src| >= HEADER_SIZE && WellFormed(hdr) && ScopeFits(hdr)
    ensures var w := WrittenImage(src, capacity, seekResult, hdr, corrupt, step, requested);
      w.result.stage == Completed ==> |w.data| >= HEADER_SIZE && StoredHeader(w.data) == hdr.(crcHash := w.result.crc)
  {
    if capacity >= HEADER_SIZE {
      var e := CopyExpected(src, HEADER_SIZE, capacity - HEADER_SIZE, Signed32(hdr.binSize),
                            Crc32Part(step, ChecksumScope(hdr), 0), step);
      WrittenImageAfterCopy(src, capacity, seekResult, hdr, corrupt, step, requested, e);
      var h2 := hdr.(crcHash := Patched(e.crc, corrupt));
      AppendTake(Encode(h2), e.appended);
      DecodeEncode(h2);
    }
  }

  /**
   * A completed download passes the integrity test exactly when the checksum was
   * written unaltered: the invalid-binary scenario's image always fails it, the
   * others' always pass.
   */
  lemma CompletedChecksum(src: seq<byte>, capacity: nat, seekResult: int, hdr: Header, corrupt: bool,
                          step: CrcStep, requested: int)
    requires |src| >= HEADER_SIZE && WellFormed(hdr) && ScopeFits(hdr)
    ensures var w := WrittenImage(src, capacity, seekResult, hdr, corrupt, step, requested);
      w.result.stage == Completed ==> (ChecksumHolds(step, w.data) <==> !corrupt)
  {
    if capacity >= HEADER_SIZE {
      var crc0 := Crc32Part(step, ChecksumScope(hdr), 0);
      var e := CopyExpected(src, HEADER_SIZE, capacity - HEADER_SIZE, Signed32(hdr.binSize), crc0, step);
      CopyExpectedBounds(src, HEADER_SIZE, capacity - HEADER_SIZE, Signed32(hdr.binSize), crc0, step);
      WrittenImageAfterCopy(src, capacity, seekResult, hdr, corrupt, step, requested, e);
      if e.stage == Completed {
        assert e.appended == src[HEADER_SIZE..HEADER_SIZE + e.copied];
        ChecksumOfImage(step, hdr, Patched(e.crc, corrupt), e.appended);
      }
    }
  }

  /** Overwriting the first four bytes of a written image with c is storing c as its checksum. */
  lemma PatchedImage(hdr: Header, appended: seq<byte>, c: uint32)
    requires WellFormed(hdr)
    ensures Overwrite(Encode(hdr) + appended, 0, LeBytes(c as nat, CHECKSUM_SIZE))
         == Encode(hdr.(crcHash := c)) + appended
  {
    PatchChecksumBytes(hdr, c);
    var image := Encode(hdr);
    assert (image + appended)[CHECKSUM_SIZE..] == image[CHECKSUM_SIZE..] + appended;
  }

  /** A slot smaller than a header takes what fits of the header and no more. */
  lemma WrittenImageShortSlot(src: seq<byte>, capacity: nat, seekResult: int, hdr: Header, corrupt: bool,
                              step: CrcStep, requested: int)
    requires |src| >= HEADER_SIZE && WellFormed(hdr) && ScopeFits(hdr) && capacity < HEADER_SIZE
    ensures WrittenImage(src, capacity, seekResult, hdr, corrupt, step, requested)
         == SlotImage(Download(HeaderWriteFailed, if capacity == 0 then -1 else capacity, 0, 0, requested),
                      Encode(hdr)[..capacity])
  {
  }

  /** The three ways WrittenImage ends once the header is in the slot, given the copy's outcome. */
  lemma WrittenImageAfterCopy(src: seq<byte>, capacity: nat, seekResult: int, hdr: Header, corrupt: bool,
                              step: CrcStep, requested: int, e: CopyEnd)
    requires |src| >= HEADER_SIZE && WellFormed(hdr) && ScopeFits(hdr) && capacity >= HEADER_SIZE
    requires e == CopyExpected(src, HEADER_SIZE, capacity - HEADER_SIZE, Signed32(hdr.binSize),
                               Crc32Part(step, ChecksumScope(hdr), 0), step)
    ensures var w := WrittenImage(src, capacity, seekResult, hdr, corrupt, step, requested);
      && (e.stage != Completed ==>
            w == SlotImage(Download(e.stage, e.ret, e.copied, e.crc, requested), Encode(hdr) + e.appended))
      && (e.stage == Completed && seekResult != 0 ==>
            w == SlotImage(Download(SeekFailed, seekResult, e.copied, Patched(e.crc, corrupt), requested),
                           Encode(hdr) + e.appended))
      && (e.stage == Completed && seekResult == 0 ==>
            w == SlotImage(Download(Completed, CHECKSUM_SIZE, e.copied, Patched(e.crc, corrupt), requested),
                           Encode(hdr.(crcHash := Patched(e.crc, corrupt))) + e.appended))
  {
  }

  /**
   * The last steps of a download: add one to the checksum when `corrupt`, `lseek`
   * back to the start of the slot and write the checksum over the header's first
   * field. A failed seek leaves the slot as it was.
   */
  method FinishImage(wr: SlotFile, hdr: Header, ghost appended: seq<byte>, crc: uint32, corrupt: bool)
    returns (sought: bool, ret: int, finalCrc: uint32)
    requires wr.Valid() && wr.isOpen && WellFormed(hdr)
    requires wr.data == Encode(hdr) + appended
    modifies wr`data, wr`pos
    ensures wr.Valid() && wr.isOpen
    ensures finalCrc == Patched(crc, corrupt)
    ensures sought <==> wr.seekResult == 0
    ensures !sought ==> ret == wr.seekResult && wr.data == old(wr.data)
    ensures sought ==> ret == CHECKSUM_SIZE && wr.data == Encode(hdr.(crcHash := finalCrc)) + appended
  {
    finalCrc := crc;
    if corrupt {
      finalCrc := Increment32(finalCrc);
    }
    ret := wr.SeekStart();
    if ret != 0 {
      return false, ret, finalCrc;
    }
    ret := wr.Write(LeBytes(finalCrc as nat, CHECKSUM_SIZE));
    // The four bytes land on the header already written, so the slot's capacity cannot cut them short.
    assert ret == CHECKSUM_SIZE;
    PatchedImage(hdr, appended, finalCrc);
    sought := true;
  }

  /**
   * The copy loop and the checksum back-patch, once the header is in the slot: the
   * outcome is the copy's closed form, then the seek and the final write.
   */
  method CopyAndPatch(rd: SourceFile, wr: SlotFile, hdr: Header, corrupt: bool, step: CrcStep, requested: int)
    returns (d: Download)
    requires rd.Valid() && rd.isOpen && rd.pos == HEADER_SIZE
    requires WellFormed(hdr) && ScopeFits(hdr)
    requires wr.Valid() && wr.isOpen && wr.data == Encode(hdr) && wr.pos == HEADER_SIZE
    modifies rd`pos, wr`data, wr`pos
    ensures rd.isOpen && wr.isOpen && wr.Valid()
    ensures var e := CopyExpected(rd.contents, HEADER_SIZE, wr.capacity - HEADER_SIZE, Signed32(hdr.binSize),
                                  Crc32Part(step, ChecksumScope(hdr), 0), step);
      && (e.stage != Completed ==>
            d == Download(e.stage, e.ret, e.copied, e.crc, requested) && wr.data == Encode(hdr) + e.appended)
      && (e.stage == Completed && wr.seekResult != 0 ==>
            && d == Download(SeekFailed, wr.seekResult, e.copied, Patched(e.crc, corrupt), requested)
            && wr.data == Encode(hdr) + e.appended)
      && (e.stage == Completed && wr.seekResult == 0 ==>
            && d == Download(Completed, CHECKSUM_SIZE, e.copied, Patched(e.crc, corrupt), requested)
            && wr.data == Encode(hdr.(crcHash := Patched(e.crc, corrupt))) + e.appended)
  {
    var crc := Crc32Part(step, ChecksumScope(hdr), 0);
    var stage, ret, copied;
    ghost var appended;
    stage, ret, copied, crc, appended := CopyPayload(rd, wr, Signed32(hdr.binSize), crc, step);
    if stage != Completed {
      return Download(stage, ret, copied, crc, requested);
    }
    var sought;
    sought, ret, crc := FinishImage(wr, hdr, appended, crc, corrupt);
    d := Download(if sought then Completed else SeekFailed, ret, copied, crc, requested);
  }

  /**
   * Everything between a successful `open_new_entry` and the cleanup label: write
   * the header, checksum its scope, copy the payload, then seek back and overwrite
   * the checksum field (with the checksum plus one when `corrupt`).
   */
  method WriteImage(rd: SourceFile, wr: SlotFile, hdr: Header, corrupt: bool, step: CrcStep, requested: int)
    returns (d: Download)
    requires rd.Valid() && rd.isOpen && rd.pos == HEADER_SIZE
    requires wr.Valid() && wr.isOpen && wr.data == [] && wr.pos == 0
    requires WellFormed(hdr) && ScopeFits(hdr)
    modifies rd`pos, wr`data, wr`pos
    ensures rd.isOpen && wr.isOpen && wr.Valid()
    ensures SlotImage(d, wr.data) == WrittenImage(rd.contents, wr.capacity, wr.seekResult, hdr, corrupt, step, requested)
  {
    var image := Encode(hdr);
    var ret := wr.Write(image);
    if ret != HEADER_SIZE {
      assert image[..Max(ret, 0)] == image[..wr.capacity];
      WrittenImageShortSlot(rd.contents, wr.capacity, wr.seekResult, hdr, corrupt, step, requested);
      return Download(HeaderWriteFailed, ret, 0, 0, requested);
    }
    assert image[..Max(ret, 0)] == image;
    OverwriteAtEnd([], image);
    assert [] + image == image;
    WrittenImageAfterCopy(rd.contents, wr.capacity, wr.seekResult, hdr, corrupt, step, requested,
                          CopyExpected(rd.contents, HEADER_SIZE, wr.capacity - HEADER_SIZE, Signed32(hdr.binSize),
                                       Crc32Part(step, ChecksumScope(hdr), 0), step));
    d := CopyAndPatch(rd, wr, hdr, corrupt, step, requested);
  }

  /**
   * From a successful `binary_manager_open_new_entry` to the return: write the
   * rewritten header and the payload into the new slot, then close both files.
   */
  method CopyIntoSlot(rd: SourceFile, env: DownloadEnv, hdr: Header, corrupt: bool, step: CrcStep, requested: int)
    returns (r: Download, wr: SlotFile)
    requires rd.Valid() && rd.isOpen && rd.pos == HEADER_SIZE
    requires WellFormed(hdr) && ScopeFits(hdr)
    modifies rd`pos, rd`isOpen
    ensures fresh(wr) && !wr.isOpen && !rd.isOpen
    ensures wr.capacity == env.slotCapacity && wr.seekResult == env.seekResult
    ensures SlotImage(r, wr.data) == WrittenImage(rd.contents, env.slotCapacity, env.seekResult, hdr, corrupt, step, requested)
    ensures !r.stage.BeforeSlot() && r.requested == requested
  {
    wr := new SlotFile.Create(env.slotCapacity, env.seekResult);
    r := WriteImage(rd, wr, hdr, corrupt, step, requested);
    WrittenImageStages(rd.contents, wr.capacity, wr.seekResult, hdr, corrupt, step, requested);
    wr.Close();
    rd.Close();
  }

  /** The header of a stored image: its first HEADER_SIZE bytes. */
  function StoredHeader(src: seq<byte>): (h: Header)
    requires |src| >= HEADER_SIZE
    ensures WellFormed(h)
  {
    Decode(src[..HEADER_SIZE]).value
  }

  /** Writing the stored header back out reproduces the image's first HEADER_SIZE bytes. */
  lemma StoredHeaderEncodes(src: seq<byte>)
    requires |src| >= HEADER_SIZE
    ensures Encode(StoredHeader(src)) == src[..HEADER_SIZE]
  {
    EncodeDecode(src[..HEADER_SIZE]);
  }

  /** `read(read_fd, &header_data, sizeof(binary_header_t))` at the start of a stored image. */
  method ReadHeader(rd: SourceFile) returns (ret: int, header: Option<Header>)
    requires rd.Valid() && rd.isOpen && rd.pos == 0
    modifies rd`pos
    ensures rd.Valid() && rd.isOpen
    ensures ret == Min(HEADER_SIZE, |rd.contents|)
    ensures ret == HEADER_SIZE ==> header == Some(StoredHeader(rd.contents)) && rd.pos == HEADER_SIZE
  {
    var bytes;
    ret, bytes := rd.Read(HEADER_SIZE);
    header := Decode(bytes);
  }

  /** `atoi(header_data.bin_ver) + 1`: the version the copy asks the binary manager for. */
  function NextVersion(h: Header): int
  {
    Atoi(Chars(h.binVer)) + 1
  }

  /** `snprintf(header_data.bin_ver, BIN_VER_MAX, "%u", new_version)` */
  function VersionRewritten(h: Header, v: int): (r: Header)
    requires WellFormed(h)
    ensures WellFormed(r) && (ScopeFits(h) <==> ScopeFits(r))
  {
    h.(binVer := SnprintfUnsigned(h.binVer, Unsigned32(v)))
  }

  /**
   * Rewriting the version changes only the version field of the header's image, and
   * `atoi` reads the new field back as the number printed into it.
   */
  lemma VersionRewrittenFacts(h: Header, v: int)
    requires WellFormed(h)
    ensures var r := VersionRewritten(h, v);
      && Encode(r) == Encode(h)[..VER_OFFSET] + r.binVer + Encode(h)[TRAILER_OFFSET..]
      && (0 <= v < UINT32_MODULUS ==> Atoi(Chars(r.binVer)) == v)
  {
    ReplaceVersionBytes(h, SnprintfUnsigned(h.binVer, Unsigned32(v)));
    Utoa32Length(Unsigned32(v));
    AtoiOfSnprintfUnsigned(h.binVer, Unsigned32(v));
  }

  /** `strncpy` of NEW_APP_NAME and NEW_APP_VERSION into the copied header. */
  function Onboarded(h: Header): (r: Header)
    requires WellFormed(h)
    ensures WellFormed(r) && (ScopeFits(h) <==> ScopeFits(r))
  {
    h.(binName := Strncpy(h.binName, NEW_APP_NAME), binVer := Strncpy(h.binVer, NEW_APP_VERSION))
  }

  /**
   * Onboarding changes only the name and version fields of the header's image; the
   * fields then hold NEW_APP_NAME and NEW_APP_VERSION as C strings, and the version
   * reads back through `atoi` as 20200421.
   */
  lemma OnboardedFacts(h: Header)
    requires WellFormed(h)
    ensures var r := Onboarded(h);
      && Encode(r) == Encode(h)[..NAME_OFFSET] + r.binName + r.binVer + Encode(h)[TRAILER_OFFSET..]
      && CStr(r.binName) == NEW_APP_NAME && CStr(r.binVer) == NEW_APP_VERSION
      && Atoi(Chars(r.binVer)) == Atoi(NEW_APP_VERSION) == 20200421
  {
    var name := Strncpy(h.binName, NEW_APP_NAME);
    var ver := Strncpy(h.binVer, NEW_APP_VERSION);
    ReplaceNameAndVersionBytes(h, name, ver);
    CStrOfStrncpy(h.binName, NEW_APP_NAME);
    CStrOfStrncpy(h.binVer, NEW_APP_VERSION);
    NewAppVersionValue(h.binVer);
  }

  /** A completed version-bump download leaves a slot whose header reads back, through `atoi`, as the version requested. */
  lemma DownloadedVersion(src: seq<byte>, capacity: nat, seekResult: int, stored: Header, v: int, corrupt: bool,
                          step: CrcStep)
    requires |src| >= HEADER_SIZE && WellFormed(stored) && ScopeFits(stored) && 0 <= v < UINT32_MODULUS
    ensures var w := WrittenImage(src, capacity, seekResult, VersionRewritten(stored, v), corrupt, step, v);
      w.result.stage == Completed ==> Atoi(Chars(StoredHeader(w.data).binVer)) == v
  {
    CompletedHeader(src, capacity, seekResult, VersionRewritten(stored, v), corrupt, step, v);
    VersionRewrittenFacts(stored, v);
  }

  /** A completed onboarding download leaves a slot whose header names the new application and its version. */
  lemma DownloadedNewBinary(src: seq<byte>, capacity: nat, seekResult: int, stored: Header, step: CrcStep,
                            requested: int)
    requires |src| >= HEADER_SIZE && WellFormed(stored) && ScopeFits(stored)
    ensures var w := WrittenImage(src, capacity, seekResult, Onboarded(stored), false, step, requested);
      w.result.stage == Completed ==>
        && CStr(StoredHeader(w.data).binName) == NEW_APP_NAME
        && CStr(StoredHeader(w.data).binVer) == NEW_APP_VERSION
        && ChecksumHolds(step, w.data)
  {
    CompletedHeader(src, capacity, seekResult, Onboarded(stored), false, step, requested);
    CompletedChecksum(src, capacity, seekResult, Onboarded(stored), false, step, requested);
    OnboardedFacts(stored);
  }

  lemma NewAppVersionValue(field: seq<byte>)
    requires |field| == BIN_VER_MAX
    ensures Atoi(Chars(Strncpy(field, NEW_APP_VERSION))) == Atoi(NEW_APP_VERSION) == 20200421
  {
    assert Utoa(2) == "2";
    assert Utoa(20) == "20";
    assert Utoa(202) == "202";
    assert Utoa(2020) == "2020";
    assert Utoa(20200) == "20200";
    assert Utoa(202004) == "202004";
    assert Utoa(2020042) == "2020042";
    assert Utoa(20200421) == NEW_APP_VERSION;
    AtoiOfUtoa(20200421, []);
    assert NEW_APP_VERSION + [] == NEW_APP_VERSION;
    var r := Strncpy(field, NEW_APP_VERSION);
    var digits := Bytes(NEW_APP_VERSION);
    assert r == digits + r[8..];
    CharsAppend(digits, r[8..]);
    assert Chars(r[8..])[0] == '\0';
    AtoiOfUtoa(20200421, Chars(r[8..]));
  }

  /** The oracle for one download: the binary directory, the slot allocation result and the slot's behaviour. */
  datatype DownloadEnv = DownloadEnv(files: map<BinaryFile, seq<byte>>, entryFd: int, slotCapacity: nat, seekResult: int)

  /** A stored image whose header_size keeps `crc32part` inside the header record. */
  predicate SourceFits(env: DownloadEnv, file: BinaryFile)
  {
    file in env.files && |env.files[file]| >= HEADER_SIZE ==> ScopeFits(StoredHeader(env.files[file]))
  }

  /**
   * How `binary_update_download_binary` ends, in closed form: no stored image, an
   * image shorter than a header, a refused slot, or the download into the granted
   * slot at the stored version plus one.
   */
  function DownloadResult(info: UpdateInfo, condition: Condition, env: DownloadEnv, step: CrcStep): (r: Download)
    requires SourceFits(env, BinaryFile(APP_NAME, info.version))
  {
    var file := BinaryFile(APP_NAME, info.version);
    if file !in env.files then Download(OpenFailed, -1, 0, 0, 0)
    else
      var src := env.files[file];
      if |src| < HEADER_SIZE then Download(HeaderReadFailed, |src|, 0, 0, 0)
      else
        var stored := StoredHeader(src);
        var v := NextVersion(stored);
        if env.entryFd < 0 then Download(EntryFailed, env.entryFd, 0, 0, v)
        else WrittenImage(src, env.slotCapacity, env.seekResult, VersionRewritten(stored, v),
                          condition == DownloadInvalidBin, step, v).result
  }

  /** Once the header is read, the download's result is the refused slot's or the written slot's. */
  lemma DownloadResultOfSlot(info: UpdateInfo, condition: Condition, env: DownloadEnv, step: CrcStep)
    requires SourceFits(env, BinaryFile(APP_NAME, info.version))
    requires BinaryFile(APP_NAME, info.version) in env.files
    requires |env.files[BinaryFile(APP_NAME, info.version)]| >= HEADER_SIZE
    ensures var src := env.files[BinaryFile(APP_NAME, info.version)];
      var stored := StoredHeader(src);
      var v := NextVersion(stored);
      DownloadResult(info, condition, env, step)
      == if env.entryFd < 0 then Download(EntryFailed, env.entryFd, 0, 0, v)
         else WrittenImage(src, env.slotCapacity, env.seekResult, VersionRewritten(stored, v),
                           condition == DownloadInvalidBin, step, v).result
  {
  }

  /**
   * `fseek(fp, 0, SEEK_END)` then `ftell(fp)` on a stored image: its length, or -1
   * when the offset does not fit the 32-bit `long` that `ftell` returns.
   */
  function FileSize(src: seq<byte>): (r: int)
    ensures r == |src| || r == -1
    ensures r == |src| <==> |src| <= INT32_MAX
  {
    if |src| <= INT32_MAX then |src| else -1
  }

  /**
   * Whether the size probe of `binary_update_download_new_binary` is defined as the
   * code is written: the stream `fopen` returns is used unchecked, so a missing image
   * hands NULL to `fseek`.
   */
  predicate SizeProbeDefined(env: DownloadEnv, info: UpdateInfo)
  {
    BinaryFile(APP_NAME, info.version) in env.files
  }

  /** The size probe as written: `fopen`, `fseek`, `ftell`, `fclose`, with no check of the stream. */
  function FileSizeAsWritten(env: DownloadEnv, info: UpdateInfo): (r: int)
    requires SizeProbeDefined(env, info)
    ensures r == FileSize(env.files[BinaryFile(APP_NAME, info.version)])
  {
    FileSize(env.files[BinaryFile(APP_NAME, info.version)])
  }

  /** A run in which the stored image is missing leaves the as-written size probe undefined. */
  lemma SizeProbeUndefinedWithoutImage()
    ensures var env := DownloadEnv(map[], 0, HEADER_SIZE, 0);
      var info := UpdateInfo(APP_NAME, "1", 1024);
      SourceFits(env, BinaryFile(APP_NAME, info.version)) && !SizeProbeDefined(env, info)
  {
  }

  /**
   * How `binary_update_download_new_binary` ends, in closed form, with the stream of
   * the size probe checked: no stored image, a size the free space rejects, an image
   * shorter than a header, a refused slot, or the download into the granted slot
   * under NEW_APP_NAME and NEW_APP_VERSION.
   */
  function OnboardResult(info: UpdateInfo, env: DownloadEnv, step: CrcStep): (r: Download)
    requires SourceFits(env, BinaryFile(APP_NAME, info.version))
  {
    var file := BinaryFile(APP_NAME, info.version);
    if file !in env.files then Download(OpenFailed, -1, 0, 0, 0)
    else
      var src := env.files[file];
      var size := FileSize(src);
      if size <= 0 || info.availableSize <= 0 || size >= info.availableSize then Download(SizeRejected, 0, 0, 0, 0)
      else if |src| < HEADER_SIZE then Download(HeaderReadFailed, |src|, 0, 0, 0)
      else
        var v := Atoi(NEW_APP_VERSION);
        if env.entryFd < 0 then Download(EntryFailed, env.entryFd, 0, 0, v)
        else WrittenImage(src, env.slotCapacity, env.seekResult, Onboarded(StoredHeader(src)), false, step, v).result
  }

  /**
   * A download counts one failure whenever it stops before a slot exists and none
   * when it completes; it completes exactly when the image exists, the slot is
   * granted, the payload fits both the image and the slot, and the seek succeeds.
   */
  lemma DownloadResultFailures(info: UpdateInfo, condition: Condition, env: DownloadEnv, step: CrcStep)
    requires SourceFits(env, BinaryFile(APP_NAME, info.version))
    ensures var r := DownloadResult(info, condition, env, step);
      var file := BinaryFile(APP_NAME, info.version);
      && (r.stage.BeforeSlot() ==> r.Failures() == 1)
      && (r.stage == Completed ==> r.Failures() == 0)
      && (r.stage == Completed <==>
            && file in env.files && |env.files[file]| >= HEADER_SIZE && env.entryFd >= 0 && env.seekResult == 0
            && HEADER_SIZE + PayloadLength(StoredHeader(env.files[file]))
               <= Min(|env.files[file]|, env.slotCapacity))
  {
    var file := BinaryFile(APP_NAME, info.version);
    if file !in env.files {
      assert DownloadResult(info, condition, env, step) == Download(OpenFailed, -1, 0, 0, 0);
    } else if |env.files[file]| < HEADER_SIZE {
      assert DownloadResult(info, condition, env, step) == Download(HeaderReadFailed, |env.files[file]|, 0, 0, 0);
    } else {
      var src := env.files[file];
      var stored := StoredHeader(src);
      var v := NextVersion(stored);
      DownloadResultOfSlot(info, condition, env, step);
      if env.entryFd >= 0 {
        WrittenImageStages(src, env.slotCapacity, env.seekResult, VersionRewritten(stored, v),
                           condition == DownloadInvalidBin, step, v);
      }
    }
  }

  /**
   * An onboarding counts one failure when the image is missing (the corrected size
   * probe), when the image is empty or does not fit the free space, and completes
   * only for an image of 1 .. available_size - 1 bytes.
   */
  lemma OnboardResultFailures(info: UpdateInfo, env: DownloadEnv, step: CrcStep)
    requires SourceFits(env, BinaryFile(APP_NAME, info.version))
    ensures var r := OnboardResult(info, env, step);
      var file := BinaryFile(APP_NAME, info.version);
      && (file !in env.files ==> r.stage == OpenFailed && r.Failures() == 1)
      && (file in env.files && (|env.files[file]| == 0 || |env.files[file]| >= info.availableSize) ==>
            r.stage == SizeRejected && r.Failures() == 1)
      && (r.stage == Completed ==> r.Failures() == 0 && 0 < |env.files[file]| < info.availableSize)
  {
    var file := BinaryFile(APP_NAME, info.version);
    if file !in env.files {
      assert OnboardResult(info, env, step) == Download(OpenFailed, -1, 0, 0, 0);
    } else {
      var src := env.files[file];
      var size := FileSize(src);
      if size <= 0 || info.availableSize <= 0 || size >= info.availableSize {
        assert OnboardResult(info, env, step) == Download(SizeRejected, 0, 0, 0, 0);
      } else {
        assert size == |src|;
        if |src| < HEADER_SIZE {
          assert OnboardResult(info, env, step) == Download(HeaderReadFailed, |src|, 0, 0, 0);
        } else if env.entryFd < 0 {
          assert OnboardResult(info, env, step) == Download(EntryFailed, env.entryFd, 0, 0, Atoi(NEW_APP_VERSION));
        } else {
          var v := Atoi(NEW_APP_VERSION);
          assert OnboardResult(info, env, step)
                 == WrittenImage(src, env.slotCapacity, env.seekResult, Onboarded(StoredHeader(src)), false, step, v).result;
          WrittenImageStages(src, env.slotCapacity, env.seekResult, Onboarded(StoredHeader(src)), false, step, v);
        }
      }
    }
  }

  /** The binary manager's answer to a query: the return value and the record it filled in. */
  datatype Reply = Reply(ret: int, info: UpdateInfo)

  /** The verdict of `binary_update_check_test_result`: a valid image must change the running version, an invalid one must not. */
  predicate TestPassed(pre: string, cur: string, condition: Condition)
  {
    match condition
    case DownloadValidBin => pre != cur
    case DownloadInvalidBin => pre == cur
  }

  function Count(b: bool): nat { if b then 1 else 0 }

  /** The binary manager's answers during one run of the scenario sequence. */
  datatype Round = Round(
    sameVersionQuery: Reply, sameVersionEntry: int,
    invalidPre: Reply, invalidDownload: DownloadEnv, invalidReload: int, invalidCur: Reply,
    registerRet: int,
    validPre: Reply, validDownload: DownloadEnv, validReload: int, validCur: Reply,
    unregisterRet: int,
    onboardInfo: UpdateInfo, onboardDownload: DownloadEnv,
    onboardReload: int, onboardQuery: Reply, inventoryRet: int)

  /** Every stored image a round reads keeps its checksum scope inside the header. */
  predicate RoundFits(r: Round)
  {
    && SourceFits(r.invalidDownload, BinaryFile(APP_NAME, r.invalidPre.info.version))
    && SourceFits(r.validDownload, BinaryFile(APP_NAME, r.validPre.info.version))
    && SourceFits(r.onboardDownload, BinaryFile(APP_NAME, r.onboardInfo.version))
  }

  /** What one run of the scenario sequence produced. */
  datatype RoundReport = RoundReport(
    sameVersionRequested: int,
    invalid: Download, invalidPassed: bool,
    valid: Download, validPassed: bool, validUnlinked: Option<BinaryFile>,
    onboard: Download, onboardUnlinked: BinaryFile)

  datatype Scenario = SameVersionStep | InvalidBinaryStep | RegisterStep | NewVersionStep | UnregisterStep | NewBinaryStep

  /** The order in which `binary_update_run_tests` runs the scenarios. */
  const SCENARIO_ORDER: seq<Scenario> :=
    [SameVersionStep, InvalidBinaryStep, RegisterStep, NewVersionStep, UnregisterStep, NewBinaryStep]

  /** The scenarios of k runs of the sequence, one after another. */
  function RepeatedScenarios(k: nat): (r: seq<Scenario>)
    ensures |r| == |SCENARIO_ORDER| * k
  {
    if k == 0 then [] else RepeatedScenarios(k - 1) + SCENARIO_ORDER
  }

  /** Appending the six scenarios one at a time appends the scenario order. */
  lemma OneRoundTrace(t: seq<Scenario>)
    ensures t + [SameVersionStep] + [InvalidBinaryStep] + [RegisterStep] + [NewVersionStep]
            + [UnregisterStep] + [NewBinaryStep] == t + SCENARIO_ORDER
  {
  }

  /** One run of the sequence is the six scenarios in order. */
  lemma RepeatedOnce()
    ensures RepeatedScenarios(1) == SCENARIO_ORDER
  {
    assert RepeatedScenarios(1) == [] + SCENARIO_ORDER;
  }

  /** The trace of k + 1 runs continues the trace of k runs with one more run. */
  lemma RepeatedScenariosNext(t: seq<Scenario>, k: nat)
    ensures t + RepeatedScenarios(k) + SCENARIO_ORDER == t + RepeatedScenarios(k + 1)
  {
    assert RepeatedScenarios(k + 1) == RepeatedScenarios(k) + SCENARIO_ORDER;
  }

  /** Position i of k runs is the scenario at i modulo six: every run repeats the same order. */
  lemma {:induction false} RepeatedScenariosAt(k: nat)
    ensures forall i :: 0 <= i < |RepeatedScenarios(k)| ==> RepeatedScenarios(k)[i] == SCENARIO_ORDER[i % |SCENARIO_ORDER|]
  {
    if k > 0 {
      RepeatedScenariosAt(k - 1);
      var before := RepeatedScenarios(k - 1);
      assert RepeatedScenarios(k) == before + SCENARIO_ORDER;
      forall i | |before| <= i < |RepeatedScenarios(k)|
        ensures RepeatedScenarios(k)[i] == SCENARIO_ORDER[i % |SCENARIO_ORDER|]
      {
        assert i == |SCENARIO_ORDER| * (k - 1) + (i - |before|);
      }
    }
  }

  /** The report of one run, in closed form, from the binary manager's answers alone. */
  function ExpectedReport(r: Round, step: CrcStep): RoundReport
    requires RoundFits(r)
  {
    var invalidPassed := TestPassed(r.invalidPre.info.version, r.invalidCur.info.version, DownloadInvalidBin);
    var validPassed := TestPassed(r.validPre.info.version, r.validCur.info.version, DownloadValidBin);
    RoundReport(
      Atoi(r.sameVersionQuery.info.version),
      DownloadResult(r.invalidPre.info, DownloadInvalidBin, r.invalidDownload, step), invalidPassed,
      DownloadResult(r.validPre.info, DownloadValidBin, r.validDownload, step), validPassed,
      if validPassed then Some(BinaryFile(APP_NAME, r.validPre.info.version)) else None,
      OnboardResult(r.onboardInfo, r.onboardDownload, step), BinaryFile(NEW_APP_NAME, NEW_APP_VERSION))
  }

  /** The failures `binary_update_same_version_test` adds to `fail_cnt`. */
  function SameVersionFailures(query: Reply, entryRet: int): nat
  {
    Count(query.ret != OK) + Count(entryRet == OK)
  }

  /** The failures `binary_update_invalid_binary_test` adds to `fail_cnt`. */
  function InvalidBinaryFailures(r: Round, d: Download): nat
  {
    Count(r.invalidPre.ret != OK) + d.Failures() + Count(r.invalidReload != OK) + Count(r.invalidCur.ret != OK)
    + Count(!TestPassed(r.invalidPre.info.version, r.invalidCur.info.version, DownloadInvalidBin))
  }

  /** The failures `binary_update_new_version_test` adds to `fail_cnt`. */
  function NewVersionFailures(r: Round, d: Download): nat
  {
    Count(r.validPre.ret != OK) + d.Failures() + Count(r.validReload != OK) + Count(r.validCur.ret != OK)
    + Count(!TestPassed(r.validPre.info.version, r.validCur.info.version, DownloadValidBin))
  }

  /** The failures `binary_update_new_binary_test` adds to `fail_cnt`. */
  function NewBinaryFailures(r: Round, d: Download): nat
  {
    d.Failures() + Count(r.onboardReload != OK) + Count(r.onboardQuery.ret != OK) + Count(r.inventoryRet != OK)
  }

  /** The reports of runs 1 .. n, run k answered by `rounds(k)`. */
  function ExpectedReports(rounds: nat -> Round, step: CrcStep, n: nat): (r: seq<RoundReport>)
    requires forall k: nat :: RoundFits(rounds(k))
    ensures |r| == n
  {
    if n == 0 then [] else ExpectedReports(rounds, step, n - 1) + [ExpectedReport(rounds(n), step)]
  }

  /** Report k of a batch is the one run k + 1 produces from its own answers. */
  lemma {:induction false} ExpectedReportsAt(rounds: nat -> Round, step: CrcStep, n: nat, k: nat)
    requires forall j: nat :: RoundFits(rounds(j))
    requires k < n
    ensures ExpectedReports(rounds, step, n)[k] == ExpectedReport(rounds(k + 1), step)
  {
    var before := ExpectedReports(rounds, step, n - 1);
    assert ExpectedReports(rounds, step, n) == before + [ExpectedReport(rounds(n), step)];
    if k < n - 1 {
      ExpectedReportsAt(rounds, step, n - 1, k);
    }
  }

  /** The failures one run of the scenario sequence adds to `fail_cnt`, given what its downloads did. */
  function RoundFailures(r: Round, report: RoundReport): nat
  {
    SameVersionFailures(r.sameVersionQuery, r.sameVersionEntry) + InvalidBinaryFailures(r, report.invalid)
    + Count(r.registerRet != OK) + NewVersionFailures(r, report.valid) + Count(r.unregisterRet != OK)
    + NewBinaryFailures(r, report.onboard)
  }

  /** Every answer of a round that is a plain status check is the one the scenarios expect. */
  predicate AnswersOk(r: Round)
  {
    && r.sameVersionQuery.ret == OK && r.sameVersionEntry != OK
    && r.invalidPre.ret == OK && r.invalidReload == OK && r.invalidCur.ret == OK
    && r.registerRet == OK
    && r.validPre.ret == OK && r.validReload == OK && r.validCur.ret == OK
    && r.unregisterRet == OK
    && r.onboardReload == OK && r.onboardQuery.ret == OK && r.inventoryRet == OK
  }

  /**
   * A run counts no failure exactly when every status answer is as expected, no
   * download counts one, the invalid image left the running version alone and the
   * valid one changed it.
   */
  lemma CleanRound(r: Round, report: RoundReport)
    requires report.invalidPassed == TestPassed(r.invalidPre.info.version, r.invalidCur.info.version, DownloadInvalidBin)
    requires report.validPassed == TestPassed(r.validPre.info.version, r.validCur.info.version, DownloadValidBin)
    ensures RoundFailures(r, report) == 0 <==>
        && AnswersOk(r)
        && report.invalid.Failures() == 0 && report.valid.Failures() == 0 && report.onboard.Failures() == 0
        && report.invalidPassed && report.validPassed
  {
  }

  /** The failures of the first |reports| runs, run k answered by `rounds(k + 1)`. */
  function TotalFailures(rounds: nat -> Round, reports: seq<RoundReport>): nat
  {
    if reports == [] then 0
    else TotalFailures(rounds, reports[..|reports| - 1]) + RoundFailures(rounds(|reports|), reports[|reports| - 1])
  }

  /** A batch reports no failure exactly when every one of its runs is clean. */
  lemma {:induction false} CleanRunsTotal(rounds: nat -> Round, reports: seq<RoundReport>)
    ensures TotalFailures(rounds, reports) == 0
        <==> forall k :: 0 <= k < |reports| ==> RoundFailures(rounds(k + 1), reports[k]) == 0
  {
    if reports != [] {
      var init := reports[..|reports| - 1];
      CleanRunsTotal(rounds, init);
      assert forall k :: 0 <= k < |init| ==> init[k] == reports[k];
    }
  }

  /**
   * The test application's state: the failure counter shared by every scenario, and
   * (ghost) the scenarios run so far, in order.
   */
  class BinaryUpdateTest {
    var failCnt: int
    ghost var trace: seq<Scenario>

    constructor ()
      ensures failCnt == 0 && trace == []
    {
      failCnt := 0;
      trace := [];
    }

    /**
     * The common tail of both downloads: `binary_manager_open_new_entry`, then the
     * header (already rewritten) and payload into the new slot; every failure adds
     * one to `fail_cnt`, and the source file is closed on every path.
     */
    method WriteNewEntry(rd: SourceFile, env: DownloadEnv, hdr: Header, corrupt: bool, step: CrcStep, requested: int)
      returns (r: Download, wr: SlotFile?)
      requires rd.Valid() && rd.isOpen && rd.pos == HEADER_SIZE
      requires WellFormed(hdr) && ScopeFits(hdr)
      modifies this`failCnt, rd`pos, rd`isOpen
      ensures failCnt == old(failCnt) + r.Failures()
      ensures !rd.isOpen && r.requested == requested
      ensures env.entryFd < 0 ==> r == Download(EntryFailed, env.entryFd, 0, 0, requested) && wr == null
      ensures env.entryFd >= 0 ==>
        && wr != null && fresh(wr) && !wr.isOpen
        && wr.capacity == env.slotCapacity && wr.seekResult == env.seekResult
        && SlotImage(r, wr.data) == WrittenImage(rd.contents, env.slotCapacity, env.seekResult, hdr, corrupt, step, requested)
    {
      if env.entryFd < 0 {
        failCnt := failCnt + 1;
        rd.Close();
        return Download(EntryFailed, env.entryFd, 0, 0, requested), null;
      }
      var slot;
      r, slot := CopyIntoSlot(rd, env, hdr, corrupt, step, requested);
      wr := slot;
      if r.lastRet < 0 {
        failCnt := failCnt + 1;
      }
    }

    /** `binary_update_download_binary`: copy micom's stored image into a slot one version higher. */
    method DownloadBinary(info: UpdateInfo, condition: Condition, env: DownloadEnv, step: CrcStep)
      returns (r: Download, rd: SourceFile?, wr: SlotFile?)
      requires SourceFits(env, BinaryFile(APP_NAME, info.version))
      modifies this`failCnt
      ensures r == DownloadResult(info, condition, env, step)
      ensures failCnt == old(failCnt) + r.Failures()
      ensures rd != null ==> fresh(rd) && !rd.isOpen
      ensures wr != null ==> fresh(wr) && !wr.isOpen
      ensures
        var file := BinaryFile(APP_NAME, info.version);
        if file !in env.files then r.stage == OpenFailed && rd == null && wr == null
        else
          var src := env.files[file];
          && rd != null && rd.contents == src
          && if |src| < HEADER_SIZE then r.stage == HeaderReadFailed && r.lastRet == |src| && wr == null
             else
               var stored := StoredHeader(src);
               && r.requested == NextVersion(stored)
               && if env.entryFd < 0 then r.stage == EntryFailed && wr == null
                  else
                    && wr != null && wr.capacity == env.slotCapacity && wr.seekResult == env.seekResult
                    && SlotImage(r, wr.data)
                       == WrittenImage(src, env.slotCapacity, env.seekResult, VersionRewritten(stored, r.requested),
                                       condition == DownloadInvalidBin, step, r.requested)
    {
      rd, wr := null, null;
      var file := BinaryFile(APP_NAME, info.version);
      if file !in env.files {
        failCnt := failCnt + 1;
        return Download(OpenFailed, -1, 0, 0, 0), rd, wr;
      }
      rd := new SourceFile.Open(env.files[file]);
      var ret, stored := ReadHeader(rd);
      if ret != HEADER_SIZE {
        failCnt := failCnt + 1;
        rd.Close();
        return Download(HeaderReadFailed, ret, 0, 0, 0), rd, wr;
      }
      var header := stored.value;
      var newVersion := Atoi(Chars(header.binVer));
      newVersion := newVersion + 1;
      ghost var src := env.files[file];
      assert header == StoredHeader(src) && newVersion == NextVersion(header);
      r, wr := WriteNewEntry(rd, env, VersionRewritten(header, newVersion), condition == DownloadInvalidBin, step, newVersion);
      DownloadResultOfSlot(info, condition, env, step);
    }

    /**
     * `binary_update_download_new_binary`: copy micom's stored image into a new slot
     * for NEW_APP_NAME at NEW_APP_VERSION, if the image fits the free space. The
     * stream the size probe opens is checked here (see OnboardResult).
     */
    method DownloadNewBinary(info: UpdateInfo, env: DownloadEnv, step: CrcStep)
      returns (r: Download, rd: SourceFile?, wr: SlotFile?)
      requires SourceFits(env, BinaryFile(APP_NAME, info.version))
      modifies this`failCnt
      ensures r == OnboardResult(info, env, step)
      ensures failCnt == old(failCnt) + r.Failures()
      ensures rd != null ==> fresh(rd) && !rd.isOpen
      ensures wr != null ==> fresh(wr) && !wr.isOpen
      ensures
        var file := BinaryFile(APP_NAME, info.version);
        if file !in env.files then r.stage == OpenFailed && rd == null && wr == null
        else
          var src := env.files[file];
          var size := FileSize(src);
          if size <= 0 || info.availableSize <= 0 || size >= info.availableSize then
            r.stage == SizeRejected && rd == null && wr == null
          else
            && rd != null && rd.contents == src
            && if |src| < HEADER_SIZE then r.stage == HeaderReadFailed && r.lastRet == |src| && wr == null
               else
                 && r.requested == Atoi(NEW_APP_VERSION)
                 && if env.entryFd < 0 then r.stage == EntryFailed && wr == null
                    else
                      && wr != null && wr.capacity == env.slotCapacity && wr.seekResult == env.seekResult
                      && SlotImage(r, wr.data)
                         == WrittenImage(src, env.slotCapacity, env.seekResult, Onboarded(StoredHeader(src)),
                                         false, step, r.requested)
    {
      rd, wr := null, null;
      var file := BinaryFile(APP_NAME, info.version);
      if file !in env.files {
        failCnt := failCnt + 1;
        return Download(OpenFailed, -1, 0, 0, 0), rd, wr;
      }
      var fileSize := FileSize(env.files[file]);
      if fileSize <= 0 || info.availableSize <= 0 || fileSize >= info.availableSize {
        failCnt := failCnt + 1;
        return Download(SizeRejected, 0, 0, 0, 0), rd, wr;
      }
      rd := new SourceFile.Open(env.files[file]);
      var ret, stored := ReadHeader(rd);
      if ret != HEADER_SIZE {
        failCnt := failCnt + 1;
        rd.Close();
        return Download(HeaderReadFailed, ret, 0, 0, 0), rd, wr;
      }
      var header := stored.value;
      var version := Atoi(NEW_APP_VERSION);
      r, wr := WriteNewEntry(rd, env, Onboarded(header), false, step, version);
    }

    /** `binary_update_check_test_result` */
    method CheckTestResult(pre: UpdateInfo, cur: UpdateInfo, condition: Condition) returns (ret: int)
      modifies this`failCnt
      ensures ret == OK <==> TestPassed(pre.version, cur.version, condition)
      ensures ret == OK || ret == ERROR
      ensures failCnt == old(failCnt) + Count(ret != OK)
    {
      ret := ERROR;
      if condition == DownloadValidBin {
        if pre.version == cur.version {
          failCnt := failCnt + 1;
        } else {
          ret := OK;
        }
      } else {
        if pre.version != cur.version {
          failCnt := failCnt + 1;
        } else {
          ret := OK;
        }
      }
    }

    /** `binary_update_getinfo`: the record is whatever the binary manager filled in. */
    method GetInfo(reply: Reply) returns (info: UpdateInfo)
      modifies this`failCnt
      ensures info == reply.info
      ensures failCnt == old(failCnt) + Count(reply.ret != OK)
    {
      info := reply.info;
      if reply.ret != OK {
        failCnt := failCnt + 1;
      }
    }

    /** `binary_update_getinfo_all` */
    method GetInfoAll(ret: int)
      modifies this`failCnt
      ensures failCnt == old(failCnt) + Count(ret != OK)
    {
      if ret != OK {
        failCnt := failCnt + 1;
      }
    }

    /** `binary_update_reload` */
    method Reload(ret: int)
      modifies this`failCnt
      ensures failCnt == old(failCnt) + Count(ret != OK)
    {
      if ret != OK {
        failCnt := failCnt + 1;
      }
    }

    /** `binary_update_register_state_changed_callback`, run as a scenario of its own. */
    method RegisterCallback(ret: int)
      modifies this`failCnt, this`trace
      ensures failCnt == old(failCnt) + Count(ret != OK)
      ensures trace == old(trace) + [RegisterStep]
    {
      if ret != OK {
        failCnt := failCnt + 1;
      }
      trace := trace + [RegisterStep];
    }

    /** `binary_update_unregister_state_changed_callback`, run as a scenario of its own. */
    method UnregisterCallback(ret: int)
      modifies this`failCnt, this`trace
      ensures failCnt == old(failCnt) + Count(ret != OK)
      ensures trace == old(trace) + [UnregisterStep]
    {
      if ret != OK {
        failCnt := failCnt + 1;
      }
      trace := trace + [UnregisterStep];
    }

    /**
     * `binary_update_same_version_test`: ask for a slot at the current version; a
     * failure is counted only when the binary manager answers exactly OK.
     */
    method SameVersionTest(query: Reply, entryRet: int) returns (requested: int)
      modifies this`failCnt, this`trace
      ensures requested == Atoi(query.info.version)
      ensures failCnt == old(failCnt) + SameVersionFailures(query, entryRet)
      ensures trace == old(trace) + [SameVersionStep]
    {
      var info := GetInfo(query);
      requested := Atoi(info.version);
      if entryRet == OK {
        failCnt := failCnt + 1;
      }
      trace := trace + [SameVersionStep];
    }

    /** `binary_update_invalid_binary_test`: passes when the corrupted copy leaves the running version alone. */
    method InvalidBinaryTest(round: Round, step: CrcStep) returns (d: Download, passed: bool)
      requires SourceFits(round.invalidDownload, BinaryFile(APP_NAME, round.invalidPre.info.version))
      modifies this`failCnt, this`trace
      ensures d == DownloadResult(round.invalidPre.info, DownloadInvalidBin, round.invalidDownload, step)
      ensures passed == TestPassed(round.invalidPre.info.version, round.invalidCur.info.version, DownloadInvalidBin)
      ensures failCnt == old(failCnt) + InvalidBinaryFailures(round, d)
      ensures trace == old(trace) + [InvalidBinaryStep]
    {
      var pre := GetInfo(round.invalidPre);
      var rd, wr;
      d, rd, wr := DownloadBinary(pre, DownloadInvalidBin, round.invalidDownload, step);
      Reload(round.invalidReload);
      var cur := GetInfo(round.invalidCur);
      var ret := CheckTestResult(pre, cur, DownloadInvalidBin);
      passed := ret == OK;
      trace := trace + [InvalidBinaryStep];
    }

    /** `binary_update_new_version_test`: the old version's file is unlinked only when the version changed. */
    method NewVersionTest(round: Round, step: CrcStep) returns (d: Download, passed: bool, unlinked: Option<BinaryFile>)
      requires SourceFits(round.validDownload, BinaryFile(APP_NAME, round.validPre.info.version))
      modifies this`failCnt, this`trace
      ensures d == DownloadResult(round.validPre.info, DownloadValidBin, round.validDownload, step)
      ensures passed == TestPassed(round.validPre.info.version, round.validCur.info.version, DownloadValidBin)
      ensures unlinked == if passed then Some(BinaryFile(APP_NAME, round.validPre.info.version)) else None
      ensures failCnt == old(failCnt) + NewVersionFailures(round, d)
      ensures trace == old(trace) + [NewVersionStep]
    {
      var pre := GetInfo(round.validPre);
      var rd, wr;
      d, rd, wr := DownloadBinary(pre, DownloadValidBin, round.validDownload, step);
      Reload(round.validReload);
      var cur := GetInfo(round.validCur);
      var ret := CheckTestResult(pre, cur, DownloadValidBin);
      passed := ret == OK;
      unlinked := None;
      if ret == OK {
        unlinked := Some(BinaryFile(APP_NAME, pre.version));
      }
      trace := trace + [NewVersionStep];
    }

    /** `binary_update_new_binary_test`: onboard, reload, query, list, then always unlink the new file. */
    method NewBinaryTest(round: Round, step: CrcStep) returns (d: Download, unlinked: BinaryFile)
      requires SourceFits(round.onboardDownload, BinaryFile(APP_NAME, round.onboardInfo.version))
      modifies this`failCnt, this`trace
      ensures d == OnboardResult(round.onboardInfo, round.onboardDownload, step)
      ensures unlinked == BinaryFile(NEW_APP_NAME, NEW_APP_VERSION)
      ensures failCnt == old(failCnt) + NewBinaryFailures(round, d)
      ensures trace == old(trace) + [NewBinaryStep]
    {
      var rd, wr;
      d, rd, wr := DownloadNewBinary(round.onboardInfo, round.onboardDownload, step);
      Reload(round.onboardReload);
      var info := GetInfo(round.onboardQuery);
      GetInfoAll(round.inventoryRet);
      unlinked := BinaryFile(NEW_APP_NAME, NEW_APP_VERSION);
      trace := trace + [NewBinaryStep];
    }

    /**
     * `binary_update_run_tests`: the six scenarios, always all of them, in the order
     * SCENARIO_ORDER; the report and the failures are those of the round's answers.
     */
    method RunTests(round: Round, step: CrcStep) returns (report: RoundReport)
      requires RoundFits(round)
      modifies this`failCnt, this`trace
      ensures trace == old(trace) + SCENARIO_ORDER
      ensures report == ExpectedReport(round, step)
      ensures failCnt == old(failCnt) + RoundFailures(round, report)
      ensures report.sameVersionRequested == Atoi(round.sameVersionQuery.info.version)
      ensures report.validUnlinked.Some? <==> report.validPassed
      ensures report.onboardUnlinked == BinaryFile(NEW_APP_NAME, NEW_APP_VERSION)
    {
      ghost var t0 := trace;
      var requested := SameVersionTest(round.sameVersionQuery, round.sameVersionEntry);
      var invalid, invalidPassed := InvalidBinaryTest(round, step);
      RegisterCallback(round.registerRet);
      var valid, validPassed, validUnlinked := NewVersionTest(round, step);
      UnregisterCallback(round.unregisterRet);
      var onboard, onboardUnlinked := NewBinaryTest(round, step);
      OneRoundTrace(t0);
      report := RoundReport(requested, invalid, invalidPassed, valid, validPassed, validUnlinked,
                            onboard, onboardUnlinked);
    }

    /** `binary_update_show_success_ratio`: report rep_cnt - fail_cnt and fail_cnt, then clear the counter. */
    method ShowSuccessRatio(repCnt: int) returns (success: int, fail: int)
      modifies this`failCnt
      ensures success == repCnt - old(failCnt) && fail == old(failCnt)
      ensures failCnt == 0
    {
      success, fail := repCnt - failCnt, failCnt;
      failCnt := 0;
    }

    /** `binary_update_execute_ntimes`: runs 1 .. repetitionNum, run k answered by rounds(k), then reports. */
    method ExecuteNTimes(repetitionNum: int, rounds: nat -> Round, step: CrcStep)
      returns (reports: seq<RoundReport>, success: int)
      requires forall k: nat :: RoundFits(rounds(k))
      modifies this`failCnt, this`trace
      ensures |reports| == Max(repetitionNum, 0)
      ensures reports == ExpectedReports(rounds, step, |reports|)
      ensures trace == old(trace) + RepeatedScenarios(|reports|)
      ensures success == repetitionNum - (old(failCnt) + TotalFailures(rounds, reports))
      ensures failCnt == 0
    {
      reports := [];
      for loopIdx := 1 to Max(repetitionNum, 0) + 1
        invariant |reports| == loopIdx - 1
        invariant reports == ExpectedReports(rounds, step, |reports|)
        invariant trace == old(trace) + RepeatedScenarios(|reports|)
        invariant failCnt == old(failCnt) + TotalFailures(rounds, reports)
      {
        var report := RunTests(rounds(loopIdx), step);
        RepeatedScenariosNext(old(trace), |reports|);
        assert (reports + [report])[..|reports|] == reports;
        reports := reports + [report];
      }
      var fail;
      success, fail := ShowSuccessRatio(repetitionNum);
    }

    /** `binary_update_test`: one run of the sequence. */
    method BinaryUpdateMain(rounds: nat -> Round, step: CrcStep) returns (reports: seq<RoundReport>, success: int)
      requires forall k: nat :: RoundFits(rounds(k))
      modifies this`failCnt, this`trace
      ensures reports == [ExpectedReport(rounds(1), step)]
      ensures trace == old(trace) + SCENARIO_ORDER
      ensures success == 1 - (old(failCnt) + RoundFailures(rounds(1), reports[0]))
      ensures failCnt == 0
    {
      reports, success := ExecuteNTimes(1, rounds, step);
      ExpectedReportsAt(rounds, step, 1, 0);
      assert reports[..0] == [];
      RepeatedOnce();
    }
  }

}

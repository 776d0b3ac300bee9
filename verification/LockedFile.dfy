// The server's locked file, over a regular file or over the character device.
module LockedFile {
  import opened Bytes
  import opened Machine
  import opened FlatView
  import opened CharDevice

  const SF_SUCCESS: int := 0
  const SF_INVALID_FILE_HANDLE_ERR: int := -2
  const SF_CALLBACK_HAS_RETURNED_FALSE_STATUS: int := -7
  const EIO: int := 5
  const ENOTTY: int := 25
  const MAX_RW_COUNT: int := 0x7fff_f000  // the most one write call takes

  /** A file's contents after one byte is written at `pos`; a gap before it reads as zeros. */
  function PutByte(data: seq<byte>, pos: nat, b: byte): seq<byte> {
    if pos < |data| then data[pos := b] else data + seq(pos - |data|, _ => 0) + [b]
  }

  /** A regular file's contents after writing `buf` at `pos`. */
  function Overwrite(data: seq<byte>, pos: nat, buf: seq<byte>): seq<byte>
    decreases |buf|
  {
    if buf == [] then data else Overwrite(PutByte(data, pos, buf[0]), pos + 1, buf[1..])
  }

  lemma {:induction false} OverwriteTwice(data: seq<byte>, pos: nat, a: seq<byte>, b: seq<byte>)
    ensures Overwrite(Overwrite(data, pos, a), pos + |a|, b) == Overwrite(data, pos, a + b)
    decreases |a|
  {
    if a == [] {
      assert a + b == b;
    } else {
      OverwriteTwice(PutByte(data, pos, a[0]), pos + 1, a[1..], b);
      assert (a + b)[1..] == a[1..] + b;
    }
  }

  lemma {:induction false} OverwriteLength(data: seq<byte>, pos: nat, buf: seq<byte>)
    requires pos <= |data|
    ensures |Overwrite(data, pos, buf)| == if pos + |buf| <= |data| then |data| else pos + |buf|
    decreases |buf|
  {
    if buf != [] {
      OverwriteLength(PutByte(data, pos, buf[0]), pos + 1, buf[1..]);
    }
  }

  lemma {:induction false} OverwriteAtEnd(data: seq<byte>, buf: seq<byte>)
    ensures Overwrite(data, |data|, buf) == data + buf
    decreases |buf|
  {
    if buf != [] {
      var more := PutByte(data, |data|, buf[0]);
      OverwriteAtEnd(more, buf[1..]);
      assert more + buf[1..] == data + buf;
    }
  }

  /** The bytes of a file after a write, which fills a gap before it with zeros. */
  lemma {:induction false} OverwriteAt(data: seq<byte>, pos: nat, buf: seq<byte>, i: nat)
    requires buf != []
    ensures var after := Overwrite(data, pos, buf);
            && |after| == (if pos + |buf| <= |data| then |data| else pos + |buf|)
            && (i < |after| ==>
                  after[i] == if pos <= i < pos + |buf| then buf[i - pos] else if i < |data| then data[i] else 0)
    decreases |buf|
  {
    var more := PutByte(data, pos, buf[0]);
    if |buf| == 1 {
      assert Overwrite(data, pos, buf) == Overwrite(more, pos + 1, []);
    } else {
      OverwriteAt(more, pos + 1, buf[1..], i);
    }
  }

  /** A write appends exactly when it starts at the end of the file. */
  lemma OverwriteAppendsIff(data: seq<byte>, pos: nat, buf: seq<byte>)
    requires pos <= |data|
    ensures Overwrite(data, pos, buf) == data + buf <==> buf == [] || pos == |data|
  {
    OverwriteLength(data, pos, buf);
    OverwriteAtEnd(data, buf);
  }

  /** What writes to a descriptor change: the device's stream, or a file's contents and offset. */
  datatype FileView = OnDevice(written: seq<byte>) | Regular(data: seq<byte>, pos: int)

  function After(v: FileView, buf: seq<byte>): FileView
    requires v.Regular? ==> 0 <= v.pos
  {
    match v
    case OnDevice(written) => OnDevice(written + buf)
    case Regular(data, pos) => Regular(Overwrite(data, pos, buf), pos + |buf|)
  }

  function Sought(v: FileView, pos: nat): FileView {
    if v.Regular? then v.(pos := pos) else v
  }

  /** Writing a buffer in two pieces is writing it at once. */
  lemma AfterTwice(v: FileView, a: seq<byte>, b: seq<byte>)
    requires v.Regular? ==> 0 <= v.pos
    ensures After(After(v, a), b) == After(v, a + b)
  {
    match v
    case OnDevice(written) => assert written + a + b == written + (a + b);
    case Regular(data, pos) => OverwriteTwice(data, pos, a, b);
  }

  lemma AfterPart(v: FileView, buf: seq<byte>, written: nat, n: nat)
    requires v.Regular? ==> 0 <= v.pos
    requires written + n <= |buf|
    ensures After(After(v, buf[..written]), buf[written..][..n]) == After(v, buf[..written + n])
  {
    assert buf[..written] + buf[written..][..n] == buf[..written + n];
    AfterTwice(v, buf[..written], buf[written..][..n]);
  }

  /** Offsets for which no `off_t` sum below overflows. */
  ghost predicate Moderate(x: int) {
    -TWO_61 <= x < TWO_61
  }

  /** The position a seek asks for. */
  function SeekTarget(total: nat, fPos: int, offset: int, whence: int): Option<int> {
    if whence == SEEK_SET then Some(offset)
    else if whence == SEEK_CUR then Some(fPos + offset)
    else if whence == SEEK_END then Some(total + offset)
    else None
  }

  /** Where a seek ends up, if it succeeds: the device refuses positions beyond its contents. */
  function SeekResult(isDevice: bool, size: nat, fPos: int, point: ReadPoint): Option<nat> {
    var target := SeekTarget(size, fPos, point.offset, point.whence);
    if target.Some? && 0 <= target.value && (isDevice ==> target.value <= size) then Some(target.value) else None
  }

  datatype ReadPoint = ReadPoint(whence: int, offset: int)

  datatype ReadRange = ReadRange(start: ReadPoint, end: ReadPoint)

  /** A seek ends up at its offset, counted from the start, from where the file stands, or from the end. */
  lemma SeekResultMeans(isDevice: bool, size: nat, fPos: int, point: ReadPoint, pos: nat)
    ensures SeekResult(isDevice, size, fPos, point) == Some(pos) <==>
              && (isDevice ==> pos <= size)
              && (|| (point.whence == SEEK_SET && pos == point.offset)
                  || (point.whence == SEEK_CUR && pos == fPos + point.offset)
                  || (point.whence == SEEK_END && pos == size + point.offset))
  {
  }

  const WHOLE_FILE := ReadRange(ReadPoint(SEEK_SET, 0), ReadPoint(SEEK_END, 0))

  /** The start and end a range resolves to: the end is sought from the start. */
  function Resolve(isDevice: bool, size: nat, fPos: int, range: ReadRange): Option<(nat, nat)> {
    match SeekResult(isDevice, size, fPos, range.start)
    case None => None
    case Some(start) =>
      match SeekResult(isDevice, size, start, range.end)
      case None => None
      case Some(end) => Some((start, end))
  }

  lemma ResolveMeans(isDevice: bool, size: nat, fPos: int, range: ReadRange, start: nat, end: nat)
    ensures Resolve(isDevice, size, fPos, range) == Some((start, end)) <==>
              && SeekResult(isDevice, size, fPos, range.start) == Some(start)
              && SeekResult(isDevice, size, start, range.end) == Some(end)
  {
  }

  /** An open descriptor: a regular file, or the character device when the file has one. */
  class Descriptor {
    const file: OpenFile
    var data: seq<byte>  // contents of a regular file

    ghost var failures: nat  // reads and writes that failed so far

    constructor (file: OpenFile, data: seq<byte>)
      ensures this.file == file && this.data == data && failures == 0
    {
      this.file, this.data, failures := file, data, 0;
    }

    ghost predicate IsDevice()
      reads file`privateData
    {
      file.privateData != null
    }

    ghost function DeviceRepr(): set<object>
      reads file`privateData, file.privateData
    {
      if file.privateData != null then file.privateData.Repr else {}
    }

    ghost predicate Valid()
      reads file, file.privateData, DeviceRepr()
    {
      file.Valid() && 0 <= file.fPos && this !in DeviceRepr() && file !in DeviceRepr()
    }

    /** What a reader from offset 0 would see. */
    ghost function Contents(): seq<byte>
      requires file.privateData != null ==> file.privateData.Valid()
      reads this`data, file`privateData, file.privateData
      reads if file.privateData != null then file.privateData.Repr else {}
    {
      if file.privateData != null then Flat(file.Commands()) else data
    }

    method Lseek(point: ReadPoint) returns (ret: int)
      requires Valid() && |Contents()| < TWO_63
      requires IsI64(point.offset) && (point.whence == SEEK_CUR ==> IsI64(file.fPos + point.offset))
      modifies file`fPos
      ensures Valid()
      ensures match SeekResult(IsDevice(), |Contents()|, old(file.fPos), point)
              case Some(pos) => ret == file.fPos == pos
              case None => ret < 0 && file.fPos == old(file.fPos)
    {
      if file.privateData != null {
        ret := file.LLSeek(point.offset, point.whence);
        return;
      }
      var target := SeekTarget(|data|, file.fPos, point.offset, point.whence);
      if target.None? || target.value < 0 {
        return -EINVAL;
      }
      file.fPos := target.value;
      return target.value;
    }

    /** The device's seek command; a regular file knows no such call. */
    method Ioctl(writeCmd: nat, writeCmdOffset: nat) returns (ret: int)
      requires Valid() && writeCmd < TWO_32 && writeCmdOffset < TWO_32
      modifies file`fPos
      ensures Valid()
      ensures IsDevice() ==>
                var slots := SlotsOf(file.privateData.Capacity(), file.privateData.written);
                if writeCmd < |slots| && writeCmdOffset < |slots[writeCmd]|
                then ret == 0 && file.fPos == |Flat(slots[..writeCmd])| + writeCmdOffset < |Contents()|
                else ret == -EINVAL && file.fPos == old(file.fPos)
      ensures !IsDevice() ==> ret == -ENOTTY && file.fPos == old(file.fPos)
    {
      if file.privateData == null {
        return -ENOTTY;
      }
      ret := file.Ioctl(writeCmd, writeCmdOffset);
    }

    /** The device stops at the end of a command; a regular file may fail or be short at will. */
    method Read(count: nat) returns (ret: int, out: seq<byte>)
      requires Valid() && (IsDevice() ==> |Contents()| <= INT_MAX) && file.fPos < TWO_63
      modifies file`fPos, `failures
      ensures Valid() && failures == old(failures) + if ret < 0 then 1 else 0
      ensures ret < 0 ==> !IsDevice() && out == [] && file.fPos == old(file.fPos)
      ensures ret >= 0 ==> ret == |out| && file.fPos == old(file.fPos) + |out|
      ensures ret >= 0 ==> IsRead(Contents(), old(file.fPos), count, out)
    {
      if file.privateData != null {
        DriverReadIsRead(file.Commands(), file.fPos, count);
        ret, out := file.Read(count);
        return;
      }
      if * {
        failures := failures + 1;
        return -EIO, [];
      }
      var available := if file.fPos <= |data| then |data| - file.fPos else 0;
      var most := if available < count then available else count;
      var n: nat :| n <= most && (n == 0 ==> most == 0);
      out := if n == 0 then [] else data[file.fPos..file.fPos + n];
      file.fPos := file.fPos + n;
      return n, out;
    }

    ghost function View(): FileView
      reads `data, file, file.privateData
    {
      if file.privateData != null then OnDevice(file.privateData.written) else Regular(data, file.fPos)
    }

    /** The device takes all that one call may; a regular file may fail or take a part of it. */
    method Write(buf: seq<byte>) returns (ret: int)
      requires Valid()
      modifies this, file, DeviceRepr()
      ensures file.privateData == old(file.privateData) && Valid()
      ensures failures == old(failures) + if ret < 0 then 1 else 0
      ensures fresh(DeviceRepr() - old(DeviceRepr()))
      ensures ret < 0 ==> !IsDevice() && View() == old(View())
      ensures ret >= 0 ==>
                && (IsDevice() ==> ret == Min(|buf|, MAX_RW_COUNT))
                && ret <= Min(|buf|, MAX_RW_COUNT) && (buf != [] ==> ret > 0)
                && View() == After(old(View()), buf[..ret])
    {
      var most := Min(|buf|, MAX_RW_COUNT);
      if file.privateData != null {
        InRange(most);
        ret := file.Write(buf[..most]);
        return;
      }
      if * {
        failures := failures + 1;
        return -EIO;
      }
      var n: nat :| n <= most && (n == 0 ==> buf == []);
      data := Overwrite(data, file.fPos, buf[..n]);
      file.fPos := file.fPos + n;
      return n;
    }
  }

  /** The bytes of a range; a non-empty range must lie within the contents. */
  function Wanted(flat: seq<byte>, start: nat, end: nat): seq<byte> {
    if start < end <= |flat| then flat[start..end] else []
  }

  /** `chunks` is what a range read may have handed to its callback so far: pieces of at most
      `buffsize` bytes which together are a prefix of the range. A range that ends before it
      starts gets one piece, read at its start. */
  ghost predicate IsReply(flat: seq<byte>, start: nat, end: nat, buffsize: nat, chunks: seq<seq<byte>>) {
    && (forall i :: 0 <= i < |chunks| ==> |chunks[i]| <= buffsize)
    && (if start <= end then Flat(chunks) <= Wanted(flat, start, end)
        else |chunks| <= 1 && (chunks != [] ==> IsRead(flat, start, buffsize, chunks[0])))
  }

  ghost predicate IsComplete(flat: seq<byte>, start: nat, end: nat, chunks: seq<seq<byte>>) {
    if start <= end then Flat(chunks) == Wanted(flat, start, end) else |chunks| == 1
  }

  /** What the callback has been handed: pieces of the range in order, all of it once complete. */
  lemma ReplyMeans(flat: seq<byte>, start: nat, end: nat, buffsize: nat, chunks: seq<seq<byte>>)
    requires LoopEnds(flat, start, end, buffsize) && IsReply(flat, start, end, buffsize, chunks)
    ensures forall i :: 0 <= i < |chunks| ==> |chunks[i]| <= buffsize
    ensures start < end ==>
              && Flat(chunks) <= flat[start..end]
              && (IsComplete(flat, start, end, chunks) <==> |Flat(chunks)| == end - start)
    ensures start == end ==> Flat(chunks) == [] && IsComplete(flat, start, end, chunks)
    ensures start > end ==>
              && (IsComplete(flat, start, end, chunks) <==> |chunks| == 1)
              && |chunks| <= 1 && (chunks != [] ==> IsRead(flat, start, buffsize, chunks[0]))
  {
  }

  /** What one iteration of the read loop asks for: the comparison is unsigned. */
  function Request(left: int, buffsize: nat): (n: nat)
    requires -TWO_63 < left < TWO_63 && buffsize < TWO_63
    ensures n == if 0 <= left < buffsize then left else buffsize
  {
    if U64(left) < buffsize then left else buffsize
  }

  /** When the read loop ends: a range to be read lies within the contents, and the buffer has room. */
  ghost predicate LoopEnds(flat: seq<byte>, start: nat, end: nat, buffsize: nat) {
    start < end ==> end <= |flat| && buffsize > 0
  }

  /** Otherwise no number of successful reads and callbacks ever ends it. */
  lemma OtherwiseItNeverEnds(flat: seq<byte>, start: nat, end: nat, buffsize: nat,
                             counts: seq<nat>, pieces: seq<seq<byte>>)
    requires !LoopEnds(flat, start, end, buffsize)
    requires IsReadRun(flat, start, counts, pieces) && forall i :: 0 <= i < |counts| ==> counts[i] <= buffsize
    ensures |Flat(pieces)| < end - start
  {
    if start <= |flat| && buffsize > 0 {
      ReadRunIsSlice(flat, start, counts, pieces);
    } else {
      NothingIsRead(flat, start, buffsize, counts, pieces);
    }
  }

  lemma {:induction false} NothingIsRead(flat: seq<byte>, start: nat, buffsize: nat,
                                         counts: seq<nat>, pieces: seq<seq<byte>>)
    requires IsReadRun(flat, start, counts, pieces) && forall i :: 0 <= i < |counts| ==> counts[i] <= buffsize
    requires buffsize == 0 || start >= |flat|
    ensures Flat(pieces) == []
    decreases |counts|
  {
    if counts != [] {
      NothingIsRead(flat, start, buffsize, counts[1..], pieces[1..]);
    }
  }

  /** What a read that answers an iteration's request adds to the reply. */
  lemma ReplyGrows(flat: seq<byte>, start: nat, end: nat, buffsize: nat, got: seq<seq<byte>>, piece: seq<byte>)
    requires buffsize < TWO_63 && start < TWO_63 && end < TWO_63 && LoopEnds(flat, start, end, buffsize)
    requires IsReply(flat, start, end, buffsize, got)
    requires got == [] || |Flat(got)| < end - start
    requires |Flat(got)| < TWO_63
    requires IsRead(flat, start + |Flat(got)|, Request(end - start - |Flat(got)|, buffsize), piece)
    ensures |Flat(got + [piece])| == |Flat(got)| + |piece|
    ensures start < end ==> |piece| > 0
    ensures IsReply(flat, start, end, buffsize, got + [piece])
    ensures |Flat(got + [piece])| >= end - start ==> IsComplete(flat, start, end, got + [piece])
  {
    FlatSnoc(got, piece);
    if start < end {
      PrefixGrows(flat, start, end, |Flat(got)|, piece);
    }
  }

  lemma PrefixGrows(flat: seq<byte>, start: nat, end: nat, have: nat, piece: seq<byte>)
    requires start + have + |piece| <= end <= |flat|
    requires piece == flat[start + have..start + have + |piece|]
    ensures flat[start..end][..have] + piece == flat[start..end][..have + |piece|]
  {
    var range := flat[start..end];
    forall i | 0 <= i < |piece| ensures range[have + i] == piece[i] {
    }
    assert range[have..have + |piece|] == piece;
    SlicesJoin(range, 0, have, have + |piece|);
  }

  /** The read callback with its parameters: it records what it is handed. */
  class ReplySink {
    const reliable: bool  // whether every call succeeds
    var chunks: seq<seq<byte>>

    ghost var answers: seq<bool>  // what each call returned

    constructor (reliable: bool)
      ensures this.reliable == reliable && chunks == [] && answers == []
    {
      this.reliable, chunks, answers := reliable, [], [];
    }

    method Callback(chunk: seq<byte>) returns (ok: bool)
      modifies this
      ensures chunks == old(chunks) + [chunk] && answers == old(answers) + [ok]
      ensures reliable ==> ok
    {
      chunks := chunks + [chunk];
      ok := *;
      ok := ok || reliable;
      answers := answers + [ok];
    }
  }

  /** The last `n` calls of the callback, the first of them after `was`, all succeeded, except that the
      last one was refused if and only if `error` says so. */
  ghost predicate Answered(was: seq<bool>, now: seq<bool>, n: nat, error: int) {
    && |now| == |was| + n && now[..|was|] == was
    && (forall i :: |was| <= i < |now| - 1 ==> now[i])
    && (error == SF_CALLBACK_HAS_RETURNED_FALSE_STATUS <==> n > 0 && !now[|now| - 1])
  }

  lemma AnsweredOnceMore(was: seq<bool>, now: seq<bool>, n: nat, ok: bool)
    requires Answered(was, now, n, SF_SUCCESS)
    ensures Answered(was, now + [ok], n + 1, if ok then SF_SUCCESS else SF_CALLBACK_HAS_RETURNED_FALSE_STATUS)
  {
  }

  class SafeFile {
    const handle: Descriptor?  // null for INVALID_FILE_HANDLE
    var locked: bool
    var err: int

    constructor (handle: Descriptor?)
      ensures this.handle == handle && !locked
    {
      this.handle, locked, err := handle, false, 0;
    }

    ghost predicate Valid()
      reads this, handle, if handle != null then {handle.file, handle.file.privateData} + handle.DeviceRepr() else {}
    {
      handle != null ==> handle.Valid() && this !in handle.DeviceRepr()
    }

    /** `h` can be read for `sink`, and holds `flat`. */
    ghost predicate Serves(h: Descriptor, flat: seq<byte>, sink: ReplySink)
      reads h`data, h.file, h.file.privateData, h.DeviceRepr()
    {
      && h.Valid() && sink !in h.DeviceRepr() && this !in h.DeviceRepr()
      && h.Contents() == flat && |flat| < TWO_63
      && (h.IsDevice() ==> |flat| <= INT_MAX)
    }

    /** A read of at most `n` bytes, and the callback on what it got. */
    method ReadOnce(h: Descriptor, n: nat, sink: ReplySink, ghost flat: seq<byte>)
      returns (error: int, ghost piece: seq<byte>)
      requires Serves(h, flat, sink) && h.file.fPos < TWO_63
      modifies `err, h.file`fPos, h`failures, sink
      ensures Serves(h, flat, sink)
      ensures h.failures == old(h.failures) + if error > 0 then 1 else 0
      ensures error > 0 ==>
                sink.chunks == old(sink.chunks) && sink.answers == old(sink.answers) && h.file.fPos == old(h.file.fPos)
      ensures error <= 0 ==>
                && (error == SF_SUCCESS || error == SF_CALLBACK_HAS_RETURNED_FALSE_STATUS)
                && sink.answers == old(sink.answers) + [error == SF_SUCCESS]
                && IsRead(flat, old(h.file.fPos), n, piece)
                && sink.chunks == old(sink.chunks) + [piece] && h.file.fPos == old(h.file.fPos) + |piece|
      ensures h.IsDevice() ==> error <= 0 && (sink.reliable ==> error == SF_SUCCESS)
    {
      var result, buff := h.Read(n);
      piece := buff;
      if result < 0 {
        err := -result;
        return err, piece;
      }
      var ok := sink.Callback(buff);
      error := if ok then SF_SUCCESS else SF_CALLBACK_HAS_RETURNED_FALSE_STATUS;
    }

    /** One iteration of the loop of `safe_file_read_range`, when `got` was handed to the callback before. */
    method ReadNext(h: Descriptor, start: nat, end: nat, buffsize: nat, sink: ReplySink,
                    ghost flat: seq<byte>, ghost was: seq<seq<byte>>, ghost got: seq<seq<byte>>)
      returns (error: int, ghost more: seq<seq<byte>>)
      requires start < TWO_63 && end < TWO_63 && buffsize < TWO_63 && LoopEnds(flat, start, end, buffsize)
      requires Serves(h, flat, sink) && h.file.fPos == start + |Flat(got)| < TWO_63
      requires sink.chunks == was + got && IsReply(flat, start, end, buffsize, got)
      requires got == [] || |Flat(got)| < end - start
      modifies `err, h.file`fPos, h`failures, sink
      ensures Serves(h, flat, sink) && h.file.fPos == start + |Flat(more)|
      ensures sink.chunks == was + more && IsReply(flat, start, end, buffsize, more)
      ensures h.failures == old(h.failures) + if error > 0 then 1 else 0
      ensures error > 0 ==> more == got && sink.answers == old(sink.answers)
      ensures error <= 0 ==>
                && error in {SF_SUCCESS, SF_CALLBACK_HAS_RETURNED_FALSE_STATUS}
                && |more| == |got| + 1 && sink.answers == old(sink.answers) + [error == SF_SUCCESS]
                && |Flat(more)| >= |Flat(got)| && (start < end ==> |Flat(more)| > |Flat(got)|)
                && (|Flat(more)| >= end - start ==> IsComplete(flat, start, end, more))
      ensures h.IsDevice() ==> error <= 0 && (sink.reliable ==> error == SF_SUCCESS)
    {
      var left := end - h.file.fPos;
      ghost var piece;
      error, piece := ReadOnce(h, Request(left, buffsize), sink, flat);
      if error > 0 {
        return error, got;
      }
      more := got + [piece];
      AppendAssociates(was, got, [piece]);
      ReplyGrows(flat, start, end, buffsize, got, piece);
    }

    /** The loop of `safe_file_read_range`, entered with the offset at `start`. */
    method ReadChunks(h: Descriptor, start: nat, end: nat, buffsize: nat, sink: ReplySink, ghost flat: seq<byte>)
      returns (error: int, ghost got: seq<seq<byte>>)
      requires Serves(h, flat, sink) && h.file.fPos == start
      requires start < TWO_63 && end < TWO_63 && buffsize < TWO_63 && LoopEnds(flat, start, end, buffsize)
      modifies `err, h.file`fPos, h`failures, sink
      ensures Serves(h, flat, sink)
      ensures h.failures == old(h.failures) + if error > 0 then 1 else 0
      ensures error > 0 || error == SF_SUCCESS || error == SF_CALLBACK_HAS_RETURNED_FALSE_STATUS
      ensures Answered(old(sink.answers), sink.answers, |got|, error)
      ensures sink.chunks == old(sink.chunks) + got
      ensures IsReply(flat, start, end, buffsize, got)
      ensures error == SF_SUCCESS ==> IsComplete(flat, start, end, got)
      ensures h.file.fPos == start + |Flat(got)|
      ensures h.IsDevice() ==> error <= 0 && (sink.reliable ==> error == SF_SUCCESS)
    {
      var total := end - start;
      var readBytes := 0;
      got, error := [], SF_SUCCESS;
      var again := true;
      while again
        invariant Serves(h, flat, sink)
        invariant h.failures == old(h.failures) + if error > 0 then 1 else 0
        invariant if again then error == SF_SUCCESS
                  else error > 0 || error == SF_SUCCESS || error == SF_CALLBACK_HAS_RETURNED_FALSE_STATUS
        invariant Answered(old(sink.answers), sink.answers, |got|, error)
        invariant sink.chunks == old(sink.chunks) + got
        invariant IsReply(flat, start, end, buffsize, got)
        invariant !again && error == SF_SUCCESS ==> IsComplete(flat, start, end, got)
        invariant readBytes == |Flat(got)| && h.file.fPos == start + readBytes < TWO_63
        invariant again ==> got == [] || readBytes < total
        invariant h.IsDevice() ==> error <= 0 && (sink.reliable ==> error == SF_SUCCESS)
        decreases again, total - readBytes
      {
        ghost var said, n := sink.answers, |got|;
        error, got := ReadNext(h, start, end, buffsize, sink, flat, old(sink.chunks), got);
        if error <= 0 {
          AnsweredOnceMore(old(sink.answers), said, n, error == SF_SUCCESS);
        }
        readBytes := h.file.fPos - start;
        again := error == SF_SUCCESS && readBytes < total;
      }
    }

    /** `safe_file_seek`: on failure the error is kept, and returned as a negative number. */
    method Seek(h: Descriptor, point: ReadPoint) returns (position: int)
      requires h.Valid() && this !in h.DeviceRepr() && |h.Contents()| < TWO_63
      requires IsI64(point.offset) && (point.whence == SEEK_CUR ==> IsI64(h.file.fPos + point.offset))
      modifies `err, h.file`fPos
      ensures h.Valid()
      ensures match SeekResult(h.IsDevice(), |h.Contents()|, old(h.file.fPos), point)
              case Some(pos) => position == h.file.fPos == pos
              case None => position < 0 && h.file.fPos == old(h.file.fPos) && err > 0
    {
      position := h.Lseek(point);
      if position < 0 {
        err := -position;
      }
    }

    /** The three seeks of `safe_file_read_range`: start, end, and back to the start. */
    method SeekRange(h: Descriptor, range: ReadRange, ghost flat: seq<byte>, ghost sink: ReplySink)
      returns (error: int, start: int, end: int)
      requires Serves(h, flat, sink) && |flat| < TWO_61
      requires range.start.whence == SEEK_CUR ==> Moderate(h.file.fPos)
      requires Moderate(range.start.offset) && Moderate(range.end.offset)
      modifies `err, h.file`fPos
      ensures Serves(h, flat, sink)
      ensures match Resolve(h.IsDevice(), |flat|, old(h.file.fPos), range)
              case Some((s, e)) => error == SF_SUCCESS && h.file.fPos == start == s && end == e < TWO_63
              case None => error > 0
    {
      error, end := SF_SUCCESS, 0;
      start := Seek(h, range.start);
      if start < 0 {
        return err, start, end;
      }
      end := Seek(h, range.end);
      if end < 0 {
        return err, start, end;
      }
      var back := Seek(h, ReadPoint(SEEK_SET, start));
      if back < 0 {
        return err, start, end;
      }
    }

    /** No offset overflows, and the read loop ends. */
    ghost predicate Ends(h: Descriptor, flat: seq<byte>, range: ReadRange, buffsize: nat)
      reads h.file
    {
      && |flat| < TWO_61 && (range.start.whence == SEEK_CUR ==> Moderate(h.file.fPos))
      && Moderate(range.start.offset) && Moderate(range.end.offset)
      && match Resolve(h.IsDevice(), |flat|, h.file.fPos, range)
         case Some((start, end)) => LoopEnds(flat, start, end, buffsize)
         case None => true
    }

    /** The critical section of `safe_file_read_range`. */
    method SeekThenRead(h: Descriptor, range: ReadRange, buffsize: nat, sink: ReplySink, ghost flat: seq<byte>)
      returns (error: int, ghost got: seq<seq<byte>>)
      requires locked && buffsize < TWO_63 && Serves(h, flat, sink) && Ends(h, flat, range, buffsize)
      modifies `err, h.file`fPos, h`failures, sink
      ensures Serves(h, flat, sink)
      ensures sink.chunks == old(sink.chunks) + got
      ensures error > 0 || error == SF_SUCCESS || error == SF_CALLBACK_HAS_RETURNED_FALSE_STATUS
      ensures Answered(old(sink.answers), sink.answers, |got|, error)
      ensures match Resolve(h.IsDevice(), |flat|, old(h.file.fPos), range)
              case None => error > 0 && got == [] && h.failures == old(h.failures)
              case Some((start, end)) =>
                && h.failures == old(h.failures) + (if error > 0 then 1 else 0)
                && IsReply(flat, start, end, buffsize, got)
                && (error == SF_SUCCESS ==> IsComplete(flat, start, end, got))
                && h.file.fPos == start + |Flat(got)|
                && (h.IsDevice() ==> error <= 0 && (sink.reliable ==> error == SF_SUCCESS))
    {
      got := [];
      var start, end;
      error, start, end := SeekRange(h, range, flat, sink);
      if error == SF_SUCCESS {
        error, got := ReadChunks(h, start, end, buffsize, sink, flat);
      }
    }

    /** `safe_file_read_range`: under the lock, hands the bytes of a range to the callback. */
    method ReadRange(range: ReadRange, buffsize: nat, sink: ReplySink, ghost flat: seq<byte>)
      returns (error: int, ghost got: seq<seq<byte>>)
      requires !locked && buffsize < TWO_63
      requires handle != null ==> Serves(handle, flat, sink) && Ends(handle, flat, range, buffsize)
      modifies `locked, `err, if handle != null then {handle, handle.file} else {}, sink
      ensures !locked
      ensures sink.chunks == old(sink.chunks) + got
      ensures Answered(old(sink.answers), sink.answers, |got|, error)
      ensures handle == null ==> error == SF_INVALID_FILE_HANDLE_ERR && got == []
      ensures handle != null ==>
                && handle.file.privateData == old(handle.file.privateData) && handle.data == old(handle.data)
                && Serves(handle, flat, sink)
                && (error > 0 || error == SF_SUCCESS || error == SF_CALLBACK_HAS_RETURNED_FALSE_STATUS)
                && match Resolve(handle.IsDevice(), |flat|, old(handle.file.fPos), range)
                   case None => error > 0 && got == [] && handle.failures == old(handle.failures)
                   case Some((start, end)) =>
                     && handle.failures == old(handle.failures) + (if error > 0 then 1 else 0)
                     && IsReply(flat, start, end, buffsize, got)
                     && (error == SF_SUCCESS ==> IsComplete(flat, start, end, got))
                     && handle.file.fPos == start + |Flat(got)|
                     && (handle.IsDevice() ==> error <= 0 && (sink.reliable ==> error == SF_SUCCESS))
    {
      if handle == null {
        err := SF_INVALID_FILE_HANDLE_ERR;
        return SF_INVALID_FILE_HANDLE_ERR, [];
      }
      locked := true;
      error, got := SeekThenRead(handle, range, buffsize, sink, flat);
      locked := false;
    }

    /** One `write` call of `safe_file_write`, after `written` bytes of the buffer were taken. */
    method WriteOnce(h: Descriptor, buf: seq<byte>, written: nat, ghost was: FileView) returns (result: int)
      requires h.Valid() && this !in h.DeviceRepr()
      requires written <= |buf| && (was.Regular? ==> 0 <= was.pos) && h.View() == After(was, buf[..written])
      modifies `err, h, h.file, h.DeviceRepr()
      ensures h.file.privateData == old(h.file.privateData) && h.Valid() && this !in h.DeviceRepr()
      ensures fresh(h.DeviceRepr() - old(h.DeviceRepr()))
      ensures h.failures == old(h.failures) + if result < 0 then 1 else 0
      ensures result < 0 ==> h.View() == old(h.View()) && err > 0 && !h.IsDevice()
      ensures result >= 0 ==>
                && written + result <= |buf| && (written < |buf| ==> result > 0)
                && h.View() == After(was, buf[..written + result])
    {
      result := h.Write(buf[written..]);
      if result < 0 {
        err := -result;
      } else {
        AfterPart(was, buf, written, result);
      }
    }

    /** `safe_file_write`: repeats the write until the whole buffer is taken. */
    method Write(h: Descriptor, buf: seq<byte>) returns (ok: bool, ghost done: nat)
      requires h.Valid() && this !in h.DeviceRepr()
      modifies `err, h, h.file, h.DeviceRepr()
      ensures h.file.privateData == old(h.file.privateData) && h.Valid() && this !in h.DeviceRepr()
      ensures fresh(h.DeviceRepr() - old(h.DeviceRepr()))
      ensures done <= |buf| && h.View() == After(old(h.View()), buf[..done])
      ensures if ok then done == |buf| else err > 0 && !h.IsDevice()
      ensures h.failures == old(h.failures) + if ok then 0 else 1
    {
      ghost var was := h.View();
      var written := 0;
      var again := true;
      while again
        invariant h.file.privateData == old(h.file.privateData) && h.Valid() && this !in h.DeviceRepr()
        invariant fresh(h.DeviceRepr() - old(h.DeviceRepr()))
        invariant written <= |buf| && (if again then written == 0 || written < |buf| else written == |buf|)
        invariant h.View() == After(was, buf[..written]) && h.failures == old(h.failures)
        decreases again, |buf| - written
      {
        var result := WriteOnce(h, buf, written, was);
        if result < 0 {
          return false, written;
        }
        written := written + result;
        again := written < |buf|;
      }
      return true, written;
    }

    /** The critical section of `safe_file_seek_and_write`: a seek and a write of the whole buffer. */
    method SeekThenWrite(h: Descriptor, point: ReadPoint, buf: seq<byte>) returns (error: int, ghost done: nat)
      requires locked && h.Valid() && this !in h.DeviceRepr() && |h.Contents()| < TWO_63
      requires IsI64(point.offset) && (point.whence == SEEK_CUR ==> IsI64(h.file.fPos + point.offset))
      modifies `err, h, h.file, h.DeviceRepr()
      ensures h.file.privateData == old(h.file.privateData) && h.Valid() && this !in h.DeviceRepr()
      ensures fresh(h.DeviceRepr() - old(h.DeviceRepr()))
      ensures match SeekResult(h.IsDevice(), |old(h.Contents())|, old(h.file.fPos), point)
              case None => error > 0 && h.View() == old(h.View()) && h.failures == old(h.failures)
              case Some(pos) =>
                && error >= 0 && h.failures == old(h.failures) + (if error == SF_SUCCESS then 0 else 1)
                && done <= |buf| && h.View() == After(Sought(old(h.View()), pos), buf[..done])
                && (error == SF_SUCCESS ==> done == |buf|)
                && (h.IsDevice() ==> error == SF_SUCCESS)
    {
      done := 0;
      var position := Seek(h, point);
      if position < 0 {
        return err, done;
      }
      assert h.View() == Sought(old(h.View()), position);
      var ok;
      ok, done := Write(h, buf);
      error := if ok then SF_SUCCESS else err;
    }

    /** `safe_file_seek_and_write`. */
    method SeekAndWrite(point: ReadPoint, buf: seq<byte>) returns (error: int, ghost done: nat)
      requires !locked
      requires handle != null ==>
                 && handle.Valid() && this !in handle.DeviceRepr() && |handle.Contents()| < TWO_63
                 && IsI64(point.offset) && (point.whence == SEEK_CUR ==> IsI64(handle.file.fPos + point.offset))
      modifies `locked, `err, handle, if handle != null then {handle.file} + handle.DeviceRepr() else {}
      ensures !locked
      ensures handle == null ==> error == SF_INVALID_FILE_HANDLE_ERR
      ensures handle != null ==>
                && handle.file.privateData == old(handle.file.privateData)
                && handle.Valid() && this !in handle.DeviceRepr()
                && fresh(handle.DeviceRepr() - old(handle.DeviceRepr()))
                && match SeekResult(handle.IsDevice(), |old(handle.Contents())|, old(handle.file.fPos), point)
                   case None =>
                     error > 0 && handle.View() == old(handle.View()) && handle.failures == old(handle.failures)
                   case Some(pos) =>
                     && error >= 0
                     && handle.failures == old(handle.failures) + (if error == SF_SUCCESS then 0 else 1)
                     && done <= |buf|
                     && handle.View() == After(Sought(old(handle.View()), pos), buf[..done])
                     && (error == SF_SUCCESS ==> done == |buf|)
                     && (handle.IsDevice() ==> error == SF_SUCCESS)
    {
      if handle == null {
        err := SF_INVALID_FILE_HANDLE_ERR;
        return SF_INVALID_FILE_HANDLE_ERR, 0;
      }
      locked := true;
      error, done := SeekThenWrite(handle, point, buf);
      locked := false;
    }
  }
}

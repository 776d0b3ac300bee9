// The aesdchar device: line accumulation, reads and seeks on open files.
module CharDevice {
  import opened Bytes
  import opened Machine
  import opened CommandLog
  import opened FlatView
  import opened RingBuffer

  const SEEK_SET: int := 0
  const SEEK_CUR: int := 1
  const SEEK_END: int := 2

  class AesdDevice {
    const circularBuffer: CircularBuffer
    var cache: Option<seq<byte>>  // the line not yet finished; None for a null pointer

    ghost var written: seq<byte>  // every byte written since the module was loaded
    ghost var sections: seq<seq<byte>>  // the fragments of the critical sections that wrote them
    ghost var Repr: set<object>

    ghost predicate Owns()
      reads this, Repr
      ensures Owns() ==> this in Repr
    {
      && this in Repr
      && circularBuffer in Repr && circularBuffer.Repr <= Repr && this !in circularBuffer.Repr
      && circularBuffer.Valid()
    }

    ghost predicate Valid()
      reads this, Repr
      ensures Valid() ==> this in Repr
    {
      && Owns()
      && (cache.Some? ==> cache.value != [])
      && circularBuffer.adds == |Lines(written)|
      && State() == Observed(Capacity(), written)
    }

    ghost function Capacity(): nat
    {
      circularBuffer.entry.Length
    }

    ghost function CacheBytes(): seq<byte>
      reads this
    {
      if cache.None? then [] else cache.value
    }

    ghost function State(): DevState
      requires circularBuffer.outOffs <= |circularBuffer.slots|
      reads this, circularBuffer
    {
      DevState(circularBuffer.Commands(), CacheBytes())
    }

    ghost function Commands(): seq<seq<byte>>
      requires Valid()
      reads this, Repr
    {
      circularBuffer.Commands()
    }

    constructor (capacity: nat)
      requires 0 < capacity <= 255
      ensures Valid() && fresh(Repr)
      ensures Capacity() == capacity && written == [] && sections == []
    {
      circularBuffer := new CircularBuffer(capacity);
      cache := None;
      written, sections := [], [];
      new;
      Repr := {this} + circularBuffer.Repr;
    }

    /** Which slot holds which command depends on the stream alone. */
    lemma SlotsFollowStream()
      requires Valid()
      ensures Commands() == LastN(Lines(written), Capacity())
      ensures circularBuffer.slots == SlotsOf(Capacity(), written)
      ensures circularBuffer.outOffs == OldestSlot(|Lines(written)|, Capacity())
      ensures circularBuffer.outOffs == 0 ==> circularBuffer.slots == Commands()
    {
      UnrotateInverts(circularBuffer.slots, circularBuffer.outOffs);
    }

    /** Critical section of `add_to_cache`: extends the unfinished line. */
    method AddToCache(buf: seq<byte>, fPos: int) returns (fPos': int)
      requires Valid()
      requires buf != [] && NoNewline(buf)
      modifies this
      ensures Valid() && Repr == old(Repr)
      ensures State() == Commit(Capacity(), old(State()), buf)
      ensures written == old(written) + buf && sections == old(sections) + [buf]
      ensures fPos' == fPos + |buf|
    {
      cache := if cache.None? then Some(buf) else Some(cache.value + buf);
      CommitExtendsStream(Capacity(), written, buf);
      written, sections := written + buf, sections + [buf];
      fPos' := fPos + |buf|;
    }

    /** Critical section of `write_with_cache`: finishes a command and stores it. */
    method WriteWithCache(buf: seq<byte>, fPos: int) returns (fPos': int)
      requires Valid()
      requires IsCommand(buf)
      modifies Repr
      ensures Valid() && fresh(Repr - old(Repr))
      ensures State() == Commit(Capacity(), old(State()), buf)
      ensures written == old(written) + buf && sections == old(sections) + [buf]
      ensures fPos' == fPos + |old(CacheBytes())| + |buf|
    {
      CommitExtendsStream(Capacity(), written, buf);
      var line := if cache.None? then buf else cache.value + buf;
      assert line == CacheBytes() + buf;
      FinishLine(line);
      written, sections := written + buf, sections + [buf];
      fPos' := fPos + |line|;
    }

    /** Stores a finished line and empties the cache. */
    method FinishLine(line: seq<byte>)
      requires Owns()
      modifies Repr
      ensures Owns() && fresh(Repr - old(Repr))
      ensures State() == DevState(LastN(old(State()).cmds + [line], Capacity()), []) && cache == None
      ensures circularBuffer.adds == old(circularBuffer.adds) + 1
      ensures written == old(written) && sections == old(sections)
    {
      circularBuffer.AddEntry(line);
      cache := None;
      Repr := Repr + circularBuffer.Repr;
    }

    /** Critical section of `aesd_adjust_file_offset`. */
    method PositionOf(writeCmd: nat, writeCmdOffset: nat) returns (target: Option<nat>)
      requires Valid()
      ensures target == SeekPos(SlotsOf(Capacity(), written), writeCmd, writeCmdOffset)
      ensures target.Some? ==> target.value < Total(Commands())
      ensures circularBuffer.outOffs == 0 ==> target == SeekPos(Commands(), writeCmd, writeCmdOffset)
    {
      SlotsFollowStream();
      target := circularBuffer.AdjustOffset(writeCmd, writeCmdOffset);
      if target.Some? {
        SeekIsInside(circularBuffer.slots, circularBuffer.outOffs, writeCmd, writeCmdOffset);
      }
    }

    /** The scan of `buf` stands at `current`: the first `begin` bytes have been written in critical
        sections for `pieces`, and there is no newline since. */
    ghost predicate Progress(buf: seq<byte>, begin: nat, current: nat, pieces: seq<seq<byte>>, was: Before)
      reads this
    {
      && begin <= current <= |buf|
      && IsCutInto(buf[..begin], pieces)
      && NoNewline(buf[begin..current])
      && written == was.written + buf[..begin]
      && sections == was.sections + pieces
      && |CacheBytes()| == (if begin == 0 then was.cached else 0)
      && (begin > 0 ==> buf[begin - 1] == NEWLINE)
    }

    /** `aesd_write` meets a newline at `current`. */
    method WriteLine(buf: seq<byte>, begin: nat, current: nat, fPos: int,
                     ghost pieces: seq<seq<byte>>, ghost was: Before)
      returns (fPos': int, ghost pieces': seq<seq<byte>>)
      requires Valid() && Progress(buf, begin, current, pieces, was)
      requires current < |buf| && buf[current] == NEWLINE
      modifies Repr
      ensures Valid() && fresh(Repr - old(Repr))
      ensures Progress(buf, current + 1, current + 1, pieces', was)
      ensures fPos' == fPos + current + 1 - begin + if begin == 0 then was.cached else 0
    {
      IsLine(was.written, buf, begin, current, pieces);
      AppendAssociates(was.sections, pieces, [buf[begin..current + 1]]);
      fPos' := WriteWithCache(buf[begin..current + 1], fPos);
      pieces' := pieces + [buf[begin..current + 1]];
    }

    /** No newline at `current`. */
    lemma ScansOn(buf: seq<byte>, begin: nat, current: nat, pieces: seq<seq<byte>>, was: Before)
      requires Progress(buf, begin, current, pieces, was)
      requires current < |buf| && buf[current] != NEWLINE
      ensures Progress(buf, begin, current + 1, pieces, was)
    {
      assert buf[begin..current + 1] == buf[begin..current] + [buf[current]];
    }

    /** Bytes by which the position has moved when the first `begin` bytes are written. */
    static function Moved(begin: nat, cached: nat): nat {
      if begin == 0 then 0 else begin + cached
    }

    /** One iteration of the loop of `aesd_write`. */
    method ScanByte(buf: seq<byte>, begin: nat, current: nat, fPos: int,
                    ghost pieces: seq<seq<byte>>, ghost was: Before)
      returns (begin': nat, fPos': int, ghost pieces': seq<seq<byte>>)
      requires Valid() && Progress(buf, begin, current, pieces, was) && current < |buf|
      modifies Repr
      ensures Valid() && fresh(Repr - old(Repr))
      ensures Progress(buf, begin', current + 1, pieces', was)
      ensures fPos' - Moved(begin', was.cached) == fPos - Moved(begin, was.cached)
    {
      begin', fPos', pieces' := begin, fPos, pieces;
      if buf[current] == NEWLINE {
        fPos', pieces' := WriteLine(buf, begin, current, fPos, pieces, was);
        begin' := current + 1;
      } else {
        ScansOn(buf, begin, current, pieces, was);
      }
    }

    /** A write of a buffer: its fragments, in order, one critical section each. */
    method WriteFragments(buf: seq<byte>, fPos: int) returns (fPos': int)
      requires Valid()
      modifies Repr
      ensures Valid() && fresh(Repr - old(Repr))
      ensures sections == old(sections) + Fragments(buf)
      ensures State() == CommitAll(Capacity(), old(State()), Fragments(buf))
      ensures written == old(written) + buf
      ensures fPos' == fPos + |buf| + if NEWLINE in buf then |old(CacheBytes())| else 0
    {
      WriteIsSequential(Capacity(), written, buf);
      ghost var was, pieces := Before(written, sections, |CacheBytes()|), [];
      var begin;
      begin, fPos', pieces := WriteLines(buf, fPos, was);
      fPos' := WriteRest(buf, begin, fPos', pieces, was);
    }

    /** The loop of `aesd_write`: cuts the buffer after each newline. */
    method WriteLines(buf: seq<byte>, fPos: int, ghost was: Before)
      returns (begin: nat, fPos': int, ghost pieces: seq<seq<byte>>)
      requires Valid() && Progress(buf, 0, 0, [], was)
      modifies Repr
      ensures Valid() && fresh(Repr - old(Repr))
      ensures Progress(buf, begin, |buf|, pieces, was)
      ensures fPos' == fPos + Moved(begin, was.cached)
    {
      begin, fPos', pieces := 0, fPos, [];
      var current := 0;
      while current != |buf|
        invariant Valid() && fresh(Repr - old(Repr))
        invariant Progress(buf, begin, current, pieces, was)
        invariant fPos' == fPos + Moved(begin, was.cached)
      {
        begin, fPos', pieces := ScanByte(buf, begin, current, fPos', pieces, was);
        current := current + 1;
      }
    }

    /** After the loop: what follows the last newline, if anything, goes to the cache. */
    method WriteRest(buf: seq<byte>, begin: nat, fPos: int, ghost pieces: seq<seq<byte>>, ghost was: Before)
      returns (fPos': int)
      requires Valid() && Progress(buf, begin, |buf|, pieces, was)
      modifies this
      ensures Valid() && Repr == old(Repr)
      ensures sections == was.sections + Fragments(buf) && written == was.written + buf
      ensures NEWLINE in buf <==> begin > 0
      ensures fPos' == fPos + |buf| - begin
    {
      assert buf[begin..|buf|] == buf[begin..];
      fPos' := fPos;
      IsRest(was.written, buf, begin, pieces);
      if begin != |buf| {
        AppendAssociates(was.sections, pieces, [buf[begin..]]);
        fPos' := AddToCache(buf[begin..], fPos);
      }
    }
  }

  /** The device as a write finds it. */
  datatype Before = Before(written: seq<byte>, sections: seq<seq<byte>>, cached: nat)

  /** A write is its critical sections, one after the other. */
  lemma WriteIsSequential(n: nat, was: seq<byte>, buf: seq<byte>)
    ensures CommitAll(n, Observed(n, was), Fragments(buf)) == Observed(n, was + buf)
  {
    FragmentsCover(buf);
    CommitAllExtendsStream(n, was, Fragments(buf));
  }

  /** The slots of a ring of capacity `n` after the byte stream `stream`. */
  function SlotsOf(n: nat, stream: seq<byte>): seq<seq<byte>>
    requires n > 0
  {
    Unrotate(LastN(Lines(stream), n), OldestSlot(|Lines(stream)|, n))
  }

  /** Of the last `n` commands of the stream, number `j` lies in slot `j % n`. */
  lemma SlotsHoldByNumber(n: nat, stream: seq<byte>, j: nat)
    requires n > 0 && |Lines(stream)| - n <= j < |Lines(stream)|
    ensures |SlotsOf(n, stream)| == Min(|Lines(stream)|, n)
    ensures j % n < |SlotsOf(n, stream)| && SlotsOf(n, stream)[j % n] == Lines(stream)[j]
  {
    var m := |Lines(stream)|;
    var out, k := OldestSlot(m, n), if m <= n then j else j - (m - n);
    var slots := SlotsOf(n, stream);
    SlotOfCommand(m, n, j);
    RotateAt(slots, out, k);
    RotateInverts(LastN(Lines(stream), n), out);
  }

  /** The scan has met a newline at `current`, the first since `begin`. */
  lemma IsLine(was: seq<byte>, buf: seq<byte>, begin: nat, current: nat, pieces: seq<seq<byte>>)
    requires begin <= current < |buf| && NoNewline(buf[begin..current]) && buf[current] == NEWLINE
    requires IsCutInto(buf[..begin], pieces)
    ensures IsCommand(buf[begin..current + 1])
    ensures was + buf[..begin] + buf[begin..current + 1] == was + buf[..current + 1]
    ensures IsCutInto(buf[..current + 1], pieces + [buf[begin..current + 1]])
  {
    var line := buf[begin..current + 1];
    assert line[..|line| - 1] == buf[begin..current];
    assert buf[..begin] + line == buf[..current + 1];
    CutGrows(buf[..begin], line, pieces);
    AppendAssociates(was, buf[..begin], line);
  }

  /** The scan has reached the end of the buffer; `begin` follows the last newline. */
  lemma IsRest(was: seq<byte>, buf: seq<byte>, begin: nat, pieces: seq<seq<byte>>)
    requires begin <= |buf| && NoNewline(buf[begin..])
    requires begin > 0 ==> buf[begin - 1] == NEWLINE
    requires IsCutInto(buf[..begin], pieces)
    ensures was + buf[..begin] + buf[begin..] == was + buf
    ensures NEWLINE in buf <==> begin > 0
    ensures Fragments(buf) == if begin == |buf| then pieces else pieces + [buf[begin..]]
    ensures begin == |buf| ==> was + buf[..begin] == was + buf
  {
    assert buf[..begin] + buf[begin..] == buf;
    forall i | begin <= i < |buf| ensures buf[i] != NEWLINE {
      assert buf[begin..][i - begin] != NEWLINE;
    }
    FragmentsEnd(buf[..begin], buf[begin..], pieces);
    AppendAssociates(was, buf[..begin], buf[begin..]);
  }

  class OpenFile {
    var privateData: AesdDevice?
    var fPos: int

    constructor (device: AesdDevice)
      ensures privateData == device && fPos == 0
    {
      privateData, fPos := device, 0;
    }

    ghost predicate Valid()
      reads this`privateData, privateData, if privateData != null then privateData.Repr else {}
    {
      privateData != null ==> privateData.Valid() && this !in privateData.Repr
    }

    ghost function Commands(): seq<seq<byte>>
      requires privateData != null && privateData.Valid()
      reads this`privateData, privateData, if privateData != null then privateData.Repr else {}
    {
      privateData.Commands()
    }

    /** `aesd_write`: cuts the buffer after each newline and hands the pieces to the device. */
    method Write(buf: seq<byte>) returns (ret: int)
      requires Valid()
      modifies this, if privateData != null then privateData.Repr else {}
      ensures privateData == old(privateData) && Valid()
      ensures buf != [] && privateData == null ==> ret == -ENODEV
      ensures buf == [] ==> ret == 0
      ensures privateData != null ==>
                && fresh(privateData.Repr - old(privateData.Repr))
                && ret == I64(|buf|)
                && privateData.written == old(privateData.written) + buf
                && privateData.sections == old(privateData.sections) + Fragments(buf)
                && fPos == old(fPos) + |buf| + if NEWLINE in buf then |old(privateData.CacheBytes())| else 0
    {
      if |buf| == 0 {
        assert Fragments(buf) == [];
        return 0;
      }
      if privateData == null {
        return -ENODEV;
      }
      fPos := privateData.WriteFragments(buf, fPos);
      return I64(|buf|);
    }

    /** `aesd_read`: up to `count` bytes of the command that holds the file position. */
    method Read(count: nat) returns (ret: int, out: seq<byte>)
      requires Valid()
      modifies `fPos
      ensures privateData == null ==> ret == -ENODEV && out == [] && fPos == old(fPos)
      ensures privateData != null ==>
                && out == DriverRead(Commands(), U64(old(fPos)), count)
                && ret == I32(|out|)
                && fPos == old(fPos) + |out|
    {
      if privateData == null {
        return -ENODEV, [];
      }
      out := privateData.circularBuffer.CopyOut(U64(fPos), count);
      fPos := fPos + |out|;
      return I32(|out|), out;
    }

    /** `aesd_llseek`, with the mixed signed and unsigned comparisons of the source. */
    method LLSeek(offset: int, whence: int) returns (ret: int)
      requires Valid() && privateData != null
      requires |Flat(Commands())| < TWO_63 && IsI64(offset)
      requires whence == SEEK_CUR ==> IsI64(fPos + offset)
      modifies `fPos
      ensures ret == -EINVAL || ret == fPos
      ensures ret == -EINVAL ==> fPos == old(fPos)
      ensures whence == SEEK_SET ==> ret == if 0 <= offset <= |Flat(Commands())| then offset else -EINVAL
      ensures whence == SEEK_CUR ==>
                ret == if 0 <= old(fPos) + offset <= |Flat(Commands())| then old(fPos) + offset else -EINVAL
      ensures whence == SEEK_END ==>
                ret == if -|Flat(Commands())| <= offset <= 0 then |Flat(Commands())| + offset else -EINVAL
      ensures whence !in {SEEK_SET, SEEK_CUR, SEEK_END} ==> ret == -EINVAL
    {
      TotalIsFlatLength(Commands());
      var total := privateData.circularBuffer.TotalSize();
      InRange(Total(Commands()));
      var newpos := NewPosition(total, fPos, offset, whence);
      if newpos < 0 {
        return -EINVAL;
      }
      fPos := newpos;
      return newpos;
    }

    /** `aesd_adjust_file_offset`: seeks to a byte of the command in a physical slot. */
    method AdjustFileOffset(writeCmd: nat, writeCmdOffset: nat) returns (error: int)
      requires Valid() && privateData != null
      requires writeCmd < TWO_32 && writeCmdOffset < TWO_32
      modifies `fPos
      ensures match SeekPos(SlotsOf(privateData.Capacity(), privateData.written), writeCmd, writeCmdOffset)
              case Some(pos) => error == 0 && fPos == pos
              case None => error == -EINVAL && fPos == old(fPos)
      ensures error == 0 ==> fPos < Total(Commands())
      ensures privateData.circularBuffer.outOffs == 0 ==>
                match SeekPos(Commands(), writeCmd, writeCmdOffset)
                case Some(pos) => error == 0 && fPos == pos
                case None => error == -EINVAL && fPos == old(fPos)
    {
      var target := privateData.PositionOf(writeCmd, writeCmdOffset);
      if target.None? {
        return -EINVAL;
      }
      fPos := target.value;
      return 0;
    }

    /** `aesd_ioctl` with the seek command. */
    method Ioctl(writeCmd: nat, writeCmdOffset: nat) returns (retval: int)
      requires Valid() && privateData != null
      requires writeCmd < TWO_32 && writeCmdOffset < TWO_32
      modifies `fPos
      ensures var slots := SlotsOf(privateData.Capacity(), privateData.written);
              if writeCmd < |slots| && writeCmdOffset < |slots[writeCmd]|
              then retval == 0 && fPos == |Flat(slots[..writeCmd])| + writeCmdOffset < |Flat(Commands())|
              else retval == -EINVAL && fPos == old(fPos)
    {
      TotalIsFlatLength(Commands());
      SeekPosMeans(SlotsOf(privateData.Capacity(), privateData.written), writeCmd, writeCmdOffset);
      retval := AdjustFileOffset(writeCmd, writeCmdOffset);
    }
  }

  /** A seek that succeeds stays within the contents. */
  lemma SeekIsInside(slots: seq<seq<byte>>, out: nat, k: nat, d: nat)
    requires out <= |slots| && SeekPos(slots, k, d).Some?
    ensures SeekPos(slots, k, d).value < Total(Rotate(slots, out))
  {
    StartMonotone(slots, k, |slots|);
    RotationKeepsTotal(slots, out);
  }

  /** The switch of `aesd_llseek`: the comparisons with `total` are unsigned. */
  method NewPosition(total: nat, fPos: int, offset: int, whence: int) returns (newpos: int)
    requires total < TWO_63 && IsI64(offset) && (whence == SEEK_CUR ==> IsI64(fPos + offset))
    ensures whence == SEEK_SET ==> newpos == if 0 <= offset <= total then offset else -EINVAL
    ensures whence == SEEK_CUR ==> newpos == if 0 <= fPos + offset <= total then fPos + offset else -EINVAL
    ensures whence == SEEK_END ==> newpos == if 0 <= total + offset <= total then total + offset else -EINVAL
    ensures whence !in {SEEK_SET, SEEK_CUR, SEEK_END} ==> newpos == -EINVAL
  {
    if whence == SEEK_SET {
      UnsignedAbove(offset, total);
      newpos := if U64(offset) > total then -EINVAL else offset;
    } else if whence == SEEK_CUR {
      UnsignedAbove(fPos + offset, total);
      newpos := if U64(fPos + offset) > total then -EINVAL else fPos + offset;
    } else if whence == SEEK_END {
      WrappedEnd(total, offset);
      newpos := I64(if U64(total + offset) > total then U64(-EINVAL) else U64(total + offset));
    } else {
      newpos := -EINVAL;
    }
  }

  /** An unsigned comparison rejects what lies outside [0, total], on either side. */
  lemma UnsignedAbove(target: int, total: nat)
    requires IsI64(target) && total < TWO_63
    ensures U64(target) > total <==> !(0 <= target <= total)
  {
  }

  /** The same for a sum that wraps around before it is compared. */
  lemma WrappedEnd(total: nat, offset: int)
    requires IsI64(offset) && total < TWO_63
    ensures I64(if U64(total + offset) > total then U64(-EINVAL) else U64(total + offset))
         == if 0 <= total + offset <= total then total + offset else -EINVAL
  {
  }

  /** `aesd_init_module`: the device as the module loads it. */
  method InitModule() returns (device: AesdDevice)
    ensures device.Valid() && fresh(device.Repr)
    ensures device.Capacity() == MAX_WRITE_OPERATIONS && device.written == []
  {
    device := new AesdDevice(MAX_WRITE_OPERATIONS);
  }

  /** A command number is read as a slot number. That is right for all numbers and offsets exactly
      when the sizes of the slots do not change under the ring's rotation. */
  lemma SeekRightIffSizes(slots: seq<seq<byte>>, out: nat)
    requires out <= |slots|
    requires forall i :: 0 <= i < |slots| ==> |slots[i]| <= TWO_32
    ensures (forall k: nat, d: nat :: d < TWO_32 ==> SeekPos(slots, k, d) == SeekPos(Rotate(slots, out), k, d))
       <==> (forall i :: 0 <= i < |slots| ==> |slots[i]| == |Rotate(slots, out)[i]|)
  {
    forall i | 0 <= i < |slots| ensures |Rotate(slots, out)[i]| <= TWO_32 {
      RotateAt(slots, out, i);
    }
    SeeksAgreeIff(slots, Rotate(slots, out));
  }

  /** After the bytes `stream`, seeks are right for all command numbers and offsets exactly when the
      ring has not wrapped, or the sizes of its commands stay the same when rotated by `m % n`. */
  lemma SeekRightIff(n: nat, stream: seq<byte>)
    requires n > 0
    requires forall i :: 0 <= i < |LastN(Lines(stream), n)| ==> |LastN(Lines(stream), n)[i]| <= TWO_32
    ensures var m, cmds := |Lines(stream)|, LastN(Lines(stream), n);
            ((forall k: nat, d: nat :: d < TWO_32 ==> SeekPos(SlotsOf(n, stream), k, d) == SeekPos(cmds, k, d))
             <==> (m <= n || forall i :: 0 <= i < n ==> |Unrotate(cmds, m % n)[i]| == |cmds[i]|))
  {
    var m, cmds := |Lines(stream)|, LastN(Lines(stream), n);
    var out, slots := OldestSlot(m, n), SlotsOf(n, stream);
    SlotNumberIsModulo(m, n);
    RotateInverts(cmds, out);
    forall i | 0 <= i < |slots| ensures |slots[i]| <= TWO_32 {
      assert slots[i] in cmds;
    }
    SeekRightIffSizes(slots, out);
  }

  const SHORT_LINE: seq<byte> := [97, NEWLINE]
  const LONG_LINE: seq<byte> := [98, 98, NEWLINE]

  function ShortLines(n: nat): seq<seq<byte>> {
    seq(n, _ => SHORT_LINE)
  }

  /** One line more than a ring of `n` slots holds: short ones, and a long one last. */
  function WrappingStream(n: nat): seq<byte> {
    Flat(ShortLines(n)) + LONG_LINE
  }

  lemma ShortLinesGrow(n: nat)
    ensures Flat(ShortLines(n + 1)) == Flat(ShortLines(n)) + SHORT_LINE
  {
    FlatSnoc(ShortLines(n), SHORT_LINE);
    assert ShortLines(n + 1) == ShortLines(n) + [SHORT_LINE];
  }

  lemma WrappingLines(n: nat)
    ensures Lines(WrappingStream(n)) == ShortLines(n) + [LONG_LINE]
  {
    FlatSnoc(ShortLines(n), LONG_LINE);
    CutCharacterised(WrappingStream(n), ShortLines(n) + [LONG_LINE], []);
  }

  /** The long line is the newest command, and lies in slot 0. */
  lemma WrappedSlots(n: nat)
    requires n >= 2
    ensures LastN(Lines(WrappingStream(n)), n) == ShortLines(n - 1) + [LONG_LINE]
    ensures SlotsOf(n, WrappingStream(n)) == [LONG_LINE] + ShortLines(n - 1)
  {
    WrappingLines(n);
    NextSlot(n, n);
    assert SlotNumber(n + 1, n) == 1;
    assert (ShortLines(n) + [LONG_LINE])[1..] == ShortLines(n - 1) + [LONG_LINE];
  }

  /** The seek goes wrong on every ring with two slots or more: after the lines above, byte 2 of the
      newest command is refused, byte 2 of the oldest, which has no such byte, is found, and byte 0
      of command 1 is sought one byte too late. */
  lemma WrappedSeekGoesWrong(n: nat)
    requires n >= 2
    ensures var slots, cmds := SlotsOf(n, WrappingStream(n)), LastN(Lines(WrappingStream(n)), n);
            && SeekPos(cmds, n - 1, 2).Some? && SeekPos(slots, n - 1, 2) == None
            && SeekPos(cmds, 0, 2) == None && SeekPos(slots, 0, 2) == Some(2)
            && SeekPos(cmds, 1, 0) == Some(2) && SeekPos(slots, 1, 0) == Some(3)
  {
    WrappedSlots(n);
    var slots, cmds := [LONG_LINE] + ShortLines(n - 1), ShortLines(n - 1) + [LONG_LINE];
    assert slots[0] == LONG_LINE && slots[n - 1] == SHORT_LINE;
    assert cmds[0] == SHORT_LINE && cmds[n - 1] == LONG_LINE;
    assert Start(slots, 1) == Start(slots, 0) + |slots[0]| && Start(cmds, 1) == Start(cmds, 0) + |cmds[0]|;
  }

  /** Fills the ring of a device that was written nothing before with short lines. */
  method WriteShortLines(file: OpenFile)
    requires file.privateData != null && file.Valid() && file.privateData.written == []
    modifies file, file.privateData.Repr
    ensures file.privateData == old(file.privateData) && file.Valid()
    ensures fresh(file.privateData.Repr - old(file.privateData.Repr))
    ensures file.privateData.written == Flat(ShortLines(file.privateData.Capacity()))
  {
    ghost var device := file.privateData;
    var i := 0;
    while i < file.privateData.circularBuffer.entry.Length
      invariant i <= device.Capacity() && file.privateData == device && file.Valid()
      invariant fresh(device.Repr - old(device.Repr))
      invariant device.written == Flat(ShortLines(i))
    {
      ShortLinesGrow(i);
      var ret := file.Write(SHORT_LINE);
      i := i + 1;
    }
  }

  /** Writes the lines above to such a device. */
  method WriteWrappingStream(file: OpenFile)
    requires file.privateData != null && file.Valid() && file.privateData.written == []
    modifies file, file.privateData.Repr
    ensures file.privateData == old(file.privateData) && file.Valid()
    ensures file.privateData.written == WrappingStream(file.privateData.Capacity())
  {
    WriteShortLines(file);
    var ret := file.Write(LONG_LINE);
  }

  lemma WrappedDevice(device: AesdDevice)
    requires device.Valid() && device.Capacity() >= 2
    requires device.written == WrappingStream(device.Capacity())
    ensures SeekPos(device.Commands(), device.Capacity() - 1, 2).Some?
    ensures SeekPos(SlotsOf(device.Capacity(), device.written), device.Capacity() - 1, 2) == None
  {
    device.SlotsFollowStream();
    WrappedSeekGoesWrong(device.Capacity());
  }

  /** After that the file refuses the seek to byte 2 of the newest command, which has three bytes. */
  method SeekOnWrappedRing(file: OpenFile) returns (error: int)
    requires file.privateData != null && file.Valid() && file.privateData.Capacity() >= 2
    requires file.privateData.written == WrappingStream(file.privateData.Capacity())
    modifies file`fPos
    ensures SeekPos(old(file.Commands()), file.privateData.Capacity() - 1, 2).Some?
    ensures error == -EINVAL && file.fPos == old(file.fPos)
  {
    WrappedDevice(file.privateData);
    error := file.Ioctl(file.privateData.circularBuffer.entry.Length - 1, 2);
  }
}

// What a worker thread does for its client: log the packet, send the log back.
module ClientHandler {
  import opened Bytes
  import opened Machine
  import opened CommandLog
  import opened CharDevice
  import opened LockedFile

  const CLIENT_BUFFER_SIZE: nat := 256

  datatype ClientStatus =
    | UnknownStatus
    | Success
    | SocketError
    | WriteError
    | ReadFileError
    | SendError
    | InProgress

  predicate IsProcessed(status: ClientStatus) {
    !status.UnknownStatus? && !status.InProgress?
  }

  const END_OF_FILE := ReadPoint(SEEK_END, 0)

  const REST_OF_FILE := ReadRange(ReadPoint(SEEK_CUR, 0), END_OF_FILE)

  /** A descriptor that `sf` serves and `sink` does not touch, within the sizes reads can handle. */
  ghost predicate Ready(sf: SafeFile, h: Descriptor, sink: ReplySink)
    reads h`data, h.file, h.file.privateData, h.DeviceRepr()
  {
    && h.Valid() && sf.Serves(h, h.Contents(), sink) && |h.Contents()| < TWO_61
  }

  /** The packet leaves the file within those sizes. */
  ghost predicate HasRoom(h: Descriptor, packet: seq<byte>)
    requires h.Valid()
    reads h`data, h.file, h.file.privateData, h.DeviceRepr()
  {
    if h.file.privateData != null then
      |h.Contents()| + |h.file.privateData.CacheBytes()| + |packet| <= INT_MAX
    else |h.data| + |packet| < TWO_61
  }

  /** Appending the packet as a write does. */
  function Logged(v: FileView, size: nat, packet: seq<byte>): FileView {
    if packet == [] then v else After(Sought(v, size), packet)
  }

  /** The callback has been called since it had answered `was`, and never failed. */
  ghost predicate NoneRefused(was: seq<bool>, now: seq<bool>) {
    was <= now && forall i :: |was| <= i < |now| ==> now[i]
  }

  /** First half of `handle_client`: appends a non-empty packet to the file. */
  method LogPacket(sf: SafeFile, h: Descriptor, packet: seq<byte>, ghost sink: ReplySink) returns (ok: bool)
    requires sf.handle == h && !sf.locked && Ready(sf, h, sink)
    requires |packet| <= CLIENT_BUFFER_SIZE && HasRoom(h, packet)
    modifies sf`locked, sf`err, h, h.file, h.DeviceRepr()
    ensures !sf.locked && h.file.privateData == old(h.file.privateData) && h.Valid()
    ensures fresh(h.DeviceRepr() - old(h.DeviceRepr()))
    ensures ok ==> Ready(sf, h, sink) && h.View() == Logged(old(h.View()), |old(h.Contents())|, packet)
    ensures !ok ==> old(h.data) <= h.data <= old(h.data) + packet
    ensures h.failures == old(h.failures) + if ok then 0 else 1
    ensures h.IsDevice() ==> ok
  {
    if |packet| == 0 {
      return true;
    }
    ghost var device := h.file.privateData;
    ghost var was := if device != null then device.written else [];
    var error;
    ghost var done;
    error, done := sf.SeekAndWrite(END_OF_FILE, packet);
    ok := error == SF_SUCCESS;
    if !ok {
      OverwriteAtEnd(old(h.data), packet[..done]);
    }
    if ok {
      assert packet[..done] == packet;
      if device != null {
        StoredBytesBounded(device.Capacity(), was, packet);
      } else {
        OverwriteAtEnd(old(h.data), packet);
      }
    }
  }

  /** Second half of `handle_client`: sends the whole file to the client. */
  method SendLog(sf: SafeFile, h: Descriptor, sink: ReplySink) returns (ok: bool, ghost reply: seq<byte>)
    requires sf.handle == h && !sf.locked && Ready(sf, h, sink)
    modifies sf`locked, sf`err, h, h.file, sink
    ensures !sf.locked && h.file.privateData == old(h.file.privateData) && Ready(sf, h, sink)
    ensures h.data == old(h.data)
    ensures ok ==> reply == h.Contents() && h.file.fPos == |h.Contents()|
    ensures old(sink.chunks) <= sink.chunks && reply == Flat(sink.chunks[|old(sink.chunks)|..]) <= h.Contents()
    ensures forall i :: |old(sink.chunks)| <= i < |sink.chunks| ==> |sink.chunks[i]| <= CLIENT_BUFFER_SIZE
    ensures ok <==> h.failures == old(h.failures) && NoneRefused(old(sink.answers), sink.answers)
    ensures h.failures >= old(h.failures)
    ensures h.IsDevice() ==> h.failures == old(h.failures)
    ensures h.IsDevice() && sink.reliable ==> ok
  {
    var error;
    ghost var got;
    ghost var flat := h.Contents();
    error, got := sf.ReadRange(WHOLE_FILE, CLIENT_BUFFER_SIZE, sink, flat);
    assert sink.chunks[|old(sink.chunks)|..] == got;
    ok, reply := error == SF_SUCCESS, Flat(got);
  }

  /** `handle_client` on what `recv` returned (None for an error), for a packet that is no seek command.
      A successful reply is the whole log, this packet included; over the device that is its last
      finished commands. */
  method HandleClient(sf: SafeFile, h: Descriptor, received: Option<seq<byte>>, sink: ReplySink)
    returns (status: ClientStatus, ghost reply: seq<byte>)
    requires sf.handle == h && !sf.locked && Ready(sf, h, sink)
    requires received.Some? ==> |received.value| <= CLIENT_BUFFER_SIZE && HasRoom(h, received.value)
    modifies sf`locked, sf`err, h, h.file, h.DeviceRepr(), sink
    ensures !sf.locked && IsProcessed(status) && status != SendError
    ensures received.None? <==> status == SocketError
    ensures h.file.privateData == old(h.file.privateData) && h.Valid()
    ensures old(sink.chunks) <= sink.chunks
    ensures status == Success ==>
              && reply == Flat(sink.chunks[|old(sink.chunks)|..]) == h.Contents()
              && (h.IsDevice() ==>
                    && h.file.privateData.written == old(h.View()).written + received.value
                    && reply == Flat(Observed(h.file.privateData.Capacity(), h.file.privateData.written).cmds))
              && (!h.IsDevice() ==>
                    && reply == h.data == old(h.data) + received.value
                    && h.file.fPos == |h.data|)
    ensures status == WriteError || status == SocketError ==> sink.chunks == old(sink.chunks)
    ensures status == WriteError ==> old(h.data) <= h.data <= old(h.data) + received.value
    ensures status == ReadFileError ==>
              && Flat(sink.chunks[|old(sink.chunks)|..]) <= h.Contents()
              && (!h.IsDevice() ==> h.data == old(h.data) + received.value)
    ensures forall i :: |old(sink.chunks)| <= i < |sink.chunks| ==> |sink.chunks[i]| <= CLIENT_BUFFER_SIZE
    ensures status == Success <==>
              received.Some? && h.failures == old(h.failures) && NoneRefused(old(sink.answers), sink.answers)
    ensures received.Some? && h.IsDevice() && sink.reliable ==> status == Success
  {
    reply := [];
    if received.None? {
      return SocketError, reply;
    }
    var packet := received.value;
    AppendAtEnd(h.View(), |h.Contents()|, packet);
    var ok := LogPacket(sf, h, packet, sink);
    if !ok {
      return WriteError, reply;
    }
    ok, reply := SendLog(sf, h, sink);
    return if ok then Success else ReadFileError, reply;
  }

  /** The rest of the device's contents can be read exactly from an offset within them. */
  lemma RestResolves(size: nat, fPos: nat)
    ensures Resolve(true, size, fPos, REST_OF_FILE) == if fPos <= size then Some((fPos, size)) else None
  {
  }

  /** Sends the rest of the device's contents, from its offset on. */
  method SendRest(sf: SafeFile, h: Descriptor, sink: ReplySink, ghost flat: seq<byte>)
    returns (ok: bool, ghost reply: seq<byte>)
    requires sf.handle == h && !sf.locked && sf.Serves(h, flat, sink) && h.IsDevice() && h.file.fPos < TWO_61
    modifies sf`locked, sf`err, h, h.file, sink
    ensures !sf.locked && h.file.privateData == old(h.file.privateData) && h.Valid()
    ensures exists got :: sink.chunks == old(sink.chunks) + got && reply == Flat(got)
    ensures ok ==> old(h.file.fPos) <= |flat| && reply == flat[old(h.file.fPos)..]
    ensures old(h.file.fPos) > |flat| ==> !ok && reply == []
    ensures ok <==> old(h.file.fPos) <= |flat| && NoneRefused(old(sink.answers), sink.answers)
    ensures old(h.file.fPos) <= |flat| && sink.reliable ==> ok
  {
    RestResolves(|flat|, h.file.fPos);
    var error;
    ghost var got;
    error, got := sf.ReadRange(REST_OF_FILE, CLIENT_BUFFER_SIZE, sink, flat);
    ok, reply := error == SF_SUCCESS, Flat(got);
  }

  /** `handle_client` on a seek command, no other thread between its ioctl and its read: the reply is the
      log from the byte sought on, and an ioctl that fails only leaves the offset where it was. */
  method HandleSeekCommand(sf: SafeFile, h: Descriptor, writeCmd: nat, writeCmdOffset: nat, sink: ReplySink)
    returns (status: ClientStatus, ghost reply: seq<byte>)
    requires sf.handle == h && !sf.locked && Ready(sf, h, sink) && h.file.privateData != null && h.file.fPos < TWO_61
    requires writeCmd < TWO_32 && writeCmdOffset < TWO_32
    modifies sf`locked, sf`err, h, h.file, sink
    ensures !sf.locked && h.file.privateData == old(h.file.privateData) && h.Valid()
    ensures exists got :: sink.chunks == old(sink.chunks) + got && reply == Flat(got)
    ensures var flat, slots := old(h.Contents()), old(Slots(h));
            var from := if writeCmd < |slots| && writeCmdOffset < |slots[writeCmd]|
                        then |Flat(slots[..writeCmd])| + writeCmdOffset
                        else old(h.file.fPos);
            && (status == Success <==> from <= |flat| && NoneRefused(old(sink.answers), sink.answers))
            && (status == Success ==> reply == flat[from..])
            && (from > |flat| ==> reply == [])
            && (from <= |flat| && sink.reliable ==> status == Success)
    ensures var lines := Lines(old(h.file.privateData.written));
            status == Success && |lines| <= h.file.privateData.Capacity()
            && writeCmd < |lines| && writeCmdOffset < |lines[writeCmd]| ==>
              reply == lines[writeCmd][writeCmdOffset..] + Flat(lines[writeCmd + 1..])
    ensures status == Success || status == ReadFileError
  {
    ghost var rest := RestInOrder(h, writeCmd, writeCmdOffset);
    status, reply := SeekAndSend(sf, h, writeCmd, writeCmdOffset, sink, h.Contents(), Slots(h), rest);
  }

  /** The ioctl, whose error is only logged, and the read, from the offset `from`. */
  method SeekAndSend(sf: SafeFile, h: Descriptor, writeCmd: nat, writeCmdOffset: nat, sink: ReplySink,
                     ghost flat: seq<byte>, ghost slots: seq<seq<byte>>, ghost rest: Option<seq<byte>>)
    returns (status: ClientStatus, ghost reply: seq<byte>)
    requires sf.handle == h && !sf.locked && sf.Serves(h, flat, sink)
    requires h.file.privateData != null && h.file.fPos < TWO_61 && slots == Slots(h)
    requires writeCmd < TWO_32 && writeCmdOffset < TWO_32
    requires rest.Some? ==> IsRestFrom(flat, slots, writeCmd, writeCmdOffset, rest.value)
    modifies sf`locked, sf`err, h, h.file, sink
    ensures !sf.locked && h.file.privateData == old(h.file.privateData) && h.Valid()
    ensures exists got :: sink.chunks == old(sink.chunks) + got && reply == Flat(got)
    ensures var from := if writeCmd < |slots| && writeCmdOffset < |slots[writeCmd]|
                        then |Flat(slots[..writeCmd])| + writeCmdOffset
                        else old(h.file.fPos);
            && (status == Success <==> from <= |flat| && NoneRefused(old(sink.answers), sink.answers))
            && (status == Success ==> reply == flat[from..])
            && (from > |flat| ==> reply == [])
            && (from <= |flat| && sink.reliable ==> status == Success)
    ensures status == Success && rest.Some? ==> reply == rest.value
    ensures status == Success || status == ReadFileError
  {
    ghost var from := SeekByCommand(h, writeCmd, writeCmdOffset, flat, slots);
    var ok;
    ok, reply := SendRest(sf, h, sink, flat);
    status := if ok then Success else ReadFileError;
  }

  method SeekByCommand(h: Descriptor, writeCmd: nat, writeCmdOffset: nat,
                       ghost flat: seq<byte>, ghost slots: seq<seq<byte>>)
    returns (ghost from: nat)
    requires h.Valid() && h.file.privateData != null && slots == Slots(h) && flat == h.Contents()
    requires writeCmd < TWO_32 && writeCmdOffset < TWO_32
    modifies h.file`fPos
    ensures h.Valid() && h.file.fPos == from
    ensures from == if writeCmd < |slots| && writeCmdOffset < |slots[writeCmd]|
                    then |Flat(slots[..writeCmd])| + writeCmdOffset
                    else old(h.file.fPos)
    ensures from < |flat| || from == old(h.file.fPos)
  {
    var ret := h.Ioctl(writeCmd, writeCmdOffset);
    from := h.file.fPos;
  }

  /** The slots of the device behind a descriptor. */
  ghost function Slots(h: Descriptor): seq<seq<byte>>
    requires h.Valid() && h.file.privateData != null
    reads h.file, h.file.privateData, h.DeviceRepr()
  {
    SlotsOf(h.file.privateData.Capacity(), h.file.privateData.written)
  }

  /** `rest` is what follows in `flat`, which holds the bytes of byte `d` of slot `k`. */
  ghost predicate IsRestFrom(flat: seq<byte>, slots: seq<seq<byte>>, k: nat, d: nat, rest: seq<byte>) {
    && k < |slots| && d < |slots[k]| && |Flat(slots[..k])| + d <= |flat|
    && flat[|Flat(slots[..k])| + d..] == rest
  }

  lemma LinesRest(n: nat, stream: seq<byte>, k: nat, d: nat)
    requires 0 < n && |Lines(stream)| <= n && k < |Lines(stream)| && d < |Lines(stream)[k]|
    ensures IsRestFrom(Flat(LastN(Lines(stream), n)), SlotsOf(n, stream), k, d,
                       Lines(stream)[k][d..] + Flat(Lines(stream)[k + 1..]))
  {
    var lines := Lines(stream);
    assert LastN(lines, n) == lines && SlotsOf(n, stream) == lines;
    FlatFrom(lines, k, d);
  }

  lemma ContentsOfLines(h: Descriptor)
    requires h.Valid() && h.file.privateData != null
    ensures h.Contents() == Flat(LastN(Lines(h.file.privateData.written), h.file.privateData.Capacity()))
    ensures h.file.privateData.Capacity() > 0
  {
    h.file.privateData.SlotsFollowStream();
  }

  /** While the ring has not wrapped, that is the rest of command `k` and all later ones. */
  lemma RestInOrder(h: Descriptor, k: nat, d: nat) returns (rest: Option<seq<byte>>)
    requires h.Valid() && h.file.privateData != null
    ensures var lines := Lines(h.file.privateData.written);
            rest == if |lines| <= h.file.privateData.Capacity() && k < |lines| && d < |lines[k]|
                    then Some(lines[k][d..] + Flat(lines[k + 1..])) else None
    ensures rest.Some? ==> IsRestFrom(h.Contents(), Slots(h), k, d, rest.value)
  {
    var lines := Lines(h.file.privateData.written);
    rest := None;
    if |lines| <= h.file.privateData.Capacity() && k < |lines| && d < |lines[k]| {
      ContentsOfLines(h);
      LinesRest(h.file.privateData.Capacity(), h.file.privateData.written, k, d);
      rest := Some(lines[k][d..] + Flat(lines[k + 1..]));
    }
  }

  lemma FlatFrom(cmds: seq<seq<byte>>, k: nat, d: nat)
    requires k < |cmds| && d <= |cmds[k]|
    ensures |Flat(cmds[..k])| + d <= |Flat(cmds)|
    ensures Flat(cmds)[|Flat(cmds[..k])| + d..] == cmds[k][d..] + Flat(cmds[k + 1..])
  {
    FlatAppend(cmds[..k + 1], cmds[k + 1..]);
    assert cmds == cmds[..k + 1] + cmds[k + 1..];
    FlatTakeOneMore(cmds, k);
  }

  /** Logging at the end of a regular file appends; the device appends wherever its offset is. */
  lemma AppendAtEnd(v: FileView, size: nat, packet: seq<byte>)
    requires v.Regular? ==> size == |v.data|
    ensures match Logged(v, size, packet)
            case OnDevice(written) => v.OnDevice? && written == v.written + packet
            case Regular(data, _) => v.Regular? && data == v.data + packet
  {
    if packet == [] {
      assert v.OnDevice? ==> v.written + packet == v.written;
      assert v.Regular? ==> v.data + packet == v.data;
    } else if v.Regular? {
      OverwriteAppendsIff(v.data, size, packet);
    }
  }
}

// The stored commands seen as one flat byte string: lookup and reads.
module FlatView {
  import opened Bytes
  import opened Machine

  /** Byte `offset` of command `cmd`. */
  datatype Position = At(cmd: nat, offset: nat)

  /** Reference lookup, on unbounded integers. */
  function Locate(cmds: seq<seq<byte>>, off: nat): (r: Option<Position>)
    ensures r.Some? ==> r.value.cmd < |cmds| && r.value.offset < |cmds[r.value.cmd]|
  {
    LocateFrom(cmds, 0, off)
  }

  function LocateFrom(cmds: seq<seq<byte>>, k: nat, off: nat): (r: Option<Position>)
    ensures r.Some? ==> r.value.cmd < |cmds| && r.value.offset < |cmds[r.value.cmd]|
    decreases |cmds| - k
  {
    if k >= |cmds| then None
    else if off < |cmds[k]| then Some(At(k, off))
    else LocateFrom(cmds, k + 1, off - |cmds[k]|)
  }

  /** Number of bytes before command `k`. */
  function Start(cmds: seq<seq<byte>>, k: nat): nat
    requires k <= |cmds|
  {
    if k == 0 then 0 else Start(cmds, k - 1) + |cmds[k - 1]|
  }

  function Total(cmds: seq<seq<byte>>): nat {
    Start(cmds, |cmds|)
  }

  lemma {:induction false} StartIsPrefixLength(cmds: seq<seq<byte>>, k: nat)
    requires k <= |cmds|
    ensures Start(cmds, k) == |Flat(cmds[..k])|
  {
    if k > 0 {
      StartIsPrefixLength(cmds, k - 1);
      FlatTakeOneMore(cmds, k - 1);
    }
  }

  lemma TotalIsFlatLength(cmds: seq<seq<byte>>)
    ensures Total(cmds) == |Flat(cmds)|
  {
    StartIsPrefixLength(cmds, |cmds|);
    assert cmds[..|cmds|] == cmds;
  }

  lemma {:induction false} StartMonotone(cmds: seq<seq<byte>>, i: nat, j: nat)
    requires i <= j <= |cmds|
    ensures Start(cmds, i) <= Start(cmds, j)
    ensures i < j ==> Start(cmds, i) + |cmds[i]| <= Start(cmds, j)
  {
    if i + 1 < j {
      StartMonotone(cmds, i, j - 1);
    }
  }

  /** A pair designates offset `off`. */
  ghost predicate Designates(cmds: seq<seq<byte>>, p: Position, off: int) {
    p.cmd < |cmds| && p.offset < |cmds[p.cmd]| && Start(cmds, p.cmd) + p.offset == off
  }

  lemma {:induction false} LocateFromSound(cmds: seq<seq<byte>>, k: nat, off: nat)
    requires k <= |cmds|
    ensures var r := LocateFrom(cmds, k, off);
            match r
            case Some(p) => p.cmd >= k && Designates(cmds, p, Start(cmds, k) + off)
            case None => Start(cmds, k) + off >= Total(cmds)
    decreases |cmds| - k
  {
    if k < |cmds| && off >= |cmds[k]| {
      LocateFromSound(cmds, k + 1, off - |cmds[k]|);
    }
  }

  /** At most one pair designates an offset, and it lies below the total. */
  lemma DesignationUnique(cmds: seq<seq<byte>>, p: Position, q: Position, off: int)
    requires Designates(cmds, p, off) && Designates(cmds, q, off)
    ensures p == q && off < Total(cmds)
  {
    StartMonotone(cmds, p.cmd, |cmds|);
    if p.cmd < q.cmd {
      StartMonotone(cmds, p.cmd, q.cmd);
    } else {
      StartMonotone(cmds, q.cmd, p.cmd);
    }
  }

  /** Lookup inverts concatenation. */
  lemma LocateInverts(cmds: seq<seq<byte>>, off: nat, p: Position)
    ensures Locate(cmds, off) == Some(p) <==> Designates(cmds, p, off)
    ensures Locate(cmds, off) == None <==> off >= |Flat(cmds)|
  {
    LocateFromSound(cmds, 0, off);
    TotalIsFlatLength(cmds);
    var r := Locate(cmds, off);
    if r.Some? {
      DesignationUnique(cmds, r.value, r.value, off);
      if Designates(cmds, p, off) {
        DesignationUnique(cmds, p, r.value, off);
      }
    } else if Designates(cmds, p, off) {
      DesignationUnique(cmds, p, p, off);
    }
  }

  /** The driver's lookup, from command `k` on: a 32-bit signed accumulator compared as `size_t`. */
  function LookupFrom(cmds: seq<seq<byte>>, k: nat, acc: int, off: nat): (r: Option<Position>)
    ensures r.Some? ==> k <= r.value.cmd < |cmds| && r.value.offset < |cmds[r.value.cmd]|
    decreases |cmds| - k
  {
    if k >= |cmds| then None
    else if U64(acc) <= off < U64(U64(acc) + |cmds[k]|) then Some(At(k, off - U64(acc)))
    else LookupFrom(cmds, k + 1, I32(U64(acc) + |cmds[k]|), off)
  }

  function Lookup(cmds: seq<seq<byte>>, off: nat): (r: Option<Position>)
    ensures r.Some? ==> r.value.cmd < |cmds| && r.value.offset < |cmds[r.value.cmd]|
  {
    LookupFrom(cmds, 0, 0, off)
  }

  /** Every command starts within the accumulator's range. */
  ghost predicate StartsFit(cmds: seq<seq<byte>>) {
    cmds == [] || Start(cmds, |cmds| - 1) <= INT_MAX
  }

  /** One iteration of the scan while the accumulator is exact. */
  lemma {:induction false} LookupStep(cmds: seq<seq<byte>>, k: nat, off: nat)
    requires k < |cmds| && Start(cmds, k) <= INT_MAX && Total(cmds) < TWO_63
    requires Start(cmds, k) <= off
    ensures LookupFrom(cmds, k, I32(Start(cmds, k)), off) ==
            if off < Start(cmds, k + 1) then Some(At(k, off - Start(cmds, k)))
            else LookupFrom(cmds, k + 1, I32(Start(cmds, k + 1)), off)
  {
    var acc, next := Start(cmds, k), Start(cmds, k + 1);
    StartMonotone(cmds, k + 1, |cmds|);
    InRange(acc);
    InRange(next);
    assert U64(U64(acc) + |cmds[k]|) == next;
  }

  lemma {:induction false} LookupFromExact(cmds: seq<seq<byte>>, k: nat, off: nat)
    requires k <= |cmds| && StartsFit(cmds) && Total(cmds) < TWO_63
    requires Start(cmds, k) <= off
    ensures LookupFrom(cmds, k, I32(Start(cmds, k)), off) == LocateFrom(cmds, k, off - Start(cmds, k))
    decreases |cmds| - k
  {
    if k < |cmds| {
      StartMonotone(cmds, k, |cmds| - 1);
      LookupStep(cmds, k, off);
      if off >= Start(cmds, k + 1) {
        LookupFromExact(cmds, k + 1, off);
      }
    }
  }

  /** While the commands before `j` start in range, the scan reaches `j` for offsets from there on. */
  lemma {:induction false} LookupReaches(cmds: seq<seq<byte>>, k: nat, j: nat, off: nat)
    requires k <= j < |cmds| && Total(cmds) < TWO_63
    requires forall i :: 0 <= i < j ==> Start(cmds, i) <= INT_MAX
    requires Start(cmds, j) <= off
    ensures LookupFrom(cmds, k, I32(Start(cmds, k)), off) == LookupFrom(cmds, j, I32(Start(cmds, j)), off)
    decreases j - k
  {
    if k < j {
      StartMonotone(cmds, k, j);
      StartMonotone(cmds, k + 1, j);
      LookupStep(cmds, k, off);
      LookupReaches(cmds, k + 1, j, off);
    }
  }

  /** The first command that starts beyond the accumulator's range. */
  lemma {:induction false} FirstOutOfRange(cmds: seq<seq<byte>>, k: nat) returns (j: nat)
    requires k < |cmds| && Start(cmds, k) > INT_MAX
    ensures 0 < j <= k && Start(cmds, j) > INT_MAX
    ensures forall i :: 0 <= i < j ==> Start(cmds, i) <= INT_MAX
  {
    if Start(cmds, k - 1) > INT_MAX {
      j := FirstOutOfRange(cmds, k - 1);
    } else {
      j := k;
      forall i | 0 <= i < j ensures Start(cmds, i) <= INT_MAX {
        StartMonotone(cmds, i, k - 1);
      }
    }
  }

  /** An accumulator that stands in for an out-of-range offset never equals it. */
  lemma OutOfRangeDiffers(off: nat)
    requires INT_MAX < off < TWO_63
    ensures U64(I32(off)) != off
  {
  }

  lemma LookupAtOutOfRange(cmds: seq<seq<byte>>, j: nat, acc: int, off: nat)
    requires j < |cmds| && U64(acc) != off
    ensures LookupFrom(cmds, j, acc, off) != Some(At(j, 0))
  {
  }

  /** The first byte of that command is looked up wrongly. */
  lemma LookupMisses(cmds: seq<seq<byte>>, j: nat)
    requires j < |cmds| && cmds[j] != [] && Total(cmds) < TWO_63
    requires Start(cmds, j) > INT_MAX
    requires forall i :: 0 <= i < j ==> Start(cmds, i) <= INT_MAX
    ensures Lookup(cmds, Start(cmds, j)) != Locate(cmds, Start(cmds, j))
  {
    var off := Start(cmds, j);
    assert Lookup(cmds, off) == LookupFrom(cmds, j, I32(off), off) by {
      InRange(0);
      LookupReaches(cmds, 0, j, off);
    }
    assert Lookup(cmds, off) != Some(At(j, 0)) by {
      StartMonotone(cmds, j, |cmds|);
      OutOfRangeDiffers(off);
      LookupAtOutOfRange(cmds, j, I32(off), off);
    }
    assert Designates(cmds, At(j, 0), off);
    LocateInverts(cmds, off, At(j, 0));
  }

  /** The driver's lookup is right for every offset exactly when the last command starts in range. */
  lemma LookupExactIff(cmds: seq<seq<byte>>)
    requires forall i :: 0 <= i < |cmds| ==> cmds[i] != []
    requires Total(cmds) < TWO_63
    ensures (forall off: nat :: Lookup(cmds, off) == Locate(cmds, off)) <==> StartsFit(cmds)
  {
    if StartsFit(cmds) {
      forall off: nat ensures Lookup(cmds, off) == Locate(cmds, off) {
        LookupFromExact(cmds, 0, off);
      }
    } else {
      var j := FirstOutOfRange(cmds, |cmds| - 1);
      LookupMisses(cmds, j);
    }
  }

  /** The second of two commands that starts one beyond that range. */
  lemma LookupCanMiss() returns (cmds: seq<seq<byte>>)
    ensures |cmds| == 2 && AllCommands(cmds) && Start(cmds, 1) == TWO_31
    ensures Lookup(cmds, TWO_31) != Locate(cmds, TWO_31)
  {
    var long := seq(TWO_31 - 1, _ => 97) + [NEWLINE];
    assert long[..|long| - 1] == seq(TWO_31 - 1, _ => 97);
    cmds := [long, [NEWLINE]];
    assert Start(cmds, 0) == 0 && Start(cmds, 1) == TWO_31 && Start(cmds, 2) == TWO_31 + 1;
    LookupMisses(cmds, 1);
  }

  /** What one read at `pos` delivers: never beyond the command that holds `pos`. */
  function ReadAt(cmds: seq<seq<byte>>, pos: nat, count: nat): (r: seq<byte>)
    ensures |r| <= count
  {
    if cmds == [] then []
    else if pos < |cmds[0]| then cmds[0][pos..pos + Min(count, |cmds[0]| - pos)]
    else ReadAt(cmds[1..], pos - |cmds[0]|, count)
  }

  /** `piece` is what a read of at most `count` bytes at `pos` may deliver; it may be short. */
  ghost predicate IsRead(flat: seq<byte>, pos: nat, count: nat, piece: seq<byte>) {
    && |piece| <= count
    && (|piece| == 0 <==> pos >= |flat| || count == 0)
    && (pos <= |flat| ==> pos + |piece| <= |flat| && piece == flat[pos..pos + |piece|])
  }

  /** One device read delivers the next bytes of the flat string. */
  lemma {:induction false} ReadAtIsRead(cmds: seq<seq<byte>>, pos: nat, count: nat)
    ensures IsRead(Flat(cmds), pos, count, ReadAt(cmds, pos, count))
  {
    if cmds != [] && pos >= |cmds[0]| {
      ReadAtIsRead(cmds[1..], pos - |cmds[0]|, count);
    }
  }

  lemma SlicesJoin(s: seq<byte>, i: nat, j: nat, k: nat)
    requires i <= j <= k <= |s|
    ensures s[i..j] + s[j..k] == s[i..k]
  {
  }

  /** A read takes its bytes from the command that lookup finds, and stops at its end. */
  lemma {:induction false} ReadFollowsLookup(cmds: seq<seq<byte>>, k: nat, pos: nat, count: nat)
    requires k <= |cmds|
    ensures var r := ReadAt(cmds[k..], pos, count);
            match LocateFrom(cmds, k, pos)
            case None => r == []
            case Some(p) => r == cmds[p.cmd][p.offset..p.offset + Min(count, |cmds[p.cmd]| - p.offset)]
    decreases |cmds| - k
  {
    if k < |cmds| && pos >= |cmds[k]| {
      assert cmds[k..][1..] == cmds[k + 1..];
      ReadFollowsLookup(cmds, k + 1, pos - |cmds[k]|, count);
    }
  }

  /** What the driver's read delivers: as `ReadAt`, but through its own lookup. */
  function DriverRead(cmds: seq<seq<byte>>, pos: nat, count: nat): seq<byte> {
    match Lookup(cmds, pos)
    case None => []
    case Some(At(k, d)) => cmds[k][d..d + Min(count, |cmds[k]| - d)]
  }

  /** While at most `INT_MAX` bytes are stored, the driver's read and its `int` result are exact. */
  lemma DriverReadExact(cmds: seq<seq<byte>>, pos: nat, count: nat)
    requires Total(cmds) <= INT_MAX
    ensures DriverRead(cmds, pos, count) == ReadAt(cmds, pos, count)
    ensures I32(|ReadAt(cmds, pos, count)|) == |ReadAt(cmds, pos, count)|
  {
    assert Lookup(cmds, pos) == Locate(cmds, pos) by {
      if cmds != [] {
        StartMonotone(cmds, |cmds| - 1, |cmds|);
      }
      LookupFromExact(cmds, 0, pos);
    }
    ReadFollowsLookup(cmds, 0, pos, count);
    assert cmds[0..] == cmds;
    TotalIsFlatLength(cmds);
    ReadAtIsRead(cmds, pos, count);
  }

  lemma DriverReadIsRead(cmds: seq<seq<byte>>, pos: nat, count: nat)
    requires |Flat(cmds)| <= INT_MAX
    ensures pos < TWO_63 ==> U64(pos) == pos
    ensures IsRead(Flat(cmds), pos, count, DriverRead(cmds, pos, count))
    ensures I32(|DriverRead(cmds, pos, count)|) == |DriverRead(cmds, pos, count)|
  {
    TotalIsFlatLength(cmds);
    DriverReadExact(cmds, pos, count);
    ReadAtIsRead(cmds, pos, count);
  }

  /** Repeated reads, each from where the last one stopped. */
  ghost predicate IsReadRun(flat: seq<byte>, pos: nat, counts: seq<nat>, pieces: seq<seq<byte>>)
    decreases |counts|
  {
    |pieces| == |counts| &&
    (counts != [] ==>
       IsRead(flat, pos, counts[0], pieces[0]) &&
       IsReadRun(flat, pos + |pieces[0]|, counts[1..], pieces[1..]))
  }

  /** Repeated reads deliver the string from `pos`, without gap or repetition. */
  lemma {:induction false} ReadRunIsSlice(flat: seq<byte>, pos: nat, counts: seq<nat>, pieces: seq<seq<byte>>)
    requires pos <= |flat| && IsReadRun(flat, pos, counts, pieces)
    ensures pos + |Flat(pieces)| <= |flat|
    ensures Flat(pieces) == flat[pos..pos + |Flat(pieces)|]
    decreases |counts|
  {
    if counts != [] {
      ReadRunIsSlice(flat, pos + |pieces[0]|, counts[1..], pieces[1..]);
    }
  }

  /** Every read with a positive count makes progress: one per remaining byte delivers everything. */
  lemma {:induction false} ReadRunCompletes(flat: seq<byte>, pos: nat, counts: seq<nat>, pieces: seq<seq<byte>>)
    requires pos <= |flat| <= pos + |counts| && IsReadRun(flat, pos, counts, pieces)
    requires forall i :: 0 <= i < |counts| ==> counts[i] > 0
    ensures Flat(pieces) == flat[pos..]
    decreases |counts|
  {
    if pos == |flat| {
      ReadRunIsSlice(flat, pos, counts, pieces);
    } else {
      ReadRunCompletes(flat, pos + |pieces[0]|, counts[1..], pieces[1..]);
    }
  }

  /** The pieces the driver delivers to a reader that asks for `counts`, no write between them. */
  function DeviceReads(cmds: seq<seq<byte>>, pos: nat, counts: seq<nat>): seq<seq<byte>>
    decreases |counts|
  {
    if counts == [] then []
    else
      var piece := DriverRead(cmds, pos, counts[0]);
      [piece] + DeviceReads(cmds, pos + |piece|, counts[1..])
  }

  lemma {:induction false} DeviceReadsRun(cmds: seq<seq<byte>>, pos: nat, counts: seq<nat>)
    requires Total(cmds) <= INT_MAX
    ensures IsReadRun(Flat(cmds), pos, counts, DeviceReads(cmds, pos, counts))
    decreases |counts|
  {
    if counts != [] {
      var piece := DriverRead(cmds, pos, counts[0]);
      TotalIsFlatLength(cmds);
      DriverReadIsRead(cmds, pos, counts[0]);
      DeviceReadsRun(cmds, pos + |piece|, counts[1..]);
      assert DeviceReads(cmds, pos, counts)[1..] == DeviceReads(cmds, pos + |piece|, counts[1..]);
    }
  }

  /** Reading the device with any counts yields its flat contents from `pos` on. */
  lemma DeviceReadsDeliver(cmds: seq<seq<byte>>, pos: nat, counts: seq<nat>)
    requires Total(cmds) <= INT_MAX && pos <= |Flat(cmds)|
    ensures var got := Flat(DeviceReads(cmds, pos, counts));
            && pos + |got| <= |Flat(cmds)|
            && got == Flat(cmds)[pos..pos + |got|]
    ensures |Flat(cmds)| <= pos + |counts| && (forall i :: 0 <= i < |counts| ==> counts[i] > 0)
            ==> Flat(DeviceReads(cmds, pos, counts)) == Flat(cmds)[pos..]
  {
    var pieces := DeviceReads(cmds, pos, counts);
    DeviceReadsRun(cmds, pos, counts);
    ReadRunIsSlice(Flat(cmds), pos, counts, pieces);
    if |Flat(cmds)| <= pos + |counts| && (forall i :: 0 <= i < |counts| ==> counts[i] > 0) {
      ReadRunCompletes(Flat(cmds), pos, counts, pieces);
    }
  }

  /** The position of byte `d` of command `k`, if there is one. */
  function SeekPos(cmds: seq<seq<byte>>, k: nat, d: nat): Option<nat> {
    if k < |cmds| && d < |cmds[k]| then Some(Start(cmds, k) + d) else None
  }

  /** In terms of the bytes themselves. */
  lemma SeekPosMeans(cmds: seq<seq<byte>>, k: nat, d: nat)
    ensures SeekPos(cmds, k, d) == if k < |cmds| && d < |cmds[k]| then Some(|Flat(cmds[..k])| + d) else None
  {
    if k < |cmds| {
      StartIsPrefixLength(cmds, k);
    }
  }

  /** Seeking to a pair and looking up a position undo each other. */
  lemma SeekInvertsLookup(cmds: seq<seq<byte>>, k: nat, d: nat, pos: nat)
    ensures SeekPos(cmds, k, d) == Some(pos) <==> Locate(cmds, pos) == Some(At(k, d))
  {
    LocateInverts(cmds, pos, At(k, d));
  }

  /** Every position below the total is reached by exactly one pair. */
  lemma PositionReachedOnce(cmds: seq<seq<byte>>, pos: nat) returns (k: nat, d: nat)
    requires pos < |Flat(cmds)|
    ensures SeekPos(cmds, k, d) == Some(pos)
    ensures forall i: nat, j: nat :: SeekPos(cmds, i, j) == Some(pos) ==> i == k && j == d
  {
    LocateInverts(cmds, pos, At(0, 0));
    var At(k', d') := Locate(cmds, pos).value;
    k, d := k', d';
    forall i: nat, j: nat ensures SeekPos(cmds, i, j) == Some(pos) <==> Locate(cmds, pos) == Some(At(i, j)) {
      SeekInvertsLookup(cmds, i, j, pos);
    }
  }

  lemma {:induction false} StartDependsOnSizes(a: seq<seq<byte>>, b: seq<seq<byte>>, k: nat)
    requires k <= |a| == |b|
    requires forall i :: 0 <= i < |a| ==> |a[i]| == |b[i]|
    ensures Start(a, k) == Start(b, k)
  {
    if k > 0 {
      StartDependsOnSizes(a, b, k - 1);
    }
  }

  /** Two command lists take all 32-bit seeks to the same positions exactly when their sizes agree. */
  lemma SeeksAgreeIff(a: seq<seq<byte>>, b: seq<seq<byte>>)
    requires |a| == |b|
    requires forall i :: 0 <= i < |a| ==> |a[i]| <= TWO_32 && |b[i]| <= TWO_32
    ensures (forall k: nat, d: nat :: d < TWO_32 ==> SeekPos(a, k, d) == SeekPos(b, k, d))
       <==> (forall i :: 0 <= i < |a| ==> |a[i]| == |b[i]|)
  {
    if forall i :: 0 <= i < |a| ==> |a[i]| == |b[i]| {
      forall k: nat | k < |a| ensures Start(a, k) == Start(b, k) {
        StartDependsOnSizes(a, b, k);
      }
    } else {
      var i :| 0 <= i < |a| && |a[i]| != |b[i]|;
      var d := Min(|a[i]|, |b[i]|);
      assert SeekPos(a, i, d) != SeekPos(b, i, d);
    }
  }
}

// The server's log file under concurrency: client workers append their packet and
// send the whole file back, timestamps are written wherever the offset stands.
// Every system call is one step, and reads and writes may fail; only the lock orders the threads.
module FileProtocol {
  import opened Bytes
  import opened FlatView
  import opened LockedFile
  import opened ClientHandler

  datatype Phase =
    | WantWrite
    | Seeking                  // from here to WriteFailed the lock is held
    | Writing(done: nat)
    | Written
    | WriteFailed
    | WantRead
    | SeekingStart             // from here to Dropped the lock is held
    | SeekingEnd
    | SeekingBack(end: nat)
    | Reading(end: nat)
    | Replied
    | Dropped                  // a read or the callback failed
    | Finished(ok: bool)

  /** `mark` is the length of the log when the thread took the lock to read. */
  datatype Thread = Thread(isTimer: bool, buf: seq<byte>, phase: Phase, reply: seq<byte>, mark: nat)

  /** The file took `taken`, the whole of `buf` unless a write failed. */
  datatype Entry = Entry(owner: nat, buf: seq<byte>, taken: seq<byte>)

  /** `log` lists in lock order what the file took. The flags record that a reply was broken off,
      that a write call started before the end of the file, and that a buffer was taken in part. */
  datatype System = System(
    file: seq<byte>,
    pos: nat,
    lock: Option<nat>,
    threads: seq<Thread>,
    log: seq<Entry>,
    failed: bool,
    spoiled: bool,
    cut: bool)

  const INITIAL := System([], 0, None, [], [], false, false, false)

  function Pieces(log: seq<Entry>): seq<seq<byte>> {
    seq(|log|, k requires 0 <= k < |log| => log[k].taken)
  }

  function Buffers(log: seq<Entry>): seq<seq<byte>> {
    seq(|log|, k requires 0 <= k < |log| => log[k].buf)
  }

  /** The bytes the file took, one piece after the other. */
  function LogBytes(log: seq<Entry>): seq<byte> {
    Flat(Pieces(log))
  }

  /** The logged buffers, one after the other. */
  function WholeBytes(log: seq<Entry>): seq<byte> {
    Flat(Buffers(log))
  }

  ghost predicate AllWhole(log: seq<Entry>) {
    forall k :: 0 <= k < |log| ==> log[k].taken == log[k].buf
  }

  predicate Holds(p: Phase) {
    !(p.WantWrite? || p.WantRead? || p.Finished?)
  }

  // ---- Steps ----

  /** A client whose packet is empty skips the write; a timestamp is never empty. */
  ghost predicate Enter(s: System, t: System, isTimer: bool, buf: seq<byte>) {
    && (isTimer ==> buf != [])
    && t == s.(threads := s.threads + [Thread(isTimer, buf, if buf == [] then WantRead else WantWrite, [], 0)])
  }

  function To(s: System, i: nat, p: Phase): System
    requires i < |s.threads|
  {
    s.(threads := s.threads[i := s.threads[i].(phase := p)])
  }

  /** A timestamp is written wherever the offset stands. */
  ghost predicate LockToWrite(s: System, t: System, i: nat)
    requires i < |s.threads|
  {
    var th := s.threads[i];
    && th.phase == WantWrite && s.lock == None
    && t == To(s, i, if th.isTimer then Writing(0) else Seeking).(lock := Some(i))
  }

  ghost predicate SeekToWrite(s: System, t: System, i: nat)
    requires i < |s.threads|
  {
    s.threads[i].phase == Seeking && t == To(s, i, Writing(0)).(pos := |s.file|)
  }

  /** The state after one `write` call of thread `i` took the next `n` bytes of its buffer. */
  function Wrote(s: System, i: nat, n: nat): System
    requires i < |s.threads|
    requires s.threads[i].phase.Writing? && s.threads[i].phase.done + n <= |s.threads[i].buf|
  {
    var th := s.threads[i];
    s.(file := Overwrite(s.file, s.pos, th.buf[th.phase.done..th.phase.done + n]),
       pos := s.pos + n,
       spoiled := s.spoiled || s.pos < |s.file|)
  }

  /** The call took a part of what was left. */
  ghost predicate WritePart(s: System, t: System, i: nat, n: nat)
    requires i < |s.threads|
  {
    var th := s.threads[i];
    && th.phase.Writing? && 0 < n && th.phase.done + n < |th.buf|
    && t == To(Wrote(s, i, n), i, Writing(th.phase.done + n))
  }

  /** The call took all that was left. */
  ghost predicate WriteLast(s: System, t: System, i: nat, n: nat)
    requires i < |s.threads|
  {
    var th := s.threads[i];
    && th.phase.Writing? && 0 < n && th.phase.done + n == |th.buf|
    && t == To(Wrote(s, i, n), i, Written).(log := s.log + [Entry(i, th.buf, th.buf)])
  }

  /** The call failed: what the earlier calls took stays in the file. */
  ghost predicate WriteFails(s: System, t: System, i: nat)
    requires i < |s.threads|
  {
    var th := s.threads[i];
    && th.phase.Writing? && th.phase.done < |th.buf|
    && t == if th.phase.done == 0 then To(s, i, WriteFailed)
            else To(s, i, WriteFailed).(log := s.log + [Entry(i, th.buf, th.buf[..th.phase.done])], cut := true)
  }

  ghost predicate UnlockAfterWrite(s: System, t: System, i: nat)
    requires i < |s.threads|
  {
    var th := s.threads[i];
    && (th.phase == Written || th.phase == WriteFailed)
    && var next := if th.phase == WriteFailed then Finished(false)
                   else if th.isTimer then Finished(true)
                   else WantRead;
       t == To(s, i, next).(lock := None)
  }

  ghost predicate LockToRead(s: System, t: System, i: nat)
    requires i < |s.threads|
  {
    && s.threads[i].phase == WantRead && s.lock == None
    && t == s.(lock := Some(i), threads := s.threads[i := s.threads[i].(phase := SeekingStart, mark := |s.log|)])
  }

  ghost predicate SeekToRead(s: System, t: System, i: nat)
    requires i < |s.threads|
  {
    match s.threads[i].phase
    case SeekingStart => t == To(s, i, SeekingEnd).(pos := 0)
    case SeekingEnd => t == To(s, i, SeekingBack(|s.file|)).(pos := |s.file|)
    case SeekingBack(end) => t == To(s, i, Reading(end)).(pos := 0)
    case _ => false
  }

  /** One `read` call and the callback on what it returned. */
  ghost predicate ReadSome(s: System, t: System, i: nat, piece: seq<byte>, ok: bool)
    requires i < |s.threads|
  {
    var th := s.threads[i];
    && th.phase.Reading?
    && |th.reply| <= th.phase.end
    && IsRead(s.file, s.pos, Min(th.phase.end - |th.reply|, CLIENT_BUFFER_SIZE), piece)
    && var reply := th.reply + piece;
       var next := if !ok then Dropped else if |reply| < th.phase.end then th.phase else Replied;
       t == s.(pos := s.pos + |piece|,
               failed := s.failed || !ok,
               threads := s.threads[i := th.(phase := next, reply := reply)])
  }

  /** The call failed: the offset stays inside the file. */
  ghost predicate ReadFails(s: System, t: System, i: nat)
    requires i < |s.threads|
  {
    s.threads[i].phase.Reading? && t == To(s, i, Dropped).(failed := true)
  }

  ghost predicate UnlockAfterRead(s: System, t: System, i: nat)
    requires i < |s.threads|
  {
    && (s.threads[i].phase == Replied || s.threads[i].phase == Dropped)
    && t == To(s, i, Finished(s.threads[i].phase == Replied)).(lock := None)
  }

  /** Taking the lock, seeking, and giving the lock back. */
  ghost predicate WritesQuietly(s: System, t: System, i: nat)
    requires i < |s.threads|
  {
    LockToWrite(s, t, i) || SeekToWrite(s, t, i) || UnlockAfterWrite(s, t, i)
  }

  ghost predicate ReadsQuietly(s: System, t: System, i: nat)
    requires i < |s.threads|
  {
    LockToRead(s, t, i) || SeekToRead(s, t, i) || UnlockAfterRead(s, t, i)
  }

  ghost predicate ThreadStep(s: System, t: System, i: nat)
    requires i < |s.threads|
  {
    || WritesQuietly(s, t, i) || (exists n :: WritePart(s, t, i, n) || WriteLast(s, t, i, n)) || WriteFails(s, t, i)
    || ReadsQuietly(s, t, i) || (exists piece, ok :: ReadSome(s, t, i, piece, ok)) || ReadFails(s, t, i)
  }

  ghost predicate StepOf(i: nat, s: System, t: System) {
    i < |s.threads| && ThreadStep(s, t, i)
  }

  ghost predicate Step(s: System, t: System) {
    || (exists isTimer, buf :: Enter(s, t, isTimer, buf))
    || (exists i: nat :: i < |s.threads| && ThreadStep(s, t, i))
  }

  ghost predicate IsRun(run: seq<System>) {
    && run != [] && run[0] == INITIAL
    && forall k :: 0 <= k < |run| - 1 ==> Step(run[k], run[k + 1])
  }

  // ---- Invariant ----

  /** Contents against log when no write is under way. */
  ghost predicate ContentsOk(s: System) {
    if s.spoiled then |s.file| < |LogBytes(s.log)| else s.file == LogBytes(s.log)
  }

  /** Entries are non-empty pieces of their owners' buffers, one per owner. */
  ghost predicate LogOk(log: seq<Entry>, threads: seq<Thread>) {
    && (forall k :: 0 <= k < |log| ==>
          && log[k].owner < |threads| && log[k].buf == threads[log[k].owner].buf
          && [] < log[k].taken <= log[k].buf)
    && (forall k, l :: 0 <= k < l < |log| ==> log[k].owner != log[l].owner)
  }

  ghost predicate NotLogged(log: seq<Entry>, i: nat) {
    forall k :: 0 <= k < |log| ==> log[k].owner != i
  }

  /** What the log and the reply of thread `i` say about it. */
  ghost predicate ThreadOk(th: Thread, i: nat, log: seq<Entry>, spoiled: bool) {
    && (th.isTimer ==> th.buf != [] && !th.phase.Seeking? && !th.phase.WantRead? && !IsReading(th.phase))
    && (th.phase.WantRead? || th.phase == Finished(true) ==> th.buf == [] || Entry(i, th.buf, th.buf) in log)
    && (th.phase == Finished(true) && !th.isTimer ==>
          && th.mark <= |log|
          && (th.buf == [] || Entry(i, th.buf, th.buf) in log[..th.mark])
          && (!spoiled ==> th.reply == LogBytes(log[..th.mark])))
    && (th.phase.WantWrite? ==> th.buf != [])
    && (th.phase.WantWrite? || th.phase.Seeking? || th.phase.Writing? ==> NotLogged(log, i))
    && (th.phase.WantWrite? || th.phase.WantRead? ==> th.reply == [])
  }

  predicate IsReading(p: Phase) {
    p.SeekingStart? || p.SeekingEnd? || p.SeekingBack? || p.Reading? || p.Replied? || p.Dropped?
  }

  /** What the thread that holds the lock has done so far. */
  ghost predicate HolderOk(s: System, th: Thread, i: nat) {
    var atEnd := s.pos == |s.file|;
    var reading := th.mark == |s.log| && (th.buf == [] || Entry(i, th.buf, th.buf) in s.log) && ContentsOk(s);
    match th.phase
    case Seeking => th.buf != [] && th.reply == [] && ContentsOk(s)
    case Writing(done) =>
      && done < |th.buf| && th.reply == [] && Holding(s.file, LogBytes(s.log), th.buf, done, s.spoiled)
      && (!s.failed || (done > 0 && !s.spoiled) || !th.isTimer ==> atEnd)
    case Written =>
      th.reply == [] && Entry(i, th.buf, th.buf) in s.log && ContentsOk(s) && (!s.failed ==> atEnd)
    case WriteFailed => ContentsOk(s) && (!s.failed ==> atEnd)
    case SeekingStart => th.reply == [] && reading
    case SeekingEnd => th.reply == [] && reading
    case SeekingBack(end) => th.reply == [] && end == |s.file| && reading
    case Reading(end) => end == |s.file| && s.pos == |th.reply| <= |s.file| && th.reply == s.file[..s.pos] && reading
    case Replied => th.reply == s.file && atEnd && reading
    case Dropped => s.failed && reading
    case _ => false
  }

  ghost predicate Inv(s: System) {
    && s.pos <= |s.file|
    && (s.spoiled ==> s.failed)
    && (s.cut <==> !AllWhole(s.log))
    && LogOk(s.log, s.threads)
    && (forall i :: 0 <= i < |s.threads| ==> ThreadOk(s.threads[i], i, s.log, s.spoiled))
    && (forall i :: 0 <= i < |s.threads| ==> (Holds(s.threads[i].phase) <==> s.lock == Some(i)))
    && match s.lock
       case None => ContentsOk(s) && (!s.failed ==> s.pos == |s.file|)
       case Some(i) => i < |s.threads| && HolderOk(s, s.threads[i], i)
  }

  lemma LogBytesOneMore(log: seq<Entry>, e: Entry)
    ensures LogBytes(log + [e]) == LogBytes(log) + e.taken
    ensures WholeBytes(log + [e]) == WholeBytes(log) + e.buf
  {
    FlatSnoc(Pieces(log), e.taken);
    assert Pieces(log + [e]) == Pieces(log) + [e.taken];
    FlatSnoc(Buffers(log), e.buf);
    assert Buffers(log + [e]) == Buffers(log) + [e.buf];
  }

  /** Pieces make up the whole buffers exactly if each of them is whole. */
  lemma {:induction false} WholeIff(log: seq<Entry>)
    requires forall k :: 0 <= k < |log| ==> log[k].taken <= log[k].buf
    ensures |LogBytes(log)| <= |WholeBytes(log)|
    ensures AllWhole(log) <==> |LogBytes(log)| == |WholeBytes(log)|
    ensures AllWhole(log) ==> LogBytes(log) == WholeBytes(log)
  {
    if log != [] {
      var init, last := log[..|log| - 1], log[|log| - 1];
      WholeIff(init);
      assert log == init + [last];
      LogBytesOneMore(init, last);
      assert AllWhole(log) <==> AllWhole(init) && last.taken == last.buf;
      assert |last.taken| == |last.buf| <==> last.taken == last.buf;
    }
  }

  /** Growing the log changes nothing for a thread that owns no new entry. */
  lemma ThreadOkMonotone(th: Thread, i: nat, log: seq<Entry>, more: seq<Entry>, was: bool, now: bool)
    requires ThreadOk(th, i, log, was) && (was ==> now) && NotLogged(more, i)
    ensures ThreadOk(th, i, log + more, now)
  {
    if th.phase == Finished(true) && !th.isTimer {
      assert (log + more)[..th.mark] == log[..th.mark];
    }
  }

  /** A step of thread `i` leaves the other threads' part of the invariant alone. */
  lemma OthersKept(s: System, t: System, i: nat, more: seq<Entry>)
    requires Inv(s) && i < |s.threads| == |t.threads|
    requires t.threads == s.threads[i := t.threads[i]]
    requires t.log == s.log + more && (s.spoiled ==> t.spoiled)
    requires forall e :: e in more ==> e.owner == i
    requires s.lock == None || s.lock == Some(i)
    requires t.lock == if Holds(t.threads[i].phase) then Some(i) else None
    requires ThreadOk(t.threads[i], i, t.log, t.spoiled)
    ensures forall j :: 0 <= j < |t.threads| ==> ThreadOk(t.threads[j], j, t.log, t.spoiled)
    ensures forall j :: 0 <= j < |t.threads| ==> (Holds(t.threads[j].phase) <==> t.lock == Some(j))
  {
    forall j | 0 <= j < |t.threads| && j != i ensures ThreadOk(t.threads[j], j, t.log, t.spoiled) {
      ThreadOkMonotone(s.threads[j], j, s.log, more, s.spoiled, t.spoiled);
    }
  }

  /** A step that logs nothing. */
  lemma NothingLogged(s: System, t: System, i: nat)
    requires Inv(s) && i < |s.threads| == |t.threads|
    requires t.threads == s.threads[i := t.threads[i]] && t.threads[i].buf == s.threads[i].buf
    requires t.log == s.log && t.cut == s.cut && (s.spoiled ==> t.spoiled)
    requires s.lock == None || s.lock == Some(i)
    requires t.lock == if Holds(t.threads[i].phase) then Some(i) else None
    requires ThreadOk(t.threads[i], i, t.log, t.spoiled)
    requires t.pos <= |t.file| && (t.spoiled ==> t.failed)
    requires if t.lock == None then ContentsOk(t) && (!t.failed ==> t.pos == |t.file|)
             else HolderOk(t, t.threads[i], i)
    ensures Inv(t)
  {
    assert s.log + [] == s.log;
    OthersKept(s, t, i, []);
  }

  lemma LogGrows(log: seq<Entry>, was: seq<Thread>, now: seq<Thread>, e: Entry)
    requires LogOk(log, was) && |now| == |was| && forall i :: 0 <= i < |was| ==> now[i].buf == was[i].buf
    requires e.owner < |was| && e.buf == was[e.owner].buf && [] < e.taken <= e.buf && NotLogged(log, e.owner)
    ensures LogOk(log + [e], now)
    ensures AllWhole(log + [e]) <==> AllWhole(log) && e.taken == e.buf
  {
    var more := log + [e];
    assert more[|log|] == e && forall k :: 0 <= k < |log| ==> more[k] == log[k];
  }

  /** A step that logs what the file took of the buffer of thread `i`. */
  lemma PieceLogged(s: System, t: System, i: nat, taken: seq<byte>)
    requires Inv(s) && i < |s.threads| == |t.threads| && s.lock == Some(i) && NotLogged(s.log, i)
    requires t.threads == s.threads[i := t.threads[i]] && t.threads[i].buf == s.threads[i].buf
    requires [] < taken <= s.threads[i].buf
    requires t.log == s.log + [Entry(i, s.threads[i].buf, taken)] && (s.spoiled ==> t.spoiled)
    requires t.cut == (s.cut || taken != s.threads[i].buf)
    requires t.lock == Some(i) && Holds(t.threads[i].phase) && ThreadOk(t.threads[i], i, t.log, t.spoiled)
    requires t.pos <= |t.file| && (t.spoiled ==> t.failed) && HolderOk(t, t.threads[i], i)
    ensures Inv(t)
  {
    var e := Entry(i, s.threads[i].buf, taken);
    OthersKept(s, t, i, [e]);
    LogGrows(s.log, s.threads, t.threads, e);
  }

  /** One more thread leaves the others and the log as they were. */
  lemma NewThread(s: System, t: System)
    requires Inv(s) && |t.threads| == |s.threads| + 1 && t.threads[..|s.threads|] == s.threads
    requires t.threads[|s.threads|].phase.WantWrite? || t.threads[|s.threads|].phase.WantRead?
    requires t == s.(threads := t.threads)
    requires NotLogged(s.log, |s.threads|) ==> ThreadOk(t.threads[|s.threads|], |s.threads|, s.log, s.spoiled)
    ensures LogOk(t.log, t.threads)
    ensures forall j :: 0 <= j < |t.threads| ==> ThreadOk(t.threads[j], j, t.log, t.spoiled)
    ensures forall j :: 0 <= j < |t.threads| ==> (Holds(t.threads[j].phase) <==> t.lock == Some(j))
    ensures forall j :: 0 <= j < |s.threads| ==> t.threads[j] == s.threads[j]
  {
    assert NotLogged(s.log, |s.threads|);
    forall j | 0 <= j < |s.threads| ensures t.threads[j] == s.threads[j] {
      assert t.threads[..|s.threads|][j] == s.threads[j];
    }
  }

  lemma EnterKeepsInv(s: System, t: System, isTimer: bool, buf: seq<byte>)
    requires Inv(s) && Enter(s, t, isTimer, buf)
    ensures Inv(t)
  {
    NewThread(s, t);
    if s.lock.Some? {
      assert HolderOk(s, s.threads[s.lock.value], s.lock.value);
    }
  }

  lemma LockToWriteKeepsInv(s: System, t: System, i: nat)
    requires Inv(s) && i < |s.threads| && LockToWrite(s, t, i)
    ensures Inv(t)
  {
    assert LogBytes(s.log) + t.threads[i].buf[..0] == LogBytes(s.log);
    NothingLogged(s, t, i);
  }

  lemma SeekToWriteKeepsInv(s: System, t: System, i: nat)
    requires Inv(s) && i < |s.threads| && SeekToWrite(s, t, i)
    ensures Inv(t)
  {
    assert LogBytes(s.log) + t.threads[i].buf[..0] == LogBytes(s.log);
    NothingLogged(s, t, i);
  }

  /** The file against what was logged and the `done` bytes of `buf` that were taken since. */
  ghost predicate Holding(file: seq<byte>, logged: seq<byte>, buf: seq<byte>, done: nat, spoiled: bool)
    requires done <= |buf|
  {
    if spoiled then |file| < |logged| + done else file == logged + buf[..done]
  }

  /** What one `write` call does to it. */
  lemma WriteSomeBytes(file: seq<byte>, pos: nat, logged: seq<byte>, buf: seq<byte>, done: nat, n: nat, spoiled: bool)
    requires pos <= |file| && done + n <= |buf| && Holding(file, logged, buf, done, spoiled)
    ensures var after := Overwrite(file, pos, buf[done..done + n]);
            && pos + n <= |after| && (pos == |file| ==> pos + n == |after|)
            && Holding(after, logged, buf, done + n, spoiled || (n > 0 && pos < |file|))
  {
    OverwriteLength(file, pos, buf[done..done + n]);
    OverwriteAtEnd(file, buf[done..done + n]);
    assert buf[..done] + buf[done..done + n] == buf[..done + n];
    AppendAssociates(logged, buf[..done], buf[done..done + n]);
  }

  /** After a `write` call as before it, the file is what was logged and what was taken since,
      or shorter if a call has started before its end. */
  lemma WroteKeepsPart(s: System, i: nat, n: nat)
    requires Inv(s) && i < |s.threads| && s.threads[i].phase.Writing? && n > 0
    requires s.threads[i].phase.done + n <= |s.threads[i].buf|
    ensures var t, th := Wrote(s, i, n), s.threads[i];
            && t.pos <= |t.file| && (t.spoiled ==> t.failed)
            && Holding(t.file, LogBytes(t.log), th.buf, th.phase.done + n, t.spoiled)
            && (!t.spoiled || !s.failed || !th.isTimer ==> t.pos == |t.file|)
  {
    var th := s.threads[i];
    assert HolderOk(s, th, i) && (s.spoiled ==> s.failed);
    WriteSomeBytes(s.file, s.pos, LogBytes(s.log), th.buf, th.phase.done, n, s.spoiled);
  }

  lemma WritePartKeepsInv(s: System, t: System, i: nat, n: nat)
    requires Inv(s) && i < |s.threads| && WritePart(s, t, i, n)
    ensures Inv(t)
  {
    WroteKeepsPart(s, i, n);
    NothingLogged(s, t, i);
  }

  lemma WriteLastKeepsInv(s: System, t: System, i: nat, n: nat)
    requires Inv(s) && i < |s.threads| && WriteLast(s, t, i, n)
    ensures Inv(t)
  {
    var th := s.threads[i];
    WroteKeepsPart(s, i, n);
    assert th.buf[..th.phase.done + n] == th.buf;
    LogBytesOneMore(s.log, Entry(i, th.buf, th.buf));
    PieceLogged(s, t, i, th.buf);
  }

  lemma WriteFailsKeepsInv(s: System, t: System, i: nat)
    requires Inv(s) && i < |s.threads| && WriteFails(s, t, i)
    ensures Inv(t)
  {
    var th := s.threads[i];
    var taken := th.buf[..th.phase.done];
    if th.phase.done == 0 {
      assert LogBytes(s.log) + taken == LogBytes(s.log);
      NothingLogged(s, t, i);
    } else {
      LogBytesOneMore(s.log, Entry(i, th.buf, taken));
      PieceLogged(s, t, i, taken);
    }
  }

  lemma UnlockAfterWriteKeepsInv(s: System, t: System, i: nat)
    requires Inv(s) && i < |s.threads| && UnlockAfterWrite(s, t, i)
    ensures Inv(t)
  {
    NothingLogged(s, t, i);
  }

  lemma LockToReadKeepsInv(s: System, t: System, i: nat)
    requires Inv(s) && i < |s.threads| && LockToRead(s, t, i)
    ensures Inv(t)
  {
    NothingLogged(s, t, i);
  }

  lemma SeekStartKeepsInv(s: System, t: System, i: nat)
    requires Inv(s) && i < |s.threads| && s.threads[i].phase == SeekingStart && SeekToRead(s, t, i)
    ensures Inv(t)
  {
    NothingLogged(s, t, i);
  }

  lemma SeekEndKeepsInv(s: System, t: System, i: nat)
    requires Inv(s) && i < |s.threads| && s.threads[i].phase == SeekingEnd && SeekToRead(s, t, i)
    ensures Inv(t)
  {
    NothingLogged(s, t, i);
  }

  lemma SeekBackKeepsInv(s: System, t: System, i: nat)
    requires Inv(s) && i < |s.threads| && s.threads[i].phase.SeekingBack? && SeekToRead(s, t, i)
    ensures Inv(t)
  {
    NothingLogged(s, t, i);
  }

  lemma ReadSomeKeepsInv(s: System, t: System, i: nat, piece: seq<byte>, ok: bool)
    requires Inv(s) && i < |s.threads| && ReadSome(s, t, i, piece, ok)
    ensures Inv(t)
  {
    var p := s.pos;
    assert s.file[..p] + s.file[p..p + |piece|] == s.file[..p + |piece|];
    assert s.file[..|s.file|] == s.file;
    NothingLogged(s, t, i);
  }

  lemma ReadFailsKeepsInv(s: System, t: System, i: nat)
    requires Inv(s) && i < |s.threads| && ReadFails(s, t, i)
    ensures Inv(t)
  {
    NothingLogged(s, t, i);
  }

  lemma UnlockAfterReadKeepsInv(s: System, t: System, i: nat)
    requires Inv(s) && i < |s.threads| && UnlockAfterRead(s, t, i)
    ensures Inv(t)
  {
    assert s.log[..|s.log|] == s.log;
    NothingLogged(s, t, i);
  }

  lemma WritingKeepsInv(s: System, t: System, i: nat)
    requires Inv(s) && i < |s.threads|
    requires || WritesQuietly(s, t, i) || WriteFails(s, t, i)
             || exists n :: WritePart(s, t, i, n) || WriteLast(s, t, i, n)
    ensures Inv(t)
  {
    if LockToWrite(s, t, i) {
      LockToWriteKeepsInv(s, t, i);
    } else if SeekToWrite(s, t, i) {
      SeekToWriteKeepsInv(s, t, i);
    } else if n :| WritePart(s, t, i, n) {
      WritePartKeepsInv(s, t, i, n);
    } else if n :| WriteLast(s, t, i, n) {
      WriteLastKeepsInv(s, t, i, n);
    } else if WriteFails(s, t, i) {
      WriteFailsKeepsInv(s, t, i);
    } else {
      UnlockAfterWriteKeepsInv(s, t, i);
    }
  }

  lemma ReadingKeepsInv(s: System, t: System, i: nat)
    requires Inv(s) && i < |s.threads|
    requires ReadsQuietly(s, t, i) || ReadFails(s, t, i) || exists piece, ok :: ReadSome(s, t, i, piece, ok)
    ensures Inv(t)
  {
    if LockToRead(s, t, i) {
      LockToReadKeepsInv(s, t, i);
    } else if SeekToRead(s, t, i) {
      match s.threads[i].phase
      case SeekingStart => SeekStartKeepsInv(s, t, i);
      case SeekingEnd => SeekEndKeepsInv(s, t, i);
      case SeekingBack(_) => SeekBackKeepsInv(s, t, i);
    } else if piece, ok :| ReadSome(s, t, i, piece, ok) {
      ReadSomeKeepsInv(s, t, i, piece, ok);
    } else if ReadFails(s, t, i) {
      ReadFailsKeepsInv(s, t, i);
    } else {
      UnlockAfterReadKeepsInv(s, t, i);
    }
  }

  lemma {:induction false} StepKeepsInv(s: System, t: System)
    requires Inv(s) && Step(s, t)
    ensures Inv(t)
  {
    if isTimer, buf :| Enter(s, t, isTimer, buf) {
      EnterKeepsInv(s, t, isTimer, buf);
    } else {
      var i: nat :| i < |s.threads| && ThreadStep(s, t, i);
      if WritesQuietly(s, t, i) || WriteFails(s, t, i) || exists n :: WritePart(s, t, i, n) || WriteLast(s, t, i, n) {
        WritingKeepsInv(s, t, i);
      } else {
        ReadingKeepsInv(s, t, i);
      }
    }
  }

  lemma {:induction false} RunKeepsInv(run: seq<System>)
    requires IsRun(run)
    ensures Inv(run[|run| - 1])
  {
    if |run| > 1 {
      RunKeepsInv(run[..|run| - 1]);
      assert Step(run[|run| - 2], run[|run| - 2 + 1]);
      StepKeepsInv(run[|run| - 2], run[|run| - 1]);
    }
  }

  // ---- Theorems over all runs ----

  ghost function Last(run: seq<System>): System
    requires run != []
  {
    run[|run| - 1]
  }

  /** Whenever the lock is free, the file is what the write calls took, in lock order, exactly if
      none of them started before the end of the file. It is the logged buffers in lock order
      exactly if, besides, no write failed after it took a part of its buffer. */
  lemma LogIntactIff(run: seq<System>)
    requires IsRun(run) && Last(run).lock == None
    ensures Last(run).file == LogBytes(Last(run).log) <==> !Last(run).spoiled
    ensures AllWhole(Last(run).log) <==> !Last(run).cut
    ensures Last(run).file == WholeBytes(Last(run).log) <==> !Last(run).spoiled && !Last(run).cut
  {
    RunKeepsInv(run);
    WholeIff(Last(run).log);
  }

  /** A reply is broken off, by its callback or by a read that fails. */
  ghost predicate ReplyFails(s: System, t: System) {
    exists i: nat :: i < |s.threads| && (ReadFails(s, t, i) || CallbackFails(s, t, i))
  }

  ghost predicate CallbackFails(s: System, t: System, i: nat)
    requires i < |s.threads|
  {
    exists piece :: ReadSome(s, t, i, piece, false)
  }

  ghost predicate SomeReplyFailed(run: seq<System>) {
    exists k :: 0 <= k < |run| - 1 && ReplyFails(run[k], run[k + 1])
  }

  lemma ReplyFailsSets(s: System, t: System)
    requires ReplyFails(s, t)
    ensures t.failed
  {
  }

  lemma FailedThreadStep(s: System, t: System, i: nat)
    requires StepOf(i, s, t)
    ensures s.failed ==> t.failed
    ensures t.failed ==> s.failed || ReadFails(s, t, i) || CallbackFails(s, t, i)
  {
    if piece, ok :| ReadSome(s, t, i, piece, ok) {
      assert t.failed == (s.failed || !ok);
      assert !ok ==> CallbackFails(s, t, i);
    } else if n :| WritePart(s, t, i, n) || WriteLast(s, t, i, n) {
      assert t.failed == Wrote(s, i, n).failed;
    } else if !ReadFails(s, t, i) {
      assert t.failed == s.failed;
    }
  }

  lemma FailedStep(s: System, t: System)
    requires Step(s, t)
    ensures t.failed <==> s.failed || ReplyFails(s, t)
  {
    if ReplyFails(s, t) {
      ReplyFailsSets(s, t);
    } else if i: nat :| i < |s.threads| && ThreadStep(s, t, i) {
      FailedThreadStep(s, t, i);
    }
  }

  lemma {:induction false} FailedIff(run: seq<System>)
    requires IsRun(run)
    ensures Last(run).failed <==> SomeReplyFailed(run)
  {
    if |run| > 1 {
      var init, last := run[..|run| - 1], |run| - 2;
      FailedIff(init);
      assert Step(run[last], run[last + 1]);
      FailedStep(run[last], run[last + 1]);
      if k :| 0 <= k < |init| - 1 && ReplyFails(init[k], init[k + 1]) {
        assert ReplyFails(run[k], run[k + 1]);
      }
      if k :| 0 <= k < |run| - 1 && ReplyFails(run[k], run[k + 1]) {
        assert k == last || ReplyFails(init[k], init[k + 1]);
      }
    }
  }

  /** No write starts before the end of the file unless a reply was broken off: otherwise a free
      lock means that the offset stands at the end. */
  lemma OffsetAtEndUnlessReplyFailed(run: seq<System>)
    requires IsRun(run) && !SomeReplyFailed(run)
    ensures !Last(run).spoiled
    ensures Last(run).lock == None ==>
              Last(run).pos == |Last(run).file| && Last(run).file == LogBytes(Last(run).log)
  {
    FailedIff(run);
    RunKeepsInv(run);
  }

  /** Only a write call raises the flag. */
  lemma SpoilingStep(s: System, t: System, i: nat)
    requires i < |s.threads| && ThreadStep(s, t, i) && !s.spoiled && t.spoiled
    ensures s.threads[i].phase.Writing? && s.pos < |s.file|
  {
    if n :| WritePart(s, t, i, n) || WriteLast(s, t, i, n) {
      assert t.spoiled == Wrote(s, i, n).spoiled;
    } else {
      assert false;
    }
  }

  /** The step with which a write first starts before the end of the file is a timestamp's. */
  lemma OnlyTimestampsSpoil(run: seq<System>, t: System) returns (i: nat)
    requires IsRun(run) && Step(Last(run), t) && !Last(run).spoiled && t.spoiled
    ensures i < |Last(run).threads| && Last(run).lock == Some(i) && Last(run).threads[i].isTimer
    ensures SomeReplyFailed(run) && Last(run).pos < |Last(run).file|
  {
    FailedIff(run);
    RunKeepsInv(run);
    if isTimer, buf :| Enter(Last(run), t, isTimer, buf) {
      assert false;
    }
    i :| i < |Last(run).threads| && ThreadStep(Last(run), t, i);
    SpoilingStep(Last(run), t, i);
    assert HolderOk(Last(run), Last(run).threads[i], i);
  }

  /** The log has at most one entry per thread, a piece of that thread's buffer; a thread that
      finished well, and wrote at all, has one with its whole buffer. */
  lemma LoggedOnce(run: seq<System>, i: nat)
    requires IsRun(run) && i < |Last(run).threads|
    ensures var log, th := Last(run).log, Last(run).threads[i];
            && (forall k, l :: 0 <= k < |log| && 0 <= l < |log| && log[k].owner == log[l].owner ==> k == l)
            && (forall k :: 0 <= k < |log| && log[k].owner == i ==> log[k].buf == th.buf && log[k].taken <= th.buf)
            && (th.phase == Finished(true) && th.buf != [] ==> Entry(i, th.buf, th.buf) in log)
  {
    RunKeepsInv(run);
  }

  /** A complete reply is a prefix of the log that holds the client's own packet; it consists of
      whole buffers unless a write has failed after it took a part of its buffer. */
  lemma ReplyIsLogPrefix(run: seq<System>, i: nat)
    requires IsRun(run) && !Last(run).spoiled && i < |Last(run).threads|
    requires Last(run).threads[i].phase == Finished(true) && !Last(run).threads[i].isTimer
    ensures var s, th := Last(run), Last(run).threads[i];
            && th.mark <= |s.log|
            && th.reply == LogBytes(s.log[..th.mark])
            && (th.buf != [] ==> Entry(i, th.buf, th.buf) in s.log[..th.mark])
            && (!s.cut ==> th.reply == WholeBytes(s.log[..th.mark]))
  {
    RunKeepsInv(run);
    WholeIff(Last(run).log[..Last(run).threads[i].mark]);
  }

  lemma RunGrows(run: seq<System>, t: System) returns (longer: seq<System>)
    requires IsRun(run) && Step(Last(run), t)
    ensures longer == run + [t] && IsRun(longer) && Last(longer) == t
  {
    longer := run + [t];
    forall k | 0 <= k < |longer| - 1 ensures Step(longer[k], longer[k + 1]) {
      if k < |run| - 1 {
        assert Step(run[k], run[k + 1]);
      }
    }
  }

  /** A run can be extended by a step of thread `i`. */
  lemma ThreadMoves(run: seq<System>, i: nat, t: System) returns (longer: seq<System>)
    requires IsRun(run) && i < |Last(run).threads| && ThreadStep(Last(run), t, i)
    ensures longer == run + [t] && IsRun(longer) && Last(longer) == t
  {
    longer := RunGrows(run, t);
  }

  // ---- Who is served ----

  /** The thread has run into a failure. */
  predicate IsBroken(p: Phase) {
    p.WriteFailed? || p.Dropped? || p == Finished(false)
  }

  /** A write, a read or the callback of thread `i` fails. */
  ghost predicate OwnFailure(s: System, t: System, i: nat) {
    && i < |s.threads|
    && (WriteFails(s, t, i) || ReadFails(s, t, i) || exists piece :: ReadSome(s, t, i, piece, false))
  }

  ghost predicate HadFailure(run: seq<System>, i: nat) {
    exists k :: 0 <= k < |run| - 1 && OwnFailure(run[k], run[k + 1], i)
  }

  lemma WriteStepBreaks(s: System, t: System, i: nat, n: nat)
    requires i < |s.threads| && (WritePart(s, t, i, n) || WriteLast(s, t, i, n))
    ensures i < |t.threads| && !IsBroken(t.threads[i].phase) && !IsBroken(s.threads[i].phase)
  {
  }

  lemma ReadStepBreaks(s: System, t: System, i: nat, piece: seq<byte>, ok: bool)
    requires i < |s.threads| && ReadSome(s, t, i, piece, ok)
    ensures i < |t.threads| && (IsBroken(t.threads[i].phase) <==> !ok) && !IsBroken(s.threads[i].phase)
  {
  }

  lemma FailureBreaks(s: System, t: System, i: nat)
    requires OwnFailure(s, t, i)
    ensures i < |t.threads| && IsBroken(t.threads[i].phase)
  {
    if piece :| ReadSome(s, t, i, piece, false) {
      ReadStepBreaks(s, t, i, piece, false);
    }
  }

  /** A step of thread `i` breaks it exactly by failing; once broken it stays so. */
  lemma OwnStepBreaks(s: System, t: System, i: nat)
    requires StepOf(i, s, t)
    ensures i < |t.threads|
    ensures IsBroken(t.threads[i].phase) <==> IsBroken(s.threads[i].phase) || OwnFailure(s, t, i)
  {
    if OwnFailure(s, t, i) {
      FailureBreaks(s, t, i);
    } else if n :| WritePart(s, t, i, n) || WriteLast(s, t, i, n) {
      WriteStepBreaks(s, t, i, n);
    } else if piece, ok :| ReadSome(s, t, i, piece, ok) {
      ReadStepBreaks(s, t, i, piece, ok);
    } else if WritesQuietly(s, t, i) {
      QuietWrite(s, t, i);
    } else {
      QuietRead(s, t, i);
    }
  }

  lemma QuietWrite(s: System, t: System, i: nat)
    requires i < |s.threads| && WritesQuietly(s, t, i)
    ensures i < |t.threads| && (IsBroken(t.threads[i].phase) <==> IsBroken(s.threads[i].phase))
  {
  }

  lemma QuietRead(s: System, t: System, i: nat)
    requires i < |s.threads| && ReadsQuietly(s, t, i)
    ensures i < |t.threads| && (IsBroken(t.threads[i].phase) <==> IsBroken(s.threads[i].phase))
  {
    if UnlockAfterRead(s, t, i) {
      assert t.threads[i].phase == Finished(s.threads[i].phase == Replied);
    } else {
      assert |t.threads| == |s.threads| && !IsBroken(s.threads[i].phase);
    }
  }

  lemma OtherStepKeeps(s: System, t: System, i: nat)
    requires Step(s, t) && i < |t.threads| && !StepOf(i, s, t)
    ensures if i < |s.threads| then t.threads[i] == s.threads[i] else !IsBroken(t.threads[i].phase)
  {
    if isTimer, buf :| Enter(s, t, isTimer, buf) {
    } else {
      var j: nat :| j < |s.threads| && ThreadStep(s, t, j);
      OtherThreadKept(s, t, j, i);
    }
  }

  lemma OtherThreadKept(s: System, t: System, j: nat, i: nat)
    requires StepOf(j, s, t) && i != j
    ensures |t.threads| == |s.threads| && (i < |s.threads| ==> t.threads[i] == s.threads[i])
  {
    if n :| WritePart(s, t, j, n) || WriteLast(s, t, j, n) {
      assert |t.threads| == |Wrote(s, j, n).threads|;
    } else if piece, ok :| ReadSome(s, t, j, piece, ok) {
      assert |t.threads| == |s.threads|;
    } else if WriteFails(s, t, j) || ReadFails(s, t, j) {
      assert |t.threads| == |s.threads|;
    } else {
      QuietStepKeeps(s, t, j, i);
    }
  }

  lemma QuietStepKeeps(s: System, t: System, j: nat, i: nat)
    requires j < |s.threads| && i != j
    requires WritesQuietly(s, t, j) || ReadsQuietly(s, t, j)
    ensures |t.threads| == |s.threads| && (i < |s.threads| ==> t.threads[i] == s.threads[i])
  {
  }

  lemma StepBreaks(s: System, t: System, i: nat)
    requires Step(s, t) && i < |t.threads|
    ensures IsBroken(t.threads[i].phase) <==>
            (i < |s.threads| && IsBroken(s.threads[i].phase)) || OwnFailure(s, t, i)
  {
    if StepOf(i, s, t) {
      OwnStepBreaks(s, t, i);
    } else {
      OtherStepKeeps(s, t, i);
      assert !OwnFailure(s, t, i);
    }
  }

  lemma {:induction false} BrokenIff(run: seq<System>, i: nat)
    requires IsRun(run) && i < |Last(run).threads|
    ensures IsBroken(Last(run).threads[i].phase) <==> HadFailure(run, i)
  {
    if |run| > 1 {
      var init, s, t := run[..|run| - 1], run[|run| - 2], run[|run| - 1];
      assert Step(run[|run| - 2], run[|run| - 2 + 1]);
      FailuresOneMore(run, i);
      if i < |s.threads| {
        BrokenIff(init, i);
      } else {
        NoFailureBefore(init, i);
      }
      StepBreaks(s, t, i);
    }
  }

  lemma FailuresOneMore(run: seq<System>, i: nat)
    requires |run| > 1
    ensures HadFailure(run, i) <==>
            HadFailure(run[..|run| - 1], i) || OwnFailure(run[|run| - 2], run[|run| - 1], i)
  {
    var init := run[..|run| - 1];
    if k :| 0 <= k < |init| - 1 && OwnFailure(init[k], init[k + 1], i) {
      assert OwnFailure(run[k], run[k + 1], i);
    }
    if k :| 0 <= k < |run| - 1 && OwnFailure(run[k], run[k + 1], i) {
      if k < |init| - 1 {
        assert OwnFailure(init[k], init[k + 1], i);
      }
    }
    var last := |run| - 2;
    assert OwnFailure(run[last], run[last + 1], i) ==> HadFailure(run, i);
  }

  /** Threads are never taken away. */
  lemma {:induction false} NoFailureBefore(run: seq<System>, i: nat)
    requires IsRun(run) && i >= |Last(run).threads|
    ensures !HadFailure(run, i)
  {
    if |run| > 1 {
      var s, t := run[|run| - 2], run[|run| - 1];
      assert Step(run[|run| - 2], run[|run| - 2 + 1]);
      ThreadsStay(s, t);
      NoFailureBefore(run[..|run| - 1], i);
      FailuresOneMore(run, i);
    }
  }

  lemma ThreadsStay(s: System, t: System)
    requires Step(s, t)
    ensures |s.threads| <= |t.threads|
  {
    if isTimer, buf :| Enter(s, t, isTimer, buf) {
    } else {
      var j: nat :| j < |s.threads| && ThreadStep(s, t, j);
      OtherThreadKept(s, t, j, j + 1);
    }
  }

  /** A thread that ends has succeeded exactly if none of its own writes, reads and callbacks failed. */
  lemma FinishedWellIff(run: seq<System>, i: nat)
    requires IsRun(run) && i < |Last(run).threads| && Last(run).threads[i].phase.Finished?
    ensures Last(run).threads[i].phase == Finished(true) <==> !HadFailure(run, i)
  {
    BrokenIff(run, i);
  }

  /** `longer` goes on from `run` with steps of thread `i` only. */
  ghost predicate GoesOnBy(run: seq<System>, longer: seq<System>, i: nat) {
    && 0 < |run| <= |longer| && longer[..|run|] == run && IsRun(longer)
    && forall k :: |run| <= k < |longer| ==> StepOf(i, longer[k - 1], longer[k])
  }

  /** One more step of it. */
  lemma GoesOn(run: seq<System>, mid: seq<System>, i: nat, t: System) returns (longer: seq<System>)
    requires GoesOnBy(run, mid, i) && StepOf(i, Last(mid), t)
    ensures GoesOnBy(run, longer, i) && Last(longer) == t
  {
    longer := ThreadMoves(mid, i, t);
    forall k | |run| <= k < |longer| ensures StepOf(i, longer[k - 1], longer[k]) {
      if k < |mid| {
        assert StepOf(i, mid[k - 1], mid[k]);
      }
    }
    assert longer[..|run|] == mid[..|run|];
  }

  /** The state once the thread has appended its buffer. */
  function Appended(s: System, i: nat, p: Phase): System
    requires i < |s.threads|
  {
    var buf := s.threads[i].buf;
    To(s, i, p).(file := s.file + buf, pos := |s.file + buf|, log := s.log + [Entry(i, buf, buf)], lock := None)
  }

  /** The whole buffer is taken by one call, and the lock given back. */
  lemma AppendsAll(run: seq<System>, mid: seq<System>, i: nat, s: System, p: Phase) returns (longer: seq<System>)
    requires GoesOnBy(run, mid, i) && i < |s.threads| && s.threads[i].buf != []
    requires Last(mid) == To(s, i, Writing(0)).(lock := Some(i), pos := |s.file|)
    requires p == if s.threads[i].isTimer then Finished(true) else WantRead
    ensures GoesOnBy(run, longer, i) && Last(longer) == Appended(s, i, p)
  {
    var s1, buf := Last(mid), s.threads[i].buf;
    var s2 := To(Wrote(s1, i, |buf|), i, Written).(log := s.log + [Entry(i, buf, buf)]);
    assert buf[0..|buf|] == buf;
    OverwriteAtEnd(s.file, buf);
    assert WriteLast(s1, s2, i, |buf|);
    longer := GoesOn(run, mid, i, s2);
    longer := GoesOn(run, longer, i, To(s2, i, p).(lock := None));
    assert Last(longer).threads == Appended(s, i, p).threads;
  }

  /** A client that wants to write can append its buffer. */
  lemma ClientCanWrite(run: seq<System>, i: nat) returns (longer: seq<System>)
    requires IsRun(run) && Last(run).lock == None && i < |Last(run).threads|
    requires Last(run).threads[i].phase == WantWrite && !Last(run).threads[i].isTimer
    ensures GoesOnBy(run, longer, i) && Last(longer) == Appended(Last(run), i, WantRead)
  {
    var s := Last(run);
    assert s.threads[i].buf != [] by {
      RunKeepsInv(run);
    }
    var s1 := To(s, i, Seeking).(lock := Some(i));
    longer := GoesOn(run, run, i, s1);
    var s2 := To(s1, i, Writing(0)).(pos := |s.file|);
    assert SeekToWrite(s1, s2, i);
    longer := GoesOn(run, longer, i, s2);
    assert s2.threads == To(s, i, Writing(0)).threads;
    longer := AppendsAll(run, longer, i, s, WantRead);
  }

  /** A timestamp can be appended if the offset stands at the end of the file. */
  lemma TimestampCanBeWritten(run: seq<System>, i: nat) returns (longer: seq<System>)
    requires IsRun(run) && Last(run).lock == None && Last(run).pos == |Last(run).file| && i < |Last(run).threads|
    requires Last(run).threads[i].phase == WantWrite && Last(run).threads[i].isTimer
    ensures GoesOnBy(run, longer, i) && Last(longer) == Appended(Last(run), i, Finished(true))
  {
    var s := Last(run);
    assert s.threads[i].buf != [] by {
      RunKeepsInv(run);
    }
    longer := GoesOn(run, run, i, To(s, i, Writing(0)).(lock := Some(i)));
    longer := AppendsAll(run, longer, i, s, Finished(true));
  }

  /** The state once the thread has been handed the whole file. */
  function Received(s: System, i: nat, p: Phase, lock: Option<nat>): System
    requires i < |s.threads|
  {
    s.(pos := |s.file|, lock := lock, threads := s.threads[i := s.threads[i].(phase := p, reply := s.file)])
  }

  /** One read call takes as much as it may, and its callback succeeds. */
  function ReadOn(s: System, i: nat): System
    requires i < |s.threads| && s.threads[i].phase.Reading? && s.pos <= |s.file|
  {
    var th := s.threads[i];
    var n := Min(|s.file| - s.pos, CLIENT_BUFFER_SIZE);
    var reply := th.reply + s.file[s.pos..s.pos + n];
    s.(pos := s.pos + n,
       threads := s.threads[i := th.(phase := if |reply| < th.phase.end then th.phase else Replied, reply := reply)])
  }

  /** A reader has so far been handed what lies before the offset. */
  ghost predicate ReadsOn(s: System, i: nat) {
    && i < |s.threads| && s.threads[i].phase == Reading(|s.file|)
    && s.pos <= |s.file| && s.threads[i].reply == s.file[..s.pos]
  }

  lemma ReaderReadsOn(s: System, i: nat)
    requires Inv(s) && i < |s.threads| && s.threads[i].phase.Reading?
    ensures ReadsOn(s, i)
  {
    assert HolderOk(s, s.threads[i], i);
  }

  lemma ReadOnIsStep(s: System, i: nat)
    requires ReadsOn(s, i)
    ensures StepOf(i, s, ReadOn(s, i))
  {
    var n := Min(|s.file| - s.pos, CLIENT_BUFFER_SIZE);
    assert ReadSome(s, ReadOn(s, i), i, s.file[s.pos..s.pos + n], true);
  }

  lemma ReadOnGetsOn(s: System, i: nat)
    requires ReadsOn(s, i)
    ensures var t := ReadOn(s, i);
            if s.pos + CLIENT_BUFFER_SIZE < |s.file|
            then t.threads[i].phase.Reading? && t.pos > s.pos
                 && Received(t, i, Replied, Some(i)) == Received(s, i, Replied, Some(i))
            else t.(lock := Some(i)) == Received(s, i, Replied, Some(i))
  {
    var n := Min(|s.file| - s.pos, CLIENT_BUFFER_SIZE);
    assert s.file[..s.pos] + s.file[s.pos..s.pos + n] == s.file[..s.pos + n];
    assert s.file[..|s.file|] == s.file;
  }

  lemma {:induction false} ReadsToEnd(run: seq<System>, mid: seq<System>, i: nat) returns (longer: seq<System>)
    requires GoesOnBy(run, mid, i) && i < |Last(mid).threads| && Last(mid).threads[i].phase.Reading?
    ensures GoesOnBy(run, longer, i) && Last(longer) == Received(Last(mid), i, Replied, Some(i))
    decreases |Last(mid).file| - Last(mid).pos
  {
    var s := Last(mid);
    assert ReadsOn(s, i) && s.lock == Some(i) by {
      RunKeepsInv(mid);
      ReaderReadsOn(s, i);
    }
    ReadOnIsStep(s, i);
    ReadOnGetsOn(s, i);
    longer := GoesOn(run, mid, i, ReadOn(s, i));
    if s.pos + CLIENT_BUFFER_SIZE < |s.file| {
      longer := ReadsToEnd(run, longer, i);
    }
  }

  /** A client that wants to read can receive the whole file. */
  lemma ClientCanRead(run: seq<System>, mid: seq<System>, i: nat) returns (longer: seq<System>)
    requires GoesOnBy(run, mid, i) && Last(mid).lock == None && i < |Last(mid).threads|
    requires Last(mid).threads[i].phase == WantRead
    ensures GoesOnBy(run, longer, i)
    ensures var s := Last(mid);
            var marked := s.(threads := s.threads[i := s.threads[i].(mark := |s.log|)]);
            Last(longer) == Received(marked, i, Finished(true), None)
  {
    var s := Last(mid);
    var s1 := s.(lock := Some(i), threads := s.threads[i := s.threads[i].(phase := SeekingStart, mark := |s.log|)]);
    longer := GoesOn(run, mid, i, s1);
    var s2 := To(s1, i, SeekingEnd).(pos := 0);
    assert SeekToRead(s1, s2, i);
    longer := GoesOn(run, longer, i, s2);
    var s3 := To(s2, i, SeekingBack(|s.file|)).(pos := |s.file|);
    assert SeekToRead(s2, s3, i);
    longer := GoesOn(run, longer, i, s3);
    var s4 := To(s3, i, Reading(|s.file|)).(pos := 0);
    assert SeekToRead(s3, s4, i);
    longer := GoesOn(run, longer, i, s4);
    longer := ReadsToEnd(run, longer, i);
    var s5 := Last(longer);
    longer := GoesOn(run, longer, i, To(s5, i, Finished(true)).(lock := None));
  }

  /** From every run that ends with a free lock, a client that waits can be served to the end by its own
      steps alone. Its reply is then the whole file, with its packet at the end if it had one to write,
      and the log unless a write has spoiled that. */
  lemma ClientCanBeServed(run: seq<System>, i: nat) returns (longer: seq<System>)
    requires IsRun(run) && Last(run).lock == None && i < |Last(run).threads| && !Last(run).threads[i].isTimer
    requires Last(run).threads[i].phase == WantWrite || Last(run).threads[i].phase == WantRead
    ensures GoesOnBy(run, longer, i)
    ensures var s, t := Last(run), Last(longer);
            && i < |t.threads| && t.lock == None
            && t.file == s.file + (if s.threads[i].phase == WantWrite then s.threads[i].buf else [])
            && t.threads == s.threads[i := t.threads[i]]
            && t.threads[i].phase == Finished(true) && t.threads[i].buf == s.threads[i].buf
            && t.threads[i].reply == t.file
            && (!s.spoiled ==> !t.spoiled && t.threads[i].reply == LogBytes(t.log))
  {
    longer := run;
    if Last(run).threads[i].phase == WantWrite {
      longer := ClientCanWrite(run, i);
    }
    longer := ClientCanRead(run, longer, i);
    LogIntactIff(longer);
  }

  /** So can a new one, whatever its packet. */
  lemma NewClientCanBeServed(run: seq<System>, buf: seq<byte>) returns (longer: seq<System>)
    requires IsRun(run) && Last(run).lock == None
    ensures IsRun(longer) && |run| <= |longer| && longer[..|run|] == run && Last(longer).lock == None
    ensures var s, t, i := Last(run), Last(longer), |Last(run).threads|;
            && |t.threads| == i + 1 && t.threads[..i] == s.threads && t.threads[i].buf == buf
            && t.threads[i].phase == Finished(true)
            && t.threads[i].reply == t.file == s.file + buf
  {
    var s, i := Last(run), |Last(run).threads|;
    var t := s.(threads := s.threads + [Thread(false, buf, if buf == [] then WantRead else WantWrite, [], 0)]);
    assert Enter(s, t, false, buf);
    var entered := RunGrows(run, t);
    longer := ClientCanBeServed(entered, i);
    assert longer[..|run|] == longer[..|entered|][..|run|];
  }

  // ---- Timestamps and the offset ----

  /** `longer` goes on from `run` with a new timestamp, the steps of its thread, and nothing else. */
  ghost predicate AddsTimestamp(run: seq<System>, longer: seq<System>)
    requires run != []
  {
    && |longer| > |run| && longer[..|run|] == run
    && EntersTimestamp(Last(run), longer[|run|])
    && forall k :: |run| <= k < |longer| - 1 ==> StepOf(|Last(run).threads|, longer[k], longer[k + 1])
  }

  ghost predicate EntersTimestamp(s: System, t: System) {
    exists buf :: Enter(s, t, true, buf)
  }

  /** What is left of a run whose last step is taken back. */
  lemma AddsTimestampBefore(run: seq<System>, longer: seq<System>)
    requires IsRun(run) && AddsTimestamp(run, longer) && |longer| > |run| + 1
    ensures AddsTimestamp(run, longer[..|longer| - 1])
    ensures StepOf(|Last(run).threads|, longer[|longer| - 2], longer[|longer| - 1])
  {
    var shorter := longer[..|longer| - 1];
    assert shorter[..|run|] == run;
    forall k | |run| <= k < |shorter| - 1 ensures StepOf(|Last(run).threads|, shorter[k], shorter[k + 1]) {
      assert StepOf(|Last(run).threads|, longer[k], longer[k + 1]);
    }
    var k := |longer| - 2;
    assert StepOf(|Last(run).threads|, longer[k], longer[k + 1]);
  }

  /** A timestamp on its way, the offset at the end of the file. */
  ghost predicate TimestampAtEnd(s: System, i: nat) {
    i < |s.threads| && s.threads[i].isTimer && !s.spoiled && s.pos == |s.file|
  }

  lemma WriteStaysAtEnd(s: System, t: System, i: nat, n: nat)
    requires TimestampAtEnd(s, i) && (WritePart(s, t, i, n) || WriteLast(s, t, i, n))
    ensures TimestampAtEnd(t, i)
  {
    var th := s.threads[i];
    OverwriteLength(s.file, s.pos, th.buf[th.phase.done..th.phase.done + n]);
  }

  /** The thread of a timestamp keeps the offset at the end of the file. */
  lemma TimestampStaysAtEnd(s: System, t: System, i: nat)
    requires TimestampAtEnd(s, i) && ThreadOk(s.threads[i], i, s.log, s.spoiled) && ThreadStep(s, t, i)
    ensures TimestampAtEnd(t, i)
  {
    var th := s.threads[i];
    if n :| WritePart(s, t, i, n) || WriteLast(s, t, i, n) {
      WriteStaysAtEnd(s, t, i, n);
    } else {
      assert t.file == s.file && t.pos == s.pos && t.spoiled == s.spoiled && t.threads[i].isTimer;
    }
  }

  lemma TimestampMovesAtEnd(run: seq<System>, t: System, i: nat)
    requires IsRun(run) && TimestampAtEnd(Last(run), i) && StepOf(i, Last(run), t)
    ensures IsRun(run + [t]) && TimestampAtEnd(t, i)
  {
    RunKeepsInv(run);
    TimestampStaysAtEnd(Last(run), t, i);
    var more := ThreadMoves(run, i, t);
  }

  lemma TimestampStartsAtEnd(run: seq<System>, t: System)
    requires IsRun(run) && EntersTimestamp(Last(run), t) && !Last(run).spoiled && Last(run).pos == |Last(run).file|
    ensures IsRun(run + [t]) && TimestampAtEnd(t, |Last(run).threads|)
  {
    var more := RunGrows(run, t);
  }

  lemma {:induction false} TimestampRunStaysAtEnd(run: seq<System>, longer: seq<System>)
    requires IsRun(run) && Last(run).lock == None && !Last(run).spoiled && Last(run).pos == |Last(run).file|
    requires AddsTimestamp(run, longer)
    ensures IsRun(longer) && TimestampAtEnd(Last(longer), |Last(run).threads|)
    decreases |longer|
  {
    var shorter, t := longer[..|longer| - 1], longer[|longer| - 1];
    assert longer == shorter + [t];
    if |longer| == |run| + 1 {
      TimestampStartsAtEnd(run, t);
    } else {
      AddsTimestampBefore(run, longer);
      TimestampRunStaysAtEnd(run, shorter);
      TimestampMovesAtEnd(shorter, t, |Last(run).threads|);
    }
  }

  /** Wherever the lock is free and the offset inside the file, the next timestamp destroys logged bytes. */
  lemma StrayOffsetCanSpoil(run: seq<System>) returns (longer: seq<System>)
    requires IsRun(run) && Last(run).lock == None && Last(run).pos < |Last(run).file|
    ensures IsRun(longer) && AddsTimestamp(run, longer) && |longer| == |run| + 4
    ensures |Last(longer).threads| == |Last(run).threads| + 1
    ensures Last(longer).threads[..|Last(run).threads|] == Last(run).threads
    ensures Last(longer).threads[|Last(run).threads|].isTimer
    ensures Last(longer).lock == None && Last(longer).file != LogBytes(Last(longer).log)
  {
    var s0 := Last(run);
    var i := |s0.threads|;
    var s1 := s0.(threads := s0.threads + [Thread(true, [116], WantWrite, [], 0)]);
    assert Enter(s0, s1, true, [116]);
    longer := RunGrows(run, s1);
    assert EntersTimestamp(s0, s1);
    var s2 := To(s1, i, Writing(0)).(lock := Some(i));
    longer := ThreadMoves(longer, i, s2);
    var s3 := To(Wrote(s2, i, 1), i, Written).(log := s2.log + [Entry(i, [116], [116])]);
    assert WriteLast(s2, s3, i, 1);
    longer := ThreadMoves(longer, i, s3);
    var s4 := To(s3, i, Finished(true)).(lock := None);
    longer := ThreadMoves(longer, i, s4);
    assert longer == run + [s1, s2, s3, s4];
    assert StepOf(i, s1, s2) && StepOf(i, s2, s3) && StepOf(i, s3, s4);
    LogIntactIff(longer);
  }

  /** So from an intact log with the lock free, a timestamp alone can destroy logged bytes exactly if
      the offset stands inside the file. */
  lemma TimestampCanSpoilIff(run: seq<System>)
    requires IsRun(run) && Last(run).lock == None && Last(run).file == LogBytes(Last(run).log)
    ensures (exists longer :: AddsTimestamp(run, longer) && Last(longer).lock == None
                              && Last(longer).file != LogBytes(Last(longer).log))
       <==> Last(run).pos < |Last(run).file|
  {
    LogIntactIff(run);
    RunKeepsInv(run);
    if Last(run).pos < |Last(run).file| {
      var longer := StrayOffsetCanSpoil(run);
    } else {
      forall longer | AddsTimestamp(run, longer) && Last(longer).lock == None
        ensures Last(longer).file == LogBytes(Last(longer).log)
      {
        TimestampRunStaysAtEnd(run, longer);
        LogIntactIff(longer);
      }
    }
  }

  lemma FirstWrite(buf: seq<byte>, n: nat)
    requires n <= |buf|
    ensures Overwrite([], 0, buf[0..n]) == buf[..n]
  {
    OverwriteAtEnd([], buf[..n]);
  }

  /** A client is about to write "ab". */
  lemma SomeClientWrites() returns (run: seq<System>)
    ensures IsRun(run)
    ensures Last(run) == System([], 0, Some(0), [Thread(false, [97, 98], Writing(0), [], 0)], [], false, false, false)
  {
    var s0 := INITIAL.(threads := [Thread(false, [97, 98], WantWrite, [], 0)]);
    assert Enter(INITIAL, s0, false, [97, 98]);
    run := RunGrows([INITIAL], s0);
    var s1 := To(s0, 0, Seeking).(lock := Some(0));
    run := ThreadMoves(run, 0, s1);
    run := ThreadMoves(run, 0, To(s1, 0, Writing(0)).(pos := 0));
  }

  /** It has logged "ab" and waits to read it back. */
  lemma SomeClientWaits() returns (run: seq<System>)
    ensures IsRun(run)
    ensures Last(run) == System([97, 98], 2, None, [Thread(false, [97, 98], WantRead, [], 0)],
                                [Entry(0, [97, 98], [97, 98])], false, false, false)
  {
    run := SomeClientWrites();
    var s0 := Last(run);
    var s1 := To(Wrote(s0, 0, 2), 0, Written).(log := s0.log + [Entry(0, [97, 98], [97, 98])]);
    FirstWrite([97, 98], 2);
    assert WriteLast(s0, s1, 0, 2);
    run := ThreadMoves(run, 0, s1);
    run := ThreadMoves(run, 0, To(s1, 0, WantRead).(lock := None));
  }

  /** It has the lock and is about to read. */
  lemma SomeClientReads() returns (run: seq<System>)
    ensures IsRun(run)
    ensures Last(run) == System([97, 98], 0, Some(0), [Thread(false, [97, 98], Reading(2), [], 1)],
                                [Entry(0, [97, 98], [97, 98])], false, false, false)
  {
    run := SomeClientWaits();
    var s0 := Last(run);
    var s1 := s0.(lock := Some(0), threads := s0.threads[0 := s0.threads[0].(phase := SeekingStart, mark := 1)]);
    run := ThreadMoves(run, 0, s1);
    var s2 := To(s1, 0, SeekingEnd).(pos := 0);
    run := ThreadMoves(run, 0, s2);
    var s3 := To(s2, 0, SeekingBack(2)).(pos := 2);
    run := ThreadMoves(run, 0, s3);
    run := ThreadMoves(run, 0, To(s3, 0, Reading(2)).(pos := 0));
  }

  /** Either failure can spoil the log. First, step `k` is a callback that fails on its first byte. */
  lemma CallbackFailureCanSpoil() returns (run: seq<System>, k: nat)
    ensures IsRun(run) && k + 1 < |run| && |run[k].threads| > 0
    ensures !run[k].failed && ReadSome(run[k], run[k + 1], 0, [97], false)
    ensures Last(run).lock == None && Last(run).file != LogBytes(Last(run).log)
  {
    run := SomeClientReads();
    k := |run| - 1;
    var s0 := Last(run);
    var reader := s0.threads[0];
    assert reader.reply + [97] == [97];
    var s1 := s0.(pos := 1, failed := true, threads := s0.threads[0 := reader.(phase := Dropped, reply := [97])]);
    assert IsRead(s0.file, 0, 2, [97]);
    assert ReadSome(s0, s1, 0, [97], false);
    run := ThreadMoves(run, 0, s1);
    run := ThreadMoves(run, 0, To(s1, 0, Finished(false)).(lock := None));
    var dropped := run;
    run := StrayOffsetCanSpoil(run);
    assert run[k] == dropped[k] == s0 && run[k + 1] == dropped[k + 1] == s1;
  }

  /** Second, step `k` is a read that fails. */
  lemma ReadFailureCanSpoil() returns (run: seq<System>, k: nat)
    ensures IsRun(run) && k + 1 < |run| && |run[k].threads| > 0
    ensures !run[k].failed && ReadFails(run[k], run[k + 1], 0)
    ensures Last(run).lock == None && Last(run).file != LogBytes(Last(run).log)
  {
    run := SomeClientReads();
    k := |run| - 1;
    var s0 := Last(run);
    var s1 := To(s0, 0, Dropped).(failed := true);
    assert ReadFails(s0, s1, 0);
    run := ThreadMoves(run, 0, s1);
    run := ThreadMoves(run, 0, To(s1, 0, Finished(false)).(lock := None));
    var dropped := run;
    run := StrayOffsetCanSpoil(run);
    assert run[k] == dropped[k] == s0 && run[k + 1] == dropped[k + 1] == s1;
  }

  /** Its first `write` call takes only the "a". */
  lemma SomeWriteIsShort() returns (run: seq<System>)
    ensures IsRun(run)
    ensures Last(run) == System([97], 1, Some(0), [Thread(false, [97, 98], Writing(1), [], 0)], [], false, false, false)
  {
    run := SomeClientWrites();
    var s0 := Last(run);
    var s1 := To(Wrote(s0, 0, 1), 0, Writing(1));
    FirstWrite([97, 98], 1);
    assert [97, 98][..1] == [97];
    assert WritePart(s0, s1, 0, 1);
    run := ThreadMoves(run, 0, s1);
  }

  /** A write that fails after that leaves "a" in the log, though no offset ever strayed. */
  lemma WriteFailureCanCut() returns (run: seq<System>)
    ensures IsRun(run)
    ensures Last(run).lock == None && !Last(run).spoiled && !Last(run).failed
    ensures Last(run).file != WholeBytes(Last(run).log)
  {
    run := SomeWriteIsShort();
    var s0 := Last(run);
    assert [97, 98][..1] == [97];
    var s1 := To(s0, 0, WriteFailed).(log := s0.log + [Entry(0, [97, 98], [97])], cut := true);
    assert WriteFails(s0, s1, 0);
    run := ThreadMoves(run, 0, s1);
    run := ThreadMoves(run, 0, To(s1, 0, Finished(false)).(lock := None));
    LogIntactIff(run);
  }
}

// Concurrent writers. Each takes the device's write lock once per fragment, so
// fragments of different writers interleave in the shared cache and ring.
module Writers {
  import opened Bytes
  import opened CommandLog

  /** A call of `aesd_write` in progress: its first `next` fragments are committed. */
  datatype Writer = Writer(data: seq<byte>, next: nat)

  datatype Event = Event(writer: nat, fragment: seq<byte>)

  /** `log` records the critical sections in the order in which they took the lock. */
  datatype System = System(dev: DevState, writers: seq<Writer>, log: seq<Event>)

  const INITIAL := System(EMPTY_DEVICE, [], [])

  /** A writer enters with a private copy of its buffer. */
  ghost predicate Enter(s: System, t: System, data: seq<byte>) {
    data != [] && t == s.(writers := s.writers + [Writer(data, 0)])
  }

  /** Writer `i` commits its next fragment. */
  ghost predicate CommitNext(n: nat, s: System, t: System, i: nat) {
    && i < |s.writers|
    && var w := s.writers[i];
       && w.next < |Fragments(w.data)|
       && var f := Fragments(w.data)[w.next];
          t == System(Commit(n, s.dev, f), s.writers[i := w.(next := w.next + 1)], s.log + [Event(i, f)])
  }

  ghost predicate Step(n: nat, s: System, t: System) {
    (exists data :: Enter(s, t, data)) || (exists i :: CommitNext(n, s, t, i))
  }

  ghost predicate IsRun(n: nat, run: seq<System>) {
    && run != [] && run[0] == INITIAL
    && forall k :: 0 <= k < |run| - 1 ==> Step(n, run[k], run[k + 1])
  }

  function FragmentsOf(log: seq<Event>): seq<seq<byte>> {
    seq(|log|, k requires 0 <= k < |log| => log[k].fragment)
  }

  /** The fragments of one writer, in commit order. */
  function By(log: seq<Event>, i: nat): seq<seq<byte>> {
    if log == [] then []
    else
      var init, last := log[..|log| - 1], log[|log| - 1];
      if last.writer == i then By(init, i) + [last.fragment] else By(init, i)
  }

  ghost predicate Inv(n: nat, s: System) {
    && (forall k :: 0 <= k < |s.log| ==>
          && s.log[k].writer < |s.writers|
          && IsFragment(s.log[k].fragment)
          && s.log[k].fragment in Fragments(s.writers[s.log[k].writer].data))
    && (forall i :: 0 <= i < |s.writers| ==>
          && s.writers[i].next <= |Fragments(s.writers[i].data)|
          && By(s.log, i) == Fragments(s.writers[i].data)[..s.writers[i].next])
    && s.dev == CommitAll(n, EMPTY_DEVICE, FragmentsOf(s.log))
  }

  lemma {:induction false} ByNoOne(log: seq<Event>, i: nat)
    requires forall k :: 0 <= k < |log| ==> log[k].writer < i
    ensures By(log, i) == []
  {
    if log != [] {
      ByNoOne(log[..|log| - 1], i);
    }
  }

  lemma EnterKeepsInv(n: nat, s: System, t: System, data: seq<byte>)
    requires Inv(n, s) && Enter(s, t, data)
    ensures Inv(n, t)
  {
    ByNoOne(s.log, |s.writers|);
    assert Fragments(data)[..0] == [];
  }

  lemma CommitKeepsInv(n: nat, s: System, t: System, i: nat)
    requires Inv(n, s) && CommitNext(n, s, t, i)
    ensures Inv(n, t)
  {
    var w := s.writers[i];
    var frags := Fragments(w.data);
    var e := Event(i, frags[w.next]);
    FragmentsCover(w.data);
    assert t.log[..|t.log| - 1] == s.log;
    assert frags[..w.next + 1] == frags[..w.next] + [frags[w.next]];
    var all := FragmentsOf(t.log);
    assert all[..|all| - 1] == FragmentsOf(s.log) && all[|all| - 1] == e.fragment;
  }

  lemma {:induction false} RunKeepsInv(n: nat, run: seq<System>)
    requires IsRun(n, run)
    ensures Inv(n, run[|run| - 1])
  {
    if |run| == 1 {
      assert FragmentsOf(INITIAL.log) == [];
    } else {
      var s, t := run[|run| - 2], run[|run| - 1];
      RunKeepsInv(n, run[..|run| - 1]);
      assert Step(n, run[|run| - 2], run[|run| - 2 + 1]);
      if data :| Enter(s, t, data) {
        EnterKeepsInv(n, s, t, data);
      } else {
        var i :| CommitNext(n, s, t, i);
        CommitKeepsInv(n, s, t, i);
      }
    }
  }

  /** Every interleaving is a sequential run of the fragments in commit order: the device
      holds the last commands of the committed stream, each with its one newline at the end. */
  lemma InterleavingIsSequential(n: nat, run: seq<System>)
    requires IsRun(n, run)
    ensures var s := run[|run| - 1];
            && s.dev == CommitAll(n, EMPTY_DEVICE, FragmentsOf(s.log))
            && s.dev == Observed(n, Flat(FragmentsOf(s.log)))
            && AllCommands(s.dev.cmds) && NoNewline(s.dev.cache)
  {
    var s := run[|run| - 1];
    RunKeepsInv(n, run);
    var frags := FragmentsOf(s.log);
    CommitAllExtendsStream(n, [], frags);
    assert Observed(n, []) == EMPTY_DEVICE;
    assert [] + Flat(frags) == Flat(frags);
    StreamIsConserved(n, Flat(frags));
  }

  /** No writer's bytes are lost, repeated or reordered, whatever the others do. */
  lemma WriterIsServed(n: nat, run: seq<System>, i: nat)
    requires IsRun(n, run)
    requires i < |run[|run| - 1].writers|
    ensures var s := run[|run| - 1];
            var w := s.writers[i];
            && By(s.log, i) <= Fragments(w.data)
            && (w.next == |Fragments(w.data)| ==> Flat(By(s.log, i)) == w.data)
  {
    RunKeepsInv(n, run);
    var s := run[|run| - 1];
    var w := s.writers[i];
    FragmentsCover(w.data);
    assert Fragments(w.data)[..|Fragments(w.data)|] == Fragments(w.data);
  }

  /** Writers that write one whole line per call are not mixed: the ring holds whole buffers. */
  lemma WholeLinesStayWhole(n: nat, run: seq<System>)
    requires IsRun(n, run)
    requires forall w :: w in run[|run| - 1].writers ==> IsCommand(w.data)
    ensures var s := run[|run| - 1];
            && s.dev == DevState(LastN(FragmentsOf(s.log), n), [])
            && forall k :: 0 <= k < |s.log| ==>
                 s.log[k].writer < |s.writers| && s.log[k].fragment == s.writers[s.log[k].writer].data
  {
    var s := run[|run| - 1];
    RunKeepsInv(n, run);
    InterleavingIsSequential(n, run);
    var frags := FragmentsOf(s.log);
    forall k | 0 <= k < |s.log| ensures s.log[k].fragment == s.writers[s.log[k].writer].data {
      var data := s.writers[s.log[k].writer].data;
      assert s.writers[s.log[k].writer] in s.writers;
      CutOfCommand(data);
      assert Fragments(data) == [data];
    }
    CutCharacterised(Flat(frags), frags, []);
  }

  /** A writer can commit all its fragments, whatever the others have done. */
  lemma {:induction false} WriterCanFinish(n: nat, run: seq<System>, i: nat) returns (longer: seq<System>)
    requires IsRun(n, run) && i < |run[|run| - 1].writers|
    ensures IsRun(n, longer) && |run| <= |longer| && longer[..|run|] == run
    ensures var s, t := run[|run| - 1], longer[|longer| - 1];
            var frags := Fragments(s.writers[i].data);
            && s.writers[i].next <= |frags|
            && t.writers == s.writers[i := s.writers[i].(next := |frags|)]
            && FragmentsOf(t.log) == FragmentsOf(s.log) + frags[s.writers[i].next..]
    decreases |Fragments(run[|run| - 1].writers[i].data)| - run[|run| - 1].writers[i].next
  {
    RunKeepsInv(n, run);
    longer := run;
    var s := run[|run| - 1];
    var w, frags := s.writers[i], Fragments(s.writers[i].data);
    if w.next < |frags| {
      var f := frags[w.next];
      var t := System(Commit(n, s.dev, f), s.writers[i := w.(next := w.next + 1)], s.log + [Event(i, f)]);
      assert CommitNext(n, s, t, i);
      longer := RunGrows(n, run, t);
      longer := WriterCanFinish(n, longer, i);
      assert frags[w.next..] == [f] + frags[w.next + 1..];
      assert FragmentsOf(t.log) == FragmentsOf(s.log) + [f];
      assert longer[..|run|] == longer[..|run| + 1][..|run|];
    }
  }

  /** So can a new one, with any data. */
  lemma NewWriterCanFinish(n: nat, run: seq<System>, data: seq<byte>) returns (longer: seq<System>)
    requires IsRun(n, run) && data != []
    ensures IsRun(n, longer) && |run| <= |longer| && longer[..|run|] == run
    ensures var s, t := run[|run| - 1], longer[|longer| - 1];
            && t.writers == s.writers + [Writer(data, |Fragments(data)|)]
            && FragmentsOf(t.log) == FragmentsOf(s.log) + Fragments(data)
  {
    var s, i := run[|run| - 1], |run[|run| - 1].writers|;
    var t := s.(writers := s.writers + [Writer(data, 0)]);
    assert Enter(s, t, data);
    longer := RunGrows(n, run, t);
    longer := WriterCanFinish(n, longer, i);
    assert longer[..|run|] == longer[..|run| + 1][..|run|];
    assert Fragments(data)[0..] == Fragments(data);
  }

  lemma RunGrows(n: nat, run: seq<System>, t: System) returns (longer: seq<System>)
    requires IsRun(n, run) && Step(n, run[|run| - 1], t)
    ensures longer == run + [t] && IsRun(n, longer)
  {
    longer := run + [t];
    forall k | 0 <= k < |longer| - 1 ensures Step(n, longer[k], longer[k + 1]) {
      if k < |run| - 1 {
        assert Step(n, run[k], run[k + 1]);
      }
    }
  }
}

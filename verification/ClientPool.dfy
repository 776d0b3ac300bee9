// The server's pool of client slots: the main thread scans the slots one by one for a
// finished client, joins its worker and reuses the slot, or appends a new slot, while
// the workers publish their status at any moment.
module ClientPool {
  import opened Bytes
  import opened ClientHandler

  /** The fields of a slot: `client` stands for the socket and address of one accepted client. */
  datatype Slot = Slot(status: ClientStatus, thread: Option<nat>, client: nat)

  datatype Phase = Created | Running | Stored | Exited

  /** A thread works on the slot it was created with. */
  datatype Worker = Worker(slot: nat, phase: Phase, joins: nat)

  /** Where the main thread stands in `run_server` and `server_exit`. */
  datatype Main =
    | Idle
    | Scanning(next: nat)
    | Joining(slot: nat)
    | Initializing(slot: nat)
    | Creating(slot: nat)
    | Exiting(next: nat)
    | Stopped

  /** `accepted` counts clients; `unfinished` tells which slots were unfinished when the last scan
      began; `peak` is the largest number of outstanding clients so far. */
  datatype System = System(
    slots: seq<Slot>,
    workers: seq<Worker>,
    main: Main,
    accepted: nat,
    unfinished: seq<bool>,
    peak: nat)

  const INITIAL := System([], [], Idle, 0, [], 0)

  function CountUnfinished(slots: seq<Slot>): nat {
    if slots == [] then 0
    else
      var rest, last := slots[..|slots| - 1], slots[|slots| - 1];
      CountUnfinished(rest) + if IsProcessed(last.status) then 0 else 1
  }

  /** Clients accepted and not yet served: those in unfinished slots, and the one the main thread holds. */
  function Outstanding(s: System): nat {
    CountUnfinished(s.slots) + if s.main.Scanning? || s.main.Joining? || s.main.Initializing? then 1 else 0
  }

  /** The state with its peak brought up to date. */
  function WithPeak(s: System): System {
    s.(peak := if Outstanding(s) > s.peak then Outstanding(s) else s.peak)
  }

  // ---- Steps of the main thread ----

  ghost predicate Accept(s: System, t: System) {
    && s.main == Idle
    && t == WithPeak(s.(main := Scanning(0),
                        accepted := s.accepted + 1,
                        unfinished := seq(|s.slots|, i requires 0 <= i < |s.slots| => !IsProcessed(s.slots[i].status))))
  }

  /** `find_processed_client` on one slot. */
  ghost predicate ScanOne(s: System, t: System) {
    && s.main.Scanning? && s.main.next < |s.slots|
    && var i := s.main.next;
       t == WithPeak(s.(main := if IsProcessed(s.slots[i].status) then Joining(i) else Scanning(i + 1)))
  }

  /** No slot was found finished: a new one is appended and filled. */
  ghost predicate Append(s: System, t: System) {
    && s.main == Scanning(|s.slots|) && s.accepted > 0
    && t == WithPeak(s.(main := Creating(|s.slots|),
                        slots := s.slots + [Slot(UnknownStatus, None, s.accepted - 1)]))
  }

  /** `pthread_join` returns once the thread has exited. */
  ghost predicate JoinFound(s: System, t: System) {
    && s.main.Joining? && s.main.slot < |s.slots|
    && s.slots[s.main.slot].thread.Some?
    && var w := s.slots[s.main.slot].thread.value;
       && w < |s.workers| && s.workers[w].phase == Exited
       && t == WithPeak(Joined(s, w).(main := Initializing(s.main.slot)))
  }

  /** `init_client` rewrites the slot for the accepted client. */
  ghost predicate Initialize(s: System, t: System) {
    && s.main.Initializing? && s.main.slot < |s.slots| && s.accepted > 0
    && var i := s.main.slot;
       t == WithPeak(s.(main := Creating(i),
                        slots := s.slots[i := s.slots[i].(status := UnknownStatus, client := s.accepted - 1)]))
  }

  /** `pthread_create`. */
  ghost predicate CreateThread(s: System, t: System) {
    && s.main.Creating? && s.main.slot < |s.slots|
    && var i := s.main.slot;
       t == WithPeak(s.(main := Idle,
                        slots := s.slots[i := s.slots[i].(thread := Some(|s.workers|))],
                        workers := s.workers + [Worker(i, Created, 0)]))
  }

  ghost predicate Signal(s: System, t: System) {
    s.main == Idle && t == WithPeak(s.(main := Exiting(0)))
  }

  /** `join_client_thread` on one slot, or the end of the list. */
  ghost predicate ExitOne(s: System, t: System) {
    && s.main.Exiting?
    && var i := s.main.next;
       if i < |s.slots| then
         && s.slots[i].thread.Some?
         && var w := s.slots[i].thread.value;
            && w < |s.workers| && s.workers[w].phase == Exited
            && t == WithPeak(Joined(s, w).(main := Exiting(i + 1)))
       else t == WithPeak(s.(main := Stopped))
  }

  function Joined(s: System, w: nat): System
    requires w < |s.workers|
  {
    s.(workers := s.workers[w := s.workers[w].(joins := s.workers[w].joins + 1)])
  }

  // ---- Steps of worker `w` ----

  /** A store to the status of the worker's slot. */
  function Published(s: System, w: nat, phase: Phase, status: ClientStatus): System
    requires w < |s.workers| && s.workers[w].slot < |s.slots|
  {
    var i := s.workers[w].slot;
    s.(workers := s.workers[w := s.workers[w].(phase := phase)], slots := s.slots[i := s.slots[i].(status := status)])
  }

  /** `handle_client` begins. */
  ghost predicate Start(s: System, t: System, w: nat)
    requires w < |s.workers| && s.workers[w].slot < |s.slots|
  {
    s.workers[w].phase == Created && t == WithPeak(Published(s, w, Running, InProgress))
  }

  /** It publishes the outcome. */
  ghost predicate Publish(s: System, t: System, w: nat, status: ClientStatus)
    requires w < |s.workers| && s.workers[w].slot < |s.slots|
  {
    s.workers[w].phase == Running && IsProcessed(status) && t == WithPeak(Published(s, w, Stored, status))
  }

  /** The thread ends. */
  ghost predicate Leave(s: System, t: System, w: nat)
    requires w < |s.workers|
  {
    && s.workers[w].phase == Stored
    && t == WithPeak(s.(workers := s.workers[w := s.workers[w].(phase := Exited)]))
  }

  ghost predicate WorkerStep(s: System, t: System, w: nat)
    requires w < |s.workers| && s.workers[w].slot < |s.slots|
  {
    Start(s, t, w) || (exists status :: Publish(s, t, w, status)) || Leave(s, t, w)
  }

  ghost predicate MainStep(s: System, t: System) {
    || Accept(s, t) || ScanOne(s, t) || Append(s, t) || JoinFound(s, t)
    || Initialize(s, t) || CreateThread(s, t) || Signal(s, t) || ExitOne(s, t)
  }

  ghost predicate Step(s: System, t: System) {
    || MainStep(s, t)
    || exists w: nat :: w < |s.workers| && s.workers[w].slot < |s.slots| && WorkerStep(s, t, w)
  }

  ghost predicate IsRun(run: seq<System>) {
    && run != [] && run[0] == INITIAL
    && forall k :: 0 <= k < |run| - 1 ==> Step(run[k], run[k + 1])
  }

  // ---- Invariant ----

  /** The main thread has joined slot `i`'s thread, or not yet created one. */
  predicate IsVacated(main: Main, i: nat) {
    || (main.Initializing? && main.slot == i)
    || (main.Creating? && main.slot == i)
    || (main.Exiting? && i < main.next)
    || main.Stopped?
  }

  /** The status of a slot follows its worker's progress. */
  predicate Agrees(status: ClientStatus, phase: Phase) {
    match phase
    case Created => status == UnknownStatus
    case Running => status == InProgress
    case Stored => IsProcessed(status)
    case Exited => IsProcessed(status)
  }

  ghost predicate SlotOk(slot: Slot, i: nat, workers: seq<Worker>, main: Main) {
    && (slot.thread.Some? ==> slot.thread.value < |workers| && workers[slot.thread.value].slot == i)
    && (!IsVacated(main, i) ==>
          && slot.thread.Some?
          && workers[slot.thread.value].joins == 0
          && slot.client == slot.thread.value
          && Agrees(slot.status, workers[slot.thread.value].phase))
    && (IsVacated(main, i) && slot.thread.Some? ==> workers[slot.thread.value].joins == 1)
    && (main == Creating(i) ==> slot.client == |workers| && slot.status == UnknownStatus)
  }

  ghost predicate WorkerOk(worker: Worker, w: nat, slots: seq<Slot>) {
    && worker.slot < |slots|
    && worker.joins <= 1
    && (worker.joins == 1 ==> worker.phase == Exited)
    && (worker.joins == 0 ==> slots[worker.slot].thread == Some(w))
  }

  ghost predicate MainOk(s: System) {
    && s.accepted == |s.workers| + (if s.main.Idle? || s.main.Exiting? || s.main.Stopped? then 0 else 1)
    && match s.main
       case Scanning(next) => next <= |s.slots|
       case Joining(i) => i < |s.slots| && IsProcessed(s.slots[i].status)
       case Initializing(i) => i < |s.slots| && IsProcessed(s.slots[i].status)
       case Creating(i) => i < |s.slots|
       case Exiting(next) => next <= |s.slots|
       case _ => true
  }

  /** Only the main thread makes a slot unfinished again, so what it has passed was unfinished all along. */
  ghost predicate ScanOk(s: System) {
    s.main.Scanning? ==>
      && |s.unfinished| == |s.slots|
      && (forall i :: 0 <= i < |s.slots| && !IsProcessed(s.slots[i].status) ==> s.unfinished[i])
      && (forall i :: 0 <= i < s.main.next <= |s.slots| ==> s.unfinished[i])
      && ((forall i :: 0 <= i < |s.slots| ==> s.unfinished[i]) ==> s.peak > |s.slots|)
  }

  ghost predicate Inv(s: System) {
    && (forall i :: 0 <= i < |s.slots| ==> SlotOk(s.slots[i], i, s.workers, s.main))
    && (forall w :: 0 <= w < |s.workers| ==> WorkerOk(s.workers[w], w, s.slots))
    && MainOk(s)
    && ScanOk(s)
    && |s.slots| <= s.peak
  }

  lemma {:induction false} AllUnfinished(slots: seq<Slot>)
    requires forall i :: 0 <= i < |slots| ==> !IsProcessed(slots[i].status)
    ensures CountUnfinished(slots) == |slots|
  {
    if slots != [] {
      AllUnfinished(slots[..|slots| - 1]);
    }
  }

  lemma AcceptKeepsInv(s: System, t: System)
    requires Inv(s) && Accept(s, t)
    ensures Inv(t)
  {
    if forall i :: 0 <= i < |t.slots| ==> t.unfinished[i] {
      forall i | 0 <= i < |t.slots| ensures !IsProcessed(t.slots[i].status) {
        assert t.unfinished[i];
      }
      AllUnfinished(t.slots);
    }
  }

  lemma ScanOneKeepsInv(s: System, t: System)
    requires Inv(s) && ScanOne(s, t)
    ensures Inv(t)
  {
  }

  lemma AppendKeepsInv(s: System, t: System)
    requires Inv(s) && Append(s, t)
    ensures Inv(t)
  {
  }

  lemma JoinFoundKeepsInv(s: System, t: System)
    requires Inv(s) && JoinFound(s, t)
    ensures Inv(t)
  {
  }

  lemma InitializeKeepsInv(s: System, t: System)
    requires Inv(s) && Initialize(s, t)
    ensures Inv(t)
  {
  }

  lemma CreateThreadKeepsInv(s: System, t: System)
    requires Inv(s) && CreateThread(s, t)
    ensures Inv(t)
  {
  }

  lemma ExitKeepsInv(s: System, t: System)
    requires Inv(s) && (Signal(s, t) || ExitOne(s, t))
    ensures Inv(t)
  {
  }

  lemma StartKeepsInv(s: System, t: System, w: nat)
    requires Inv(s) && w < |s.workers| && Start(s, t, w)
    ensures Inv(t)
  {
  }

  lemma PublishKeepsInv(s: System, t: System, w: nat, status: ClientStatus)
    requires Inv(s) && w < |s.workers| && Publish(s, t, w, status)
    ensures Inv(t)
  {
  }

  lemma LeaveKeepsInv(s: System, t: System, w: nat)
    requires Inv(s) && w < |s.workers| && Leave(s, t, w)
    ensures Inv(t)
  {
  }

  lemma {:induction false} StepKeepsInv(s: System, t: System)
    requires Inv(s) && Step(s, t)
    ensures Inv(t)
  {
    if MainStep(s, t) {
      if Accept(s, t) {
        AcceptKeepsInv(s, t);
      } else if ScanOne(s, t) {
        ScanOneKeepsInv(s, t);
      } else if Append(s, t) {
        AppendKeepsInv(s, t);
      } else if JoinFound(s, t) {
        JoinFoundKeepsInv(s, t);
      } else if Initialize(s, t) {
        InitializeKeepsInv(s, t);
      } else if CreateThread(s, t) {
        CreateThreadKeepsInv(s, t);
      } else {
        ExitKeepsInv(s, t);
      }
    } else {
      var w: nat :| w < |s.workers| && s.workers[w].slot < |s.slots| && WorkerStep(s, t, w);
      if Start(s, t, w) {
        StartKeepsInv(s, t, w);
      } else if Leave(s, t, w) {
        LeaveKeepsInv(s, t, w);
      } else {
        var status :| Publish(s, t, w, status);
        PublishKeepsInv(s, t, w, status);
      }
    }
  }

  lemma {:induction false} RunKeepsInv(run: seq<System>)
    requires IsRun(run)
    ensures Inv(run[|run| - 1])
  {
    if |run| > 1 {
      RunKeepsInv(run[..|run| - 1]);
      assert Step(run[|run| - 2], run[|run| - 2 + 1]);
      StepKeepsInv(run[|run| - 2], run[|run| - 1]);
    }
  }

  // ---- Workers and outstanding clients ----

  /** The worker has published how its client was served. */
  predicate HasServed(phase: Phase) {
    phase.Stored? || phase.Exited?
  }

  function CountServed(workers: seq<Worker>): nat {
    if workers == [] then 0
    else
      var rest, last := workers[..|workers| - 1], workers[|workers| - 1];
      CountServed(rest) + if HasServed(last.phase) then 1 else 0
  }

  lemma {:induction false} UnfinishedUpdate(slots: seq<Slot>, i: nat, slot: Slot)
    requires i < |slots|
    ensures CountUnfinished(slots[i := slot]) + (if IsProcessed(slots[i].status) then 0 else 1)
         == CountUnfinished(slots) + (if IsProcessed(slot.status) then 0 else 1)
  {
    var rest, changed := slots[..|slots| - 1], slots[i := slot];
    if i < |slots| - 1 {
      UnfinishedUpdate(rest, i, slot);
      assert changed[..|slots| - 1] == rest[i := slot];
    } else {
      assert changed[..|slots| - 1] == rest;
    }
  }

  lemma {:induction false} ServedUpdate(workers: seq<Worker>, w: nat, worker: Worker)
    requires w < |workers|
    ensures CountServed(workers[w := worker]) + (if HasServed(workers[w].phase) then 1 else 0)
         == CountServed(workers) + (if HasServed(worker.phase) then 1 else 0)
  {
    var rest, changed := workers[..|workers| - 1], workers[w := worker];
    if w < |workers| - 1 {
      ServedUpdate(rest, w, worker);
      assert changed[..|workers| - 1] == rest[w := worker];
    } else {
      assert changed[..|workers| - 1] == rest;
    }
  }

  lemma CountsOneMore(slots: seq<Slot>, slot: Slot, workers: seq<Worker>, worker: Worker)
    ensures CountUnfinished(slots + [slot]) == CountUnfinished(slots) + if IsProcessed(slot.status) then 0 else 1
    ensures CountServed(workers + [worker]) == CountServed(workers) + if HasServed(worker.phase) then 1 else 0
  {
    assert (slots + [slot])[..|slots|] == slots && (workers + [worker])[..|workers|] == workers;
  }

  /** A worker that has not been joined owns its slot, and the slot's status follows it. */
  lemma UnjoinedOwnsSlot(s: System, w: nat)
    requires Inv(s) && w < |s.workers| && s.workers[w].joins == 0
    ensures s.workers[w].slot < |s.slots| && s.slots[s.workers[w].slot].thread == Some(w)
    ensures Agrees(s.slots[s.workers[w].slot].status, s.workers[w].phase)
  {
    assert WorkerOk(s.workers[w], w, s.slots);
    assert SlotOk(s.slots[s.workers[w].slot], s.workers[w].slot, s.workers, s.main);
  }

  ghost predicate Conserves(s: System) {
    Outstanding(s) + CountServed(s.workers) == s.accepted
  }

  lemma AppendConserves(s: System, t: System)
    requires Conserves(s) && Append(s, t)
    ensures Conserves(t)
  {
    CountsOneMore(s.slots, t.slots[|s.slots|], [], Worker(0, Created, 0));
  }

  lemma JoinConserves(s: System, t: System)
    requires Conserves(s) && (JoinFound(s, t) || ExitOne(s, t))
    ensures Conserves(t)
  {
    if JoinFound(s, t) {
      var w := s.slots[s.main.slot].thread.value;
      ServedUpdate(s.workers, w, t.workers[w]);
    } else if s.main.next < |s.slots| {
      var w := s.slots[s.main.next].thread.value;
      ServedUpdate(s.workers, w, t.workers[w]);
    }
  }

  lemma InitializeConserves(s: System, t: System)
    requires Inv(s) && Conserves(s) && Initialize(s, t)
    ensures Conserves(t)
  {
    UnfinishedUpdate(s.slots, s.main.slot, t.slots[s.main.slot]);
  }

  lemma CreateConserves(s: System, t: System)
    requires Conserves(s) && CreateThread(s, t)
    ensures Conserves(t)
  {
    UnfinishedUpdate(s.slots, s.main.slot, t.slots[s.main.slot]);
    CountsOneMore([], Slot(UnknownStatus, None, 0), s.workers, t.workers[|s.workers|]);
  }

  lemma MainConserves(s: System, t: System)
    requires Inv(s) && Conserves(s) && MainStep(s, t)
    ensures Conserves(t)
  {
    if Append(s, t) {
      AppendConserves(s, t);
    } else if JoinFound(s, t) || ExitOne(s, t) {
      JoinConserves(s, t);
    } else if Initialize(s, t) {
      InitializeConserves(s, t);
    } else if CreateThread(s, t) {
      CreateConserves(s, t);
    }
  }

  lemma WorkerConserves(s: System, t: System, w: nat)
    requires Inv(s) && Conserves(s) && w < |s.workers| && s.workers[w].slot < |s.slots| && WorkerStep(s, t, w)
    ensures Conserves(t)
  {
    UnjoinedOwnsSlot(s, w);
    var i := s.workers[w].slot;
    ServedUpdate(s.workers, w, t.workers[w]);
    if !Leave(s, t, w) {
      UnfinishedUpdate(s.slots, i, t.slots[i]);
    }
  }

  lemma {:induction false} RunConserves(run: seq<System>)
    requires IsRun(run)
    ensures Conserves(run[|run| - 1])
  {
    if |run| > 1 {
      var s, t := run[|run| - 2], run[|run| - 1];
      RunConserves(run[..|run| - 1]);
      RunKeepsInv(run[..|run| - 1]);
      assert Step(run[|run| - 2], run[|run| - 2 + 1]);
      if MainStep(s, t) {
        MainConserves(s, t);
      } else {
        var w: nat :| w < |s.workers| && s.workers[w].slot < |s.slots| && WorkerStep(s, t, w);
        WorkerConserves(s, t, w);
      }
    }
  }

  // ---- Theorems over all runs ----

  /** Every client accepted is outstanding until its worker has served it, or the main thread still
      holds it: none is lost and none is counted twice. */
  lemma OutstandingIsUnserved(run: seq<System>)
    requires IsRun(run)
    ensures Outstanding(run[|run| - 1]) == run[|run| - 1].accepted - CountServed(run[|run| - 1].workers)
  {
    RunConserves(run);
  }

  /** The scan chooses a slot exactly if the slot's worker has served its client. */
  lemma ScanChoosesServed(run: seq<System>, t: System)
    requires IsRun(run) && ScanOne(run[|run| - 1], t)
    ensures var s := run[|run| - 1];
            var i := s.main.next;
            && s.slots[i].thread.Some? && s.slots[i].thread.value < |s.workers|
            && t.main == if HasServed(s.workers[s.slots[i].thread.value].phase) then Joining(i) else Scanning(i + 1)
  {
    var s := run[|run| - 1];
    RunKeepsInv(run);
    assert SlotOk(s.slots[s.main.next], s.main.next, s.workers, s.main);
  }

  /** So the main thread only ever waits for a worker that is about to end, or has. */
  lemma JoinsOnlyServed(run: seq<System>)
    requires IsRun(run) && run[|run| - 1].main.Joining?
    ensures var s := run[|run| - 1];
            && s.main.slot < |s.slots| && s.slots[s.main.slot].thread.Some?
            && s.slots[s.main.slot].thread.value < |s.workers|
            && HasServed(s.workers[s.slots[s.main.slot].thread.value].phase)
  {
    var s := run[|run| - 1];
    RunKeepsInv(run);
    assert SlotOk(s.slots[s.main.slot], s.main.slot, s.workers, s.main);
  }

  /** When a slot is rewritten, every thread that ever worked on it has exited and been joined. */
  lemma RewriteOnlyAfterJoin(run: seq<System>, t: System, w: nat)
    requires IsRun(run) && Initialize(run[|run| - 1], t)
    requires w < |run[|run| - 1].workers| && run[|run| - 1].workers[w].slot == run[|run| - 1].main.slot
    ensures run[|run| - 1].workers[w].phase == Exited && run[|run| - 1].workers[w].joins == 1
    ensures IsProcessed(run[|run| - 1].slots[run[|run| - 1].main.slot].status)
  {
    RunKeepsInv(run);
  }

  /** A slot never has two threads that have not been joined, let alone two live ones. */
  lemma OneWorkerPerSlot(run: seq<System>, v: nat, w: nat)
    requires IsRun(run)
    requires v < |run[|run| - 1].workers| && w < |run[|run| - 1].workers|
    requires run[|run| - 1].workers[v].slot == run[|run| - 1].workers[w].slot
    requires run[|run| - 1].workers[v].phase != Exited && run[|run| - 1].workers[w].phase != Exited
    ensures v == w
  {
    RunKeepsInv(run);
  }

  /** While a thread lives, its slot holds the client it was created for: the w-th accepted one. */
  lemma WorkerSeesItsClient(run: seq<System>, w: nat)
    requires IsRun(run) && w < |run[|run| - 1].workers| && run[|run| - 1].workers[w].phase != Exited
    ensures var s := run[|run| - 1];
            && s.workers[w].slot < |s.slots|
            && s.slots[s.workers[w].slot].client == w
            && s.slots[s.workers[w].slot].thread == Some(w)
  {
    RunKeepsInv(run);
  }

  /** No thread is joined twice, and after the signalled exit every thread was joined once. */
  lemma JoinedExactlyOnce(run: seq<System>, w: nat)
    requires IsRun(run) && w < |run[|run| - 1].workers|
    ensures run[|run| - 1].workers[w].joins <= 1
    ensures run[|run| - 1].main == Stopped ==> run[|run| - 1].workers[w].joins == 1
    ensures run[|run| - 1].main == Stopped ==> run[|run| - 1].accepted == |run[|run| - 1].workers|
  {
    RunKeepsInv(run);
  }

  /** A scan goes on: no slot is added, and the record of where it began stays. */
  lemma ScanGoesOn(s: System, t: System)
    requires Step(s, t) && t.main.Scanning? && !Accept(s, t)
    ensures s.main.Scanning? && t.unfinished == s.unfinished && |t.slots| == |s.slots|
  {
  }

  /** Where the scan under way began, and that `unfinished` records how the slots stood there. */
  lemma {:induction false} ScanBegan(run: seq<System>) returns (k: nat)
    requires IsRun(run) && run[|run| - 1].main.Scanning?
    ensures k < |run| && run[k].main == Scanning(0) && |run[k].slots| == |run[|run| - 1].slots|
    ensures forall j :: k <= j < |run| ==> run[j].main.Scanning?
    ensures |run[|run| - 1].unfinished| == |run[k].slots|
    ensures forall i :: 0 <= i < |run[k].slots| ==> run[|run| - 1].unfinished[i] == !IsProcessed(run[k].slots[i].status)
  {
    var s, t := run[|run| - 2], run[|run| - 1];
    assert Step(run[|run| - 2], run[|run| - 2 + 1]);
    if Accept(s, t) {
      k := |run| - 1;
    } else {
      ScanGoesOn(s, t);
      k := ScanBegan(run[..|run| - 1]);
    }
  }

  /** The pool grows only if every slot was unfinished when the scan began, however long it took. */
  lemma GrowsOnlyWhenAllBusy(run: seq<System>, t: System) returns (k: nat)
    requires IsRun(run) && Append(run[|run| - 1], t)
    ensures k < |run| && run[k].main == Scanning(0) && |run[k].slots| == |run[|run| - 1].slots|
    ensures forall j :: k <= j < |run| ==> run[j].main.Scanning?
    ensures forall i :: 0 <= i < |run[k].slots| ==> IsBusy(run[k], i)
  {
    RunKeepsInv(run);
    k := ScanBegan(run);
    RunKeepsInv(run[..k + 1]);
    forall i | 0 <= i < |run[k].slots| ensures IsBusy(run[k], i) {
      assert run[|run| - 1].unfinished[i];
      assert SlotOk(run[k].slots[i], i, run[k].workers, run[k].main);
    }
  }

  /** The slot has a worker that has not yet served its client. */
  ghost predicate IsBusy(s: System, i: nat)
    requires i < |s.slots|
  {
    && s.slots[i].thread.Some? && s.slots[i].thread.value < |s.workers|
    && !HasServed(s.workers[s.slots[i].thread.value].phase)
  }

  lemma StepSetsPeak(s: System, t: System)
    requires Step(s, t)
    ensures t.peak == s.peak || t.peak == Outstanding(t)
  {
  }

  /** The recorded peak is the number of outstanding clients at some point of the run. */
  lemma {:induction false} PeakIsReached(run: seq<System>) returns (k: nat)
    requires IsRun(run)
    ensures k < |run| && Outstanding(run[k]) == run[|run| - 1].peak
  {
    k := |run| - 1;
    if |run| > 1 {
      var s, t := run[|run| - 2], run[|run| - 1];
      assert Step(run[|run| - 2], run[|run| - 2 + 1]);
      StepSetsPeak(s, t);
      if t.peak == s.peak {
        k := PeakIsReached(run[..|run| - 1]);
      }
    }
  }

  /** So the pool is never larger than the number of clients accepted and not yet served at some point. */
  lemma PoolWithinPeak(run: seq<System>)
    requires IsRun(run)
    ensures exists k :: 0 <= k < |run| && |run[|run| - 1].slots| <= run[k].accepted - CountServed(run[k].workers)
  {
    RunKeepsInv(run);
    var k := PeakIsReached(run);
    OutstandingIsUnserved(run[..k + 1]);
  }

  // ---- Nothing gets stuck ----

  ghost function Last(run: seq<System>): System
    requires run != []
  {
    run[|run| - 1]
  }

  /** `longer` goes on from `run`. */
  ghost predicate GoesOn(run: seq<System>, longer: seq<System>) {
    0 < |run| <= |longer| && longer[..|run|] == run && IsRun(longer)
  }

  lemma RunGrows(run: seq<System>, mid: seq<System>, t: System) returns (longer: seq<System>)
    requires GoesOn(run, mid) && Step(Last(mid), t)
    ensures GoesOn(run, longer) && Last(longer) == t
  {
    longer := mid + [t];
    forall k | 0 <= k < |longer| - 1 ensures Step(longer[k], longer[k + 1]) {
      if k < |mid| - 1 {
        assert Step(mid[k], mid[k + 1]);
      }
    }
    assert longer[..|run|] == mid[..|run|];
  }

  /** Nothing changed but the phase of worker `w` and the status of its slot. */
  ghost predicate OnlyWorker(s: System, t: System, w: nat)
    requires w < |s.workers|
  {
    && t.main == s.main && t.accepted == s.accepted
    && |t.slots| == |s.slots|
    && (forall i :: 0 <= i < |s.slots| ==>
          t.slots[i].thread == s.slots[i].thread && t.slots[i].client == s.slots[i].client)
    && |t.workers| == |s.workers| && t.workers == s.workers[w := s.workers[w].(phase := t.workers[w].phase)]
  }

  /** A worker can take its next step, which publishes the outcome if it was running. */
  lemma WorkerGoesOn(run: seq<System>, mid: seq<System>, w: nat, outcome: ClientStatus)
    returns (longer: seq<System>)
    requires GoesOn(run, mid) && w < |Last(mid).workers| && IsProcessed(outcome)
    requires Last(mid).workers[w].slot < |Last(mid).slots| && Last(mid).workers[w].phase != Exited
    ensures GoesOn(run, longer) && OnlyWorker(Last(mid), Last(longer), w)
    ensures match Last(mid).workers[w].phase
            case Created => Last(longer).workers[w].phase == Running
            case Running =>
              Last(longer).workers[w].phase == Stored && Last(longer).slots[Last(mid).workers[w].slot].status == outcome
            case Stored => Last(longer).workers[w].phase == Exited && Last(longer).slots == Last(mid).slots
            case Exited => true
  {
    var s := Last(mid);
    var t := WithPeak(if s.workers[w].phase.Created? then Published(s, w, Running, InProgress)
                      else if s.workers[w].phase.Running? then Published(s, w, Stored, outcome)
                      else s.(workers := s.workers[w := s.workers[w].(phase := Exited)]));
    assert s.workers[w].phase.Running? ==> Publish(s, t, w, outcome);
    assert WorkerStep(s, t, w);
    longer := RunGrows(run, mid, t);
  }

  /** A live worker can serve its client, with any outcome, and end. */
  lemma {:induction false} WorkerCanFinish(run: seq<System>, mid: seq<System>, w: nat, outcome: ClientStatus)
    returns (longer: seq<System>)
    requires GoesOn(run, mid) && w < |Last(mid).workers| && IsProcessed(outcome)
    ensures GoesOn(run, longer) && OnlyWorker(Last(mid), Last(longer), w) && Last(longer).workers[w].phase == Exited
    ensures HasServed(Last(mid).workers[w].phase) ==> Last(longer).slots == Last(mid).slots
    ensures !HasServed(Last(mid).workers[w].phase) ==>
              && Last(mid).workers[w].slot < |Last(longer).slots|
              && Last(longer).slots[Last(mid).workers[w].slot].status == outcome
    decreases match Last(mid).workers[w].phase case Created => 3 case Running => 2 case Stored => 1 case Exited => 0
  {
    longer := mid;
    if Last(mid).workers[w].phase != Exited {
      assert Last(mid).workers[w].slot < |Last(mid).slots| by {
        RunKeepsInv(mid);
        assert WorkerOk(Last(mid).workers[w], w, Last(mid).slots);
      }
      var next := WorkerGoesOn(run, mid, w, outcome);
      longer := WorkerCanFinish(run, next, w, outcome);
    }
  }

  /** The main thread is about to hand an accepted client to a worker. */
  predicate IsPlacing(main: Main) {
    main.Scanning? || main.Joining? || main.Initializing? || main.Creating?
  }

  /** A bound on the steps until it has done so, once the worker it may wait for has ended. */
  function StepsLeft(s: System): nat {
    match s.main
    case Scanning(next) => if next <= |s.slots| then 4 + |s.slots| - next else 4
    case Joining(_) => 3
    case Initializing(_) => 2
    case Creating(_) => 1
    case _ => 0
  }

  lemma FoundCanBeJoined(run: seq<System>, mid: seq<System>) returns (longer: seq<System>)
    requires GoesOn(run, mid) && Last(mid).main.Joining?
    ensures GoesOn(run, longer) && Last(longer).accepted == Last(mid).accepted
    ensures Last(longer).main == Initializing(Last(mid).main.slot) && |Last(longer).workers| == |Last(mid).workers|
  {
    var s, i := Last(mid), Last(mid).main.slot;
    RunKeepsInv(mid);
    assert SlotOk(s.slots[i], i, s.workers, s.main);
    var w := s.slots[i].thread.value;
    longer := WorkerCanFinish(run, mid, w, Success);
    var t := Last(longer);
    assert JoinFound(t, WithPeak(Joined(t, w).(main := Initializing(i))));
    longer := RunGrows(run, longer, WithPeak(Joined(t, w).(main := Initializing(i))));
  }

  /** It can always take its next step, if need be after the worker it waits for has ended. */
  lemma PlacingGoesOn(run: seq<System>, mid: seq<System>) returns (longer: seq<System>)
    requires GoesOn(run, mid) && IsPlacing(Last(mid).main)
    ensures GoesOn(run, longer) && Last(longer).accepted == Last(mid).accepted
    ensures StepsLeft(Last(longer)) < StepsLeft(Last(mid))
    ensures if IsPlacing(Last(longer).main) then |Last(longer).workers| == |Last(mid).workers|
            else Last(longer).main == Idle && |Last(longer).workers| == |Last(mid).workers| + 1
                 && Last(longer).workers[|Last(mid).workers|].phase == Created
  {
    RunKeepsInv(mid);
    longer := mid;
    var s := Last(mid);
    match s.main
    case Scanning(next) =>
      if next < |s.slots| {
        var main := if IsProcessed(s.slots[next].status) then Joining(next) else Scanning(next + 1);
        assert ScanOne(s, WithPeak(s.(main := main)));
        longer := RunGrows(run, longer, WithPeak(s.(main := main)));
      } else {
        var slots := s.slots + [Slot(UnknownStatus, None, s.accepted - 1)];
        assert Append(s, WithPeak(s.(main := Creating(|s.slots|), slots := slots)));
        longer := RunGrows(run, longer, WithPeak(s.(main := Creating(|s.slots|), slots := slots)));
      }
    case Joining(i) =>
      longer := FoundCanBeJoined(run, mid);
    case Initializing(i) =>
      var slots := s.slots[i := s.slots[i].(status := UnknownStatus, client := s.accepted - 1)];
      assert Initialize(s, WithPeak(s.(main := Creating(i), slots := slots)));
      longer := RunGrows(run, longer, WithPeak(s.(main := Creating(i), slots := slots)));
    case Creating(i) =>
      var slots := s.slots[i := s.slots[i].(thread := Some(|s.workers|))];
      var workers := s.workers + [Worker(i, Created, 0)];
      assert CreateThread(s, WithPeak(s.(main := Idle, slots := slots, workers := workers)));
      longer := RunGrows(run, longer, WithPeak(s.(main := Idle, slots := slots, workers := workers)));
  }

  /** Every client accepted can be handed to a worker of its own, and the main thread is then idle again. */
  lemma {:induction false} ClientCanBePlaced(run: seq<System>, mid: seq<System>) returns (longer: seq<System>)
    requires GoesOn(run, mid) && IsPlacing(Last(mid).main)
    ensures GoesOn(run, longer) && Last(longer).main == Idle && Last(longer).accepted == Last(mid).accepted
    ensures |Last(longer).workers| == |Last(mid).workers| + 1
    ensures Last(longer).workers[|Last(mid).workers|].phase == Created
    decreases StepsLeft(Last(mid))
  {
    longer := PlacingGoesOn(run, mid);
    if IsPlacing(Last(longer).main) {
      longer := ClientCanBePlaced(run, longer);
    }
  }

  /** Whenever the main thread is idle, the next client can be accepted, given a worker and served. */
  lemma NextClientCanBeServed(run: seq<System>, outcome: ClientStatus) returns (longer: seq<System>)
    requires IsRun(run) && Last(run).main == Idle && IsProcessed(outcome)
    ensures GoesOn(run, longer) && Last(longer).main == Idle && Last(longer).accepted == Last(run).accepted + 1
    ensures var t, w := Last(longer), |Last(run).workers|;
            && |t.workers| == w + 1 && t.workers[w].phase == Exited && t.workers[w].slot < |t.slots|
            && t.slots[t.workers[w].slot].client == w && t.slots[t.workers[w].slot].status == outcome
  {
    var s, w := Last(run), |Last(run).workers|;
    var busy := seq(|s.slots|, i requires 0 <= i < |s.slots| => !IsProcessed(s.slots[i].status));
    var t := WithPeak(s.(main := Scanning(0), accepted := s.accepted + 1, unfinished := busy));
    assert Accept(s, t);
    longer := RunGrows(run, run, t);
    longer := ClientCanBePlaced(run, longer);
    WorkerSeesItsClient(longer, w);
    longer := WorkerCanFinish(run, longer, w, outcome);
  }

  /** It can also be told to stop, and then does. */
  lemma IdleServerCanStop(run: seq<System>) returns (longer: seq<System>)
    requires IsRun(run) && Last(run).main == Idle
    ensures GoesOn(run, longer) && Last(longer).main == Stopped
  {
    var t := WithPeak(Last(run).(main := Exiting(0)));
    assert Signal(Last(run), t);
    longer := RunGrows(run, run, t);
    longer := ServerCanStop(run, longer);
  }

  /** After the signal every thread can be joined. */
  lemma {:induction false} ServerCanStop(run: seq<System>, mid: seq<System>) returns (longer: seq<System>)
    requires GoesOn(run, mid) && Last(mid).main.Exiting?
    ensures GoesOn(run, longer) && Last(longer).main == Stopped
    decreases if Last(mid).main.next <= |Last(mid).slots| then |Last(mid).slots| - Last(mid).main.next else 0
  {
    RunKeepsInv(mid);
    longer := mid;
    var s := Last(mid);
    var i := s.main.next;
    if i < |s.slots| {
      assert SlotOk(s.slots[i], i, s.workers, s.main);
      var w := s.slots[i].thread.value;
      longer := WorkerCanFinish(run, longer, w, Success);
      var t := Last(longer);
      assert ExitOne(t, WithPeak(Joined(t, w).(main := Exiting(i + 1))));
      longer := RunGrows(run, longer, WithPeak(Joined(t, w).(main := Exiting(i + 1))));
      longer := ServerCanStop(run, longer);
    } else {
      assert ExitOne(s, WithPeak(s.(main := Stopped)));
      longer := RunGrows(run, longer, WithPeak(s.(main := Stopped)));
    }
  }
}

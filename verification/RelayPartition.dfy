/** Exactly when the relay loses no request it received: two requests with one id may share the
    queue, but not the dictionary of active requests. */
module RelayPartition {
  import opened Text
  import opened RelayProtocol
  import opened RelaySafety
  import RelayRuns

  // ----- one entry of the dictionary

  lemma {:induction false} PutKeepsActive(active: seq<Req>, r: Req)
    requires Unrepeated(active) && r !in active
    ensures (forall q :: q in active ==> q in Put(active, r)) <==> (forall q :: q in active ==> q.id != r.id)
    ensures forall x :: x in Put(active, r) ==> x == r || x in active
  {
    if active != [] {
      var first, rest := active[0], active[1..];
      PutKeepsActive(rest, r);
      assert active == [first] + rest;
      assert first !in rest;
      if first.id == r.id {
        assert Put(active, r) == [r] + rest;
        assert first in active && first !in Put(active, r);
      } else {
        assert Put(active, r) == [first] + Put(rest, r);
        assert forall q :: q in rest ==> (q in Put(active, r) <==> q in Put(rest, r));
        assert forall q :: q in active <==> q == first || q in rest;
      }
    }
  }

  lemma {:induction false} PopKeepsActive(active: seq<Req>, id: Id)
    requires Unrepeated(active)
    ensures (forall q :: q in active ==> q in Pop(active, id)) <==> (forall q :: q in active ==> q.id != id)
    ensures forall x :: x in Pop(active, id) ==> x in active
  {
    if active != [] {
      var first, rest := active[0], active[1..];
      PopKeepsActive(rest, id);
      assert active == [first] + rest;
      assert first !in rest;
      if first.id == id {
        assert first in active && first !in Pop(active, id);
      } else {
        assert Pop(active, id) == [first] + Pop(rest, id);
        assert forall q :: q in rest ==> (q in Pop(active, id) <==> q in Pop(rest, id));
        assert forall q :: q in active <==> q == first || q in rest;
      }
    }
  }

  /** Starting a request keeps every active one exactly when its id is not active yet. */
  lemma StartKeepsActive(s: State, r: Req)
    requires Unrepeated(s.active) && r !in s.active
    ensures (forall q :: q in s.active ==> q in Start(s, r).active) <==> Clear(s, r)
  {
    PutKeepsActive(s.active, r);
  }

  /** So does refusing one: its `_finish` takes the entry of that id out of the dictionary. */
  lemma RejectKeepsActive(s: State, r: Req)
    requires Unrepeated(s.active)
    ensures (forall q :: q in s.active ==> q in Reject(s, r).active) <==> Clear(s, r)
  {
    PopKeepsActive(s.active, r.id);
  }

  // ----- steps that meet no id of their own

  predicate GetsClear(s: State, snapshot: seq<Req>, running: nat, workers: nat)
    decreases |snapshot|
  {
    if snapshot == [] then true
    else if snapshot[0].lane == Get && running < workers then
      Clear(s, snapshot[0]) && GetsClear(Start(s, snapshot[0]), snapshot[1..], running + 1, workers)
    else GetsClear(s, snapshot[1..], running, workers)
  }

  predicate PostClear(s: State) {
    Mates(s.active, Post) == [] && FirstPost(s.pending).Some? ==> Clear(s, FirstPost(s.pending).value)
  }

  predicate DispatchClear(s: State, workers: nat) {
    var n := |Mates(s.active, Get)|;
    GetsClear(s, s.pending, n, workers) && PostClear(StartGets(s, s.pending, n, workers))
  }

  predicate RefusalClear(s: State, file: File) {
    Waiting(s, file) ==>
      var r := Admit(|s.received|, file, s.inbox[file].p);
      !r.allowed ==> Clear(s, r)
  }

  /** No start and no refusal of this step meets its own id in `active`. */
  predicate StepClear(s: State, a: Action, workers: nat) {
    a.Turn? ==>
      && (s.pc.Receiving? && s.pc.files != [] ==> RefusalClear(s, s.pc.files[0]))
      && (s.pc.Dispatching? ==> DispatchClear(s, workers))
  }

  /** Pending, active and finished partition the received requests. */
  ghost predicate Partitioned(s: State) {
    && (forall r :: r in s.pending || r in s.active ==> r.rid < |s.received| && s.received[r.rid] == r)
    && (forall i :: i in s.finished ==> i < |s.received|)
    && (forall i :: 0 <= i < |s.received| ==>
          var r := s.received[i];
          if r in s.pending then r !in s.active && i !in s.finished else r in s.active <==> i !in s.finished)
  }

  /** What holds as long as every step was clear. */
  ghost predicate Slots(s: State) {
    Core(s) && DistinctIds(s.active) && Control(s)
  }

  /** The request is nowhere. */
  predicate Lost(s: State, q: Req) {
    && q.rid < |s.received| && s.received[q.rid] == q
    && q !in s.pending && q !in s.active && q.rid !in s.finished
  }

  lemma SlotsPartition(s: State)
    requires Core(s)
    ensures Partitioned(s)
  {
    forall r | r in s.pending || r in s.active ensures Known(s, r) {
    }
  }

  lemma LostBreaks(s: State, q: Req)
    requires Lost(s, q)
    ensures !Partitioned(s)
  {
    assert s.received[q.rid] == q;
  }

  // ----- a clear step keeps the partition

  lemma StartSlots(s: State, r: Req)
    requires Core(s) && DistinctIds(s.active) && r in s.pending && Clear(s, r)
    ensures var t := Start(s, r);
            && Core(t) && DistinctIds(t.active) && t.pc == s.pc && t.stop == s.stop && t.done == s.done
            && t.submitted == s.submitted + [r] && forall x :: x in t.pending <==> x in s.pending && x != r
  {
    hide Core, Start;
    var t := Start(s, r);
    var i :| 0 <= i < |s.pending| && s.pending[i] == r;
    StartHasEffect(s, i);
    StartCore(s, i, t);
    CoreActive(s);
    WithoutMembers(s.pending, i, t.pending);
    StartPc(s, r);
    assert forall k :: 0 <= k < |s.active| ==> s.active[k] in s.active;
  }

  lemma StartPc(s: State, r: Req)
    ensures Start(s, r).pc == s.pc && Start(s, r).stop == s.stop
  {
  }

  lemma {:induction false} GetsSlots(s: State, snapshot: seq<Req>, running: nat, workers: nat)
    requires Core(s) && DistinctIds(s.active) && Unrepeated(snapshot)
    requires (forall x :: x in snapshot ==> x in s.pending) && GetsClear(s, snapshot, running, workers)
    ensures var t := StartGets(s, snapshot, running, workers);
            Core(t) && DistinctIds(t.active) && t.pc == s.pc && t.stop == s.stop && t.done == s.done && s.submitted <= t.submitted
    decreases |snapshot|
  {
    hide Start, Core, DistinctIds, Clear;
    if snapshot != [] {
      assert snapshot == [snapshot[0]] + snapshot[1..];
      assert snapshot[0] !in snapshot[1..];
      if snapshot[0].lane == Get && running < workers {
        StartSlots(s, snapshot[0]);
        GetsSlots(Start(s, snapshot[0]), snapshot[1..], running + 1, workers);
      } else {
        GetsSlots(s, snapshot[1..], running, workers);
      }
    }
  }

  lemma DispatchSlots(s: State, workers: nat)
    requires Core(s) && DistinctIds(s.active) && DispatchClear(s, workers)
    ensures var t := Dispatch(s, workers);
            Core(t) && DistinctIds(t.active) && t.pc == s.pc && t.stop == s.stop && t.done == s.done && s.submitted <= t.submitted
  {
    hide Start, Core, DistinctIds, Mates, StartGets, Clear, GetsClear;
    var n := |Mates(s.active, Get)|;
    var g := StartGets(s, s.pending, n, workers);
    CoreActive(s);
    GetsSlots(s, s.pending, n, workers);
    FirstPostIsFirst(g.pending);
    if Mates(g.active, Post) == [] && FirstPost(g.pending).Some? {
      StartSlots(g, FirstPost(g.pending).value);
    }
  }

  lemma CollectSlots(s: State, r: Req)
    requires Core(s) && DistinctIds(s.active) && r in s.active
    ensures var t := Collect(s, r);
            && Core(t) && DistinctIds(t.active) && t.pc == s.pc && t.stop == s.stop && t.done == s.done
            && t.submitted == s.submitted && forall x :: x in s.active && x != r ==> x in t.active
  {
    hide Core, Finish;
    if r.rid in s.done {
      var v := VerdictOf(r.lane, s.done[r.rid]);
      var t := Finish(s, r, v);
      var i :| 0 <= i < |s.active| && s.active[i] == r;
      FinishHasEffect(s, i, v);
      FinishCore(s, i, t);
      CoreActive(s);
      WithoutMembers(s.active, i, t.active);
      FinishPc(s, r, v);
    }
  }

  lemma FinishPc(s: State, r: Req, v: Verdict)
    ensures Finish(s, r, v).pc == s.pc && Finish(s, r, v).stop == s.stop
  {
  }

  lemma ReceiveSlots(s: State, file: File)
    requires Core(s) && DistinctIds(s.active) && RefusalClear(s, file)
    ensures var t := Receive(s, file);
            && Core(t) && DistinctIds(t.active) && t.active == s.active
            && t.pc == s.pc && t.stop == s.stop && t.done == s.done && t.submitted == s.submitted
  {
    hide Core, Accept, Reject, Clear;
    if Waiting(s, file) {
      var r := Admit(|s.received|, file, s.inbox[file].p);
      if r.allowed {
        AcceptCore(s, r);
        AcceptKeeps(s, r);
      } else {
        RejectCore(s, r);
        RejectEffect(s, r);
      }
    }
  }

  lemma AcceptKeeps(s: State, r: Req)
    ensures var t := Accept(s, r);
            t.active == s.active && t.pc == s.pc && t.stop == s.stop && t.done == s.done && t.submitted == s.submitted
  {
  }

  lemma CorePc(s: State, t: State)
    requires Core(s) && t.pending == s.pending && t.active == s.active && t.submitted == s.submitted
    requires t.received == s.received && t.finished == s.finished
    ensures Core(t)
  {
    assert forall r :: Known(s, r) == Known(t, r);
  }

  lemma ReceivingSlots(s: State, file: File, rest: seq<File>)
    requires Slots(s) && s.pc.Receiving? && RefusalClear(s, file)
    ensures Slots(Receive(s, file).(pc := Receiving(rest)))
  {
    hide Core, DistinctIds, Receive, RefusalClear;
    ReceiveSlots(s, file);
    var t := Receive(s, file).(pc := Receiving(rest));
    CorePc(Receive(s, file), t);
    DoneKept(s, t);
  }

  lemma CollectingSlots(s: State)
    requires Slots(s) && s.pc.Collecting? && s.pc.reqs != []
    ensures Slots(Collect(s, s.pc.reqs[0]).(pc := Collecting(s.pc.reqs[1..])))
  {
    hide Core, DistinctIds, Collect;
    var r, rest := s.pc.reqs[0], s.pc.reqs[1..];
    CollectSlots(s, r);
    var t := Collect(s, r).(pc := Collecting(rest));
    CorePc(Collect(s, r), t);
    DoneKept(s, t);
  }

  lemma DispatchingSlots(s: State, heartbeat: bool, workers: nat)
    requires Slots(s) && s.pc.Dispatching? && DispatchClear(s, workers)
    ensures var d := Dispatch(s, workers);
            Slots((if heartbeat then WriteStatus(d) else d).(pc := Checking))
  {
    hide Core, DistinctIds, Dispatch, DispatchClear;
    DispatchSlots(s, workers);
    var d := Dispatch(s, workers);
    var t := (if heartbeat then WriteStatus(d) else d).(pc := Checking);
    CorePc(d, t);
    DoneKept(s, t);
  }

  lemma TurnSlots(s: State, listing: seq<File>, heartbeat: bool, workers: nat)
    requires Slots(s) && StepClear(s, Turn(listing, heartbeat), workers)
    ensures Slots(TurnStep(s, listing, heartbeat, workers))
  {
    hide Core, DistinctIds, Dispatch, Collect, Receive, DispatchClear, RefusalClear;
    var t := TurnStep(s, listing, heartbeat, workers);
    if s.pc.Receiving? && s.pc.files != [] {
      ReceivingSlots(s, s.pc.files[0], s.pc.files[1..]);
    } else if s.pc.Collecting? && s.pc.reqs != [] {
      CollectingSlots(s);
    } else if s.pc.Dispatching? {
      DispatchingSlots(s, heartbeat, workers);
    } else {
      CoreActive(s);
      CorePc(s, t);
    }
  }

  lemma StepSlots(s: State, a: Action, workers: nat)
    requires Slots(s) && StepClear(s, a, workers)
    ensures Slots(Next(s, a, workers))
  {
    hide Core, TurnStep;
    match a
    case Turn(listing, heartbeat) => TurnSlots(s, listing, heartbeat, workers);
    case _ => CorePc(s, Next(s, a, workers));
  }

  // ----- a step that is not clear loses a request

  lemma StartLoses(s: State, r: Req) returns (q: Req)
    requires Core(s) && r in s.pending && !Clear(s, r)
    ensures q in s.active && Lost(Start(s, r), q)
  {
    CoreActive(s);
    PutKeepsActive(s.active, r);
    q :| q in s.active && q !in Put(s.active, r);
    assert Known(s, q);
    RemoveMembers(s.pending, r);
  }

  lemma {:induction false} RemoveMembers(q: seq<Req>, r: Req)
    ensures forall x :: x in Remove(q, r) ==> x in q
  {
    if q != [] {
      RemoveMembers(q[1..], r);
    }
  }

  lemma {:induction false} PutMembers(active: seq<Req>, r: Req)
    ensures forall x :: x in Put(active, r) ==> x == r || x in active
  {
    if active != [] {
      PutMembers(active[1..], r);
    }
  }

  lemma StartStaysLost(s: State, r: Req, q: Req)
    requires Lost(s, q) && q != r
    ensures Lost(Start(s, r), q)
  {
    PutMembers(s.active, r);
    RemoveMembers(s.pending, r);
  }

  lemma {:induction false} GetsStayLost(s: State, snapshot: seq<Req>, running: nat, workers: nat, q: Req)
    requires Lost(s, q) && q !in snapshot
    ensures Lost(StartGets(s, snapshot, running, workers), q)
    decreases |snapshot|
  {
    hide Start, Lost;
    if snapshot != [] {
      if snapshot[0].lane == Get && running < workers {
        StartStaysLost(s, snapshot[0], q);
        GetsStayLost(Start(s, snapshot[0]), snapshot[1..], running + 1, workers, q);
      } else {
        GetsStayLost(s, snapshot[1..], running, workers, q);
      }
    }
  }

  lemma {:induction false} GetsLose(s: State, snapshot: seq<Req>, running: nat, workers: nat) returns (q: Req)
    requires Core(s) && DistinctIds(s.active) && Unrepeated(snapshot)
    requires (forall x :: x in snapshot ==> x in s.pending) && !GetsClear(s, snapshot, running, workers)
    ensures Lost(StartGets(s, snapshot, running, workers), q)
    decreases |snapshot|
  {
    hide Start, Core, DistinctIds, Clear, Lost;
    var r, rest := snapshot[0], snapshot[1..];
    assert snapshot == [r] + rest;
    assert r !in rest;
    if r.lane == Get && running < workers {
      if Clear(s, r) {
        StartSlots(s, r);
        q := GetsLose(Start(s, r), rest, running + 1, workers);
      } else {
        q := StartLoses(s, r);
        CoreApart(s);
        GetsStayLost(Start(s, r), rest, running + 1, workers, q);
      }
    } else {
      q := GetsLose(s, rest, running, workers);
    }
  }

  lemma CoreApart(s: State)
    requires Core(s)
    ensures forall r :: r in s.pending ==> r !in s.active
  {
  }

  lemma StartPostStaysLost(s: State, q: Req)
    requires Lost(s, q)
    ensures Lost(StartPost(s), q)
  {
    hide Start;
    FirstPostIsFirst(s.pending);
    if FirstPost(s.pending).Some? {
      StartStaysLost(s, FirstPost(s.pending).value, q);
    }
  }

  lemma DispatchLoses(s: State, workers: nat) returns (q: Req)
    requires Core(s) && DistinctIds(s.active) && !DispatchClear(s, workers)
    ensures Lost(Dispatch(s, workers), q)
  {
    hide Start, Core, DistinctIds, Mates, StartGets, Clear, GetsClear, Lost;
    var n := |Mates(s.active, Get)|;
    var g := StartGets(s, s.pending, n, workers);
    CoreActive(s);
    if GetsClear(s, s.pending, n, workers) {
      GetsSlots(s, s.pending, n, workers);
      FirstPostIsFirst(g.pending);
      q := StartLoses(g, FirstPost(g.pending).value);
    } else {
      q := GetsLose(s, s.pending, n, workers);
      StartPostStaysLost(g, q);
    }
  }

  lemma RefusalLoses(s: State, file: File) returns (q: Req)
    requires Core(s) && !RefusalClear(s, file)
    ensures Lost(Receive(s, file), q)
  {
    var r := Admit(|s.received|, file, s.inbox[file].p);
    CoreActive(s);
    PopKeepsActive(s.active, r.id);
    q :| q in s.active && q !in Pop(s.active, r.id);
    assert Known(s, q);
    RemoveMembers(s.pending, r);
    RejectLoses(s, r, q);
  }

  lemma RejectLoses(s: State, r: Req, q: Req)
    requires Core(s) && r.rid == |s.received| && q in s.active && q !in Pop(s.active, r.id)
    ensures Lost(Reject(s, r), q)
  {
    hide StatusOf;
    assert Known(s, q);
    RemoveMembers(s.pending, r);
  }

  lemma StepLoses(s: State, a: Action, workers: nat)
    requires Slots(s) && !StepClear(s, a, workers)
    ensures !Partitioned(Next(s, a, workers))
  {
    hide Core, DistinctIds, Dispatch, Receive, DispatchClear, RefusalClear;
    var t := Next(s, a, workers);
    if s.pc.Receiving? {
      var q := RefusalLoses(s, s.pc.files[0]);
      LostBreaks(t, q);
    } else {
      var q := DispatchLoses(s, workers);
      LostBreaks(t, q);
    }
  }

  // ----- every run

  predicate RunClear(inbox: map<File, Content>, actions: seq<Action>, workers: nat) {
    forall n :: 0 <= n < |actions| ==> StepClear(Run(inbox, actions[..n], workers), actions[n], workers)
  }

  ghost predicate AlwaysPartitioned(inbox: map<File, Content>, actions: seq<Action>, workers: nat) {
    forall n :: 0 <= n <= |actions| ==> Partitioned(Run(inbox, actions[..n], workers))
  }

  lemma {:induction false} ClearSlots(inbox: map<File, Content>, actions: seq<Action>, workers: nat)
    requires RunClear(inbox, actions, workers)
    ensures Slots(Run(inbox, actions, workers))
  {
    hide StepClear, Slots, Next;
    if actions == [] {
      NothingReceived(inbox);
    } else {
      var last := |actions| - 1;
      ShorterClear(inbox, actions, workers);
      ClearSlots(inbox, actions[..last], workers);
      StepSlots(Run(inbox, actions[..last], workers), actions[last], workers);
    }
  }

  lemma NothingReceived(inbox: map<File, Content>)
    ensures Slots(Init(inbox))
  {
  }

  lemma ShorterClear(inbox: map<File, Content>, actions: seq<Action>, workers: nat)
    requires actions != []
    ensures var last := |actions| - 1;
            RunClear(inbox, actions, workers) <==>
            && RunClear(inbox, actions[..last], workers)
            && StepClear(Run(inbox, actions[..last], workers), actions[last], workers)
  {
    hide StepClear, Run;
    var last := |actions| - 1;
    assert forall n :: 0 <= n < last ==> actions[..last][..n] == actions[..n] && actions[..last][n] == actions[n];
    if RunClear(inbox, actions[..last], workers) {
      forall n | 0 <= n < last ensures StepClear(Run(inbox, actions[..n], workers), actions[n], workers) {
        assert actions[..last][..n] == actions[..n] && actions[..last][n] == actions[n];
        assert StepClear(Run(inbox, actions[..last][..n], workers), actions[..last][n], workers);
      }
    }
  }

  lemma ShorterPartitioned(inbox: map<File, Content>, actions: seq<Action>, workers: nat)
    requires actions != []
    ensures AlwaysPartitioned(inbox, actions, workers) <==>
            AlwaysPartitioned(inbox, actions[..|actions| - 1], workers) && Partitioned(Run(inbox, actions, workers))
  {
    hide Partitioned, Run;
    var last := |actions| - 1;
    assert actions[..|actions|] == actions;
    assert forall n :: 0 <= n <= last ==> actions[..last][..n] == actions[..n];
    if AlwaysPartitioned(inbox, actions[..last], workers) {
      forall n | 0 <= n <= last ensures Partitioned(Run(inbox, actions[..n], workers)) {
        assert Partitioned(Run(inbox, actions[..last][..n], workers));
      }
    }
  }

  /** MAIN: along a run no received request is ever lost, that is, pending, active and finished
      partition the received requests at every moment, if and only if no start and no refusal
      meets its own id in `active`. */
  lemma {:induction false} NothingLostExactly(inbox: map<File, Content>, actions: seq<Action>, workers: nat)
    ensures AlwaysPartitioned(inbox, actions, workers) <==> RunClear(inbox, actions, workers)
  {
    hide StepClear, Partitioned, Slots, Next, Core;
    if actions == [] {
      NothingReceived(inbox);
      SlotsCore(Init(inbox));
      SlotsPartition(Init(inbox));
    } else {
      var last := |actions| - 1;
      NothingLostExactly(inbox, actions[..last], workers);
      ShorterClear(inbox, actions, workers);
      ShorterPartitioned(inbox, actions, workers);
      if RunClear(inbox, actions[..last], workers) {
        var s := Run(inbox, actions[..last], workers);
        ClearSlots(inbox, actions[..last], workers);
        if StepClear(s, actions[last], workers) {
          StepSlots(s, actions[last], workers);
          SlotsCore(Run(inbox, actions, workers));
          SlotsPartition(Run(inbox, actions, workers));
        } else {
          StepLoses(s, actions[last], workers);
        }
      }
    }
  }

  lemma SlotsCore(s: State)
    requires Slots(s)
    ensures Core(s)
  {
  }

  /** Distinct live ids are enough, though not needed: twins may wait in the queue together. */
  lemma DistinctIdsAreClear(inbox: map<File, Content>, actions: seq<Action>, workers: nat)
    requires workers >= 1 && DistinctLiveIds(inbox, actions, workers)
    ensures RunClear(inbox, actions, workers)
  {
    hide FreshId, Run, Partitioned, RunClear, Core;
    forall n | 0 <= n <= |actions| ensures Partitioned(Run(inbox, actions[..n], workers)) {
      RelayRuns.PrefixDistinct(inbox, actions, n, workers);
      RelayRuns.RunInv(inbox, actions[..n], workers);
      SlotsPartition(Run(inbox, actions[..n], workers));
    }
    NothingLostExactly(inbox, actions, workers);
  }
}

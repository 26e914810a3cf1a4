/** What holds along every run of the relay whose live ids are distinct. */
module RelayRuns {
  import opened Text
  import opened RelayProtocol
  import opened RelaySafety

  /** Work left: two steps for a pending request, one for an active one. */
  function Load(s: State): nat {
    2 * |s.pending| + |s.active|
  }

  /** Histories only grow. */
  predicate Extends(s: State, t: State) {
    s.received <= t.received && s.submitted <= t.submitted && s.finished <= t.finished && (s.stop ==> t.stop)
  }

  /** Once stopped, outside the receiving pass, nothing is received and each start and each
      finish uses up one unit of the load. */
  predicate Drains(s: State, t: State) {
    s.stop && !s.pc.Receiving? ==>
      && t.received == s.received && !t.pc.Receiving?
      && Load(t) + (|t.submitted| - |s.submitted|) + (|t.finished| - |s.finished|) == Load(s)
  }

  lemma ReceiveStep(s: State, file: File, workers: nat)
    requires Inv(s, workers) && s.pc.Receiving?
    requires Waiting(s, file) ==> forall r :: r in Live(s) ==> r.id != RequestId(file, s.inbox[file].p)
    ensures var t := Receive(s, file); Inv(t, workers) && Extends(s, t)
  {
    hide Core, Names, Lanes, Fifo, Accept, Reject;
    if Waiting(s, file) {
      var r := Admit(|s.received|, file, s.inbox[file].p);
      assert forall q :: q in s.pending || q in s.active ==> q in Live(s);
      if r.allowed {
        AcceptInv(s, r, workers);
        AcceptPc(s, r);
        DoneKept(s, Accept(s, r));
      } else {
        RejectInv(s, r, workers);
        RejectPc(s, r);
        DoneKept(s, Reject(s, r));
      }
    }
  }

  lemma AcceptPc(s: State, r: Req)
    ensures Accept(s, r).pc == s.pc && Accept(s, r).stop == s.stop && Extends(s, Accept(s, r))
  {
  }

  lemma RejectPc(s: State, r: Req)
    ensures Reject(s, r).pc == s.pc && Reject(s, r).stop == s.stop && Extends(s, Reject(s, r))
  {
  }

  lemma CollectStep(s: State, workers: nat)
    requires Inv(s, workers) && s.pc.Collecting? && s.pc.reqs != []
    ensures var t := Collect(s, s.pc.reqs[0]).(pc := Collecting(s.pc.reqs[1..]));
            Inv(t, workers) && Extends(s, t) && Drains(s, t)
  {
    hide Core, Names, Lanes, Fifo, Finish;
    var r := s.pc.reqs[0];
    if r.rid in s.done {
      var v := VerdictOf(r.lane, s.done[r.rid]);
      FinishInv(s, r, v, workers);
      FinishStop(s, r, v);
      NotYetFinished(s, r);
      SameFacts(Finish(s, r, v), Collecting(s.pc.reqs[1..]), workers);
      DoneKept(s, Finish(s, r, v));
    } else {
      SameFacts(s, Collecting(s.pc.reqs[1..]), workers);
    }
  }

  lemma FinishStop(s: State, r: Req, v: Verdict)
    ensures Finish(s, r, v).stop == s.stop
  {
  }

  lemma NotYetFinished(s: State, r: Req)
    requires Core(s) && r in s.active
    ensures r.rid !in s.finished && r.rid < |s.received|
  {
    assert Known(s, r);
  }

  /** The program counter does not matter to the other parts of the invariant. */
  lemma SameFacts(s: State, pc: Pc, workers: nat)
    ensures Core(s) == Core(s.(pc := pc)) && Names(s) == Names(s.(pc := pc))
    ensures Lanes(s, workers) == Lanes(s.(pc := pc), workers) && Fifo(s) == Fifo(s.(pc := pc))
  {
    assert forall r :: Known(s, r) == Known(s.(pc := pc), r);
  }

  lemma WriteStatusFacts(s: State, workers: nat)
    ensures Core(s) == Core(WriteStatus(s)) && Names(s) == Names(WriteStatus(s))
    ensures Lanes(s, workers) == Lanes(WriteStatus(s), workers) && Fifo(s) == Fifo(WriteStatus(s))
    ensures Control(s) == Control(WriteStatus(s))
  {
    assert forall r :: Known(s, r) == Known(WriteStatus(s), r);
  }

  lemma DispatchStep(s: State, heartbeat: bool, workers: nat)
    requires Inv(s, workers) && s.pc.Dispatching? && workers >= 1
    ensures var d := Dispatch(s, workers);
            var t := (if heartbeat then WriteStatus(d) else d).(pc := Checking);
            Inv(t, workers) && Extends(s, t) && Drains(s, t)
            && (s.pending != [] && s.active == [] ==> |s.submitted| < |t.submitted|)
            && (Mates(t.pending, Get) == [] || |Mates(t.active, Get)| >= workers)
            && (Mates(t.pending, Post) == [] || Mates(t.active, Post) != [])
  {
    hide Core, Names, Lanes, Fifo, Dispatch;
    DispatchInv(s, workers);
    var d := Dispatch(s, workers);
    WriteStatusFacts(d, workers);
    SameFacts(d, Checking, workers);
    SameFacts(WriteStatus(d), Checking, workers);
    DispatchLoad(s, workers);
  }

  lemma {:induction false} StartGetsLoad(s: State, snapshot: seq<Req>, running: nat, workers: nat)
    requires Inv(s, workers) && s.pc.Dispatching?
    requires Mates(snapshot, Get) == Mates(s.pending, Get) && running == |Mates(s.active, Get)|
    ensures Load(StartGets(s, snapshot, running, workers)) + |StartGets(s, snapshot, running, workers).submitted|
            == Load(s) + |s.submitted|
    decreases |snapshot|
  {
    hide Start, Core, Names, Mates, Fifo;
    if snapshot != [] {
      var r := snapshot[0];
      MatesFront(snapshot, Get);
      if r.lane == Get && running < workers {
        MatesMember(s.pending, Get, r);
        StartKeepsInv(s, r, workers);
        StartInv(s, r, workers);
        MatesAppend(s.active, [r], Get);
        MatesOne(r, Get);
        assert Mates(s.pending, Get)[1..] == Mates(Start(s, r).pending, Get);
        StartGetsLoad(Start(s, r), snapshot[1..], running + 1, workers);
      } else if r.lane != Get {
        StartGetsLoad(s, snapshot[1..], running, workers);
      } else {
        StartGetsFull(s, snapshot, running, workers);
      }
    }
  }

  lemma DispatchLoad(s: State, workers: nat)
    requires Inv(s, workers) && s.pc.Dispatching? && workers >= 1
    ensures Load(Dispatch(s, workers)) + |Dispatch(s, workers).submitted| == Load(s) + |s.submitted|
  {
    hide Start, Names, Mates, Fifo, StartGets;
    StartGetsLoad(s, s.pending, |Mates(s.active, Get)|, workers);
    StartGetsInv(s, s.pending, |Mates(s.active, Get)|, workers);
    var g := StartGets(s, s.pending, |Mates(s.active, Get)|, workers);
    FirstPostIsFirst(g.pending);
    if Mates(g.active, Post) == [] && FirstPost(g.pending).Some? {
      StartInv(g, FirstPost(g.pending).value, workers);
    }
  }

  lemma TurnInv(s: State, listing: seq<File>, heartbeat: bool, workers: nat)
    requires Inv(s, workers) && workers >= 1 && FreshId(s, Turn(listing, heartbeat))
    ensures var t := TurnStep(s, listing, heartbeat, workers); Inv(t, workers) && Extends(s, t) && Drains(s, t)
  {
    hide Core, Names, Lanes, Fifo, Dispatch, Collect, Receive;
    match s.pc
    case Top =>
      CoreActive(s);
      SameFacts(s, Collecting(s.active), workers);
      SameFacts(s, Receiving(listing), workers);
    case Receiving(files) =>
      if files == [] {
        CoreActive(s);
        SameFacts(s, Collecting(s.active), workers);
      } else {
        ReceiveStep(s, files[0], workers);
        SameFacts(Receive(s, files[0]), Receiving(files[1..]), workers);
      }
    case Collecting(reqs) =>
      if reqs == [] {
        SameFacts(s, Dispatching, workers);
      } else {
        CollectStep(s, workers);
      }
    case Dispatching =>
      DispatchStep(s, heartbeat, workers);
    case Checking =>
      SameFacts(s, Exited, workers);
      SameFacts(s, Top, workers);
    case Exited =>
  }

  /** The inbox, the stop flag and new results do not matter to most of the invariant. */
  lemma SameRequests(s: State, t: State, workers: nat)
    requires t.active == s.active && t.pending == s.pending && t.submitted == s.submitted
    requires t.received == s.received && t.finished == s.finished && t.seen == s.seen
    ensures Core(s) ==> Core(t)
    ensures Names(s) ==> Names(t)
    ensures Lanes(s, workers) == Lanes(t, workers) && Fifo(s) == Fifo(t)
  {
    assert forall r :: Known(s, r) == Known(t, r);
  }

  lemma EnvironmentInv(s: State, a: Action, workers: nat)
    requires Inv(s, workers) && !a.Turn?
    ensures var t := Next(s, a, workers); Inv(t, workers) && Extends(s, t) && Drains(s, t)
  {
    hide Core, Names, Fifo, Lanes;
    SameRequests(s, Next(s, a, workers), workers);
  }

  lemma InitInv(inbox: map<File, Content>, workers: nat)
    ensures Inv(Init(inbox), workers)
  {
    MatesNone(Get);
    MatesNone(Post);
    MatesNone(Rejected);
  }

  lemma NextInv(s: State, a: Action, workers: nat)
    requires Inv(s, workers) && workers >= 1 && FreshId(s, a)
    ensures var t := Next(s, a, workers); Inv(t, workers) && Extends(s, t) && Drains(s, t)
  {
    hide Inv, TurnStep, Drains, Extends;
    match a
    case Turn(listing, heartbeat) => TurnInv(s, listing, heartbeat, workers);
    case _ => EnvironmentInv(s, a, workers);
  }

  /** MAIN: the invariant holds after every run with distinct live ids, whatever the inbox
      writes, completions, stop requests and turns of the relay. */
  lemma {:induction false} RunInv(inbox: map<File, Content>, actions: seq<Action>, workers: nat)
    requires workers >= 1 && DistinctLiveIds(inbox, actions, workers)
    ensures Inv(Run(inbox, actions, workers), workers)
  {
    hide Inv, FreshId, Next;
    if actions == [] {
      InitInv(inbox, workers);
    } else {
      var last := |actions| - 1;
      forall n | 0 <= n < last ensures FreshId(Run(inbox, actions[..last][..n], workers), actions[..last][n]) {
        assert actions[..last][..n] == actions[..n];
      }
      RunInv(inbox, actions[..last], workers);
      NextInv(Run(inbox, actions[..last], workers), actions[last], workers);
    }
  }

  lemma PrefixDistinct(inbox: map<File, Content>, actions: seq<Action>, m: nat, workers: nat)
    requires m <= |actions| && DistinctLiveIds(inbox, actions, workers)
    ensures DistinctLiveIds(inbox, actions[..m], workers)
  {
    hide FreshId;
    forall n | 0 <= n < m ensures FreshId(Run(inbox, actions[..m][..n], workers), actions[..m][n]) {
      assert actions[..m][..n] == actions[..n];
    }
  }

  /** One more step, after a shorter run. */
  lemma LastStep(inbox: map<File, Content>, actions: seq<Action>, workers: nat)
    requires workers >= 1 && actions != [] && DistinctLiveIds(inbox, actions, workers)
    ensures var last := |actions| - 1;
            var s, t := Run(inbox, actions[..last], workers), Run(inbox, actions, workers);
            DistinctLiveIds(inbox, actions[..last], workers)
            && FreshId(s, actions[last]) && t == Next(s, actions[last], workers)
            && Inv(s, workers) && Inv(t, workers) && Extends(s, t) && Drains(s, t)
  {
    hide Inv, FreshId, Next, Extends, Drains;
    var last := |actions| - 1;
    PrefixDistinct(inbox, actions, last, workers);
    RunInv(inbox, actions[..last], workers);
    assert FreshId(Run(inbox, actions[..last], workers), actions[last]);
    NextInv(Run(inbox, actions[..last], workers), actions[last], workers);
  }

  lemma {:induction false} RunExtends(inbox: map<File, Content>, actions: seq<Action>, m: nat, workers: nat)
    requires workers >= 1 && m <= |actions| && DistinctLiveIds(inbox, actions, workers)
    ensures Extends(Run(inbox, actions[..m], workers), Run(inbox, actions, workers))
    decreases |actions|
  {
    hide Inv, FreshId, Next, Run;
    if m == |actions| {
      assert actions[..m] == actions;
    } else {
      var last := |actions| - 1;
      LastStep(inbox, actions, workers);
      RunExtends(inbox, actions[..last], m, workers);
      assert actions[..last][..m] == actions[..m];
    }
  }

  /** MAIN: after a stop, once the receiving pass is over, nothing more is received, and what
      remains to do, twice the pending requests plus the active ones, goes down by one with
      every start and every finish, through any further run. */
  lemma {:induction false} StopDrains(inbox: map<File, Content>, actions: seq<Action>, m: nat, workers: nat)
    requires workers >= 1 && m <= |actions| && DistinctLiveIds(inbox, actions, workers)
    requires Run(inbox, actions[..m], workers).stop && !Run(inbox, actions[..m], workers).pc.Receiving?
    ensures var s, t := Run(inbox, actions[..m], workers), Run(inbox, actions, workers);
            && t.received == s.received && t.stop && !t.pc.Receiving?
            && Load(t) + (|t.submitted| - |s.submitted|) + (|t.finished| - |s.finished|) == Load(s)
    decreases |actions|
  {
    hide Inv, FreshId, Next, Run;
    if m == |actions| {
      assert actions[..m] == actions;
    } else {
      var last := |actions| - 1;
      LastStep(inbox, actions, workers);
      assert actions[..last][..m] == actions[..m];
      StopDrains(inbox, actions[..last], m, workers);
    }
  }

  /** MAIN: whenever requests wait and none runs, the next dispatch starts at least one. */
  lemma Progress(inbox: map<File, Content>, actions: seq<Action>, workers: nat, heartbeat: bool)
    requires workers >= 1 && DistinctLiveIds(inbox, actions, workers)
    requires var s := Run(inbox, actions, workers); s.pc.Dispatching? && s.pending != [] && s.active == []
    ensures var s := Run(inbox, actions, workers);
            |TurnStep(s, [], heartbeat, workers).submitted| > |s.submitted|
  {
    hide Run;
    RunInv(inbox, actions, workers);
    DispatchStep(Run(inbox, actions, workers), heartbeat, workers);
  }

  /** MAIN: after every dispatch a lane with a waiting request is full: `workers` GETs run, or
      one POST. */
  lemma LanesFilled(inbox: map<File, Content>, actions: seq<Action>, workers: nat, heartbeat: bool)
    requires workers >= 1 && DistinctLiveIds(inbox, actions, workers)
    requires Run(inbox, actions, workers).pc.Dispatching?
    ensures var t := TurnStep(Run(inbox, actions, workers), [], heartbeat, workers);
            && (Mates(t.pending, Get) == [] || |Mates(t.active, Get)| == workers)
            && (Mates(t.pending, Post) == [] || |Mates(t.active, Post)| == 1)
  {
    hide Run, Dispatch, Mates, Core, Names, Fifo;
    RunInv(inbox, actions, workers);
    DispatchStep(Run(inbox, actions, workers), heartbeat, workers);
  }

  /** MAIN: each received request is handed to the executor at most once and a rejected one
      never; the lanes respect their limits; pending, active and finished partition what was
      received; and `seen_files` is exactly the files of the pending and active requests. */
  lemma Safety(inbox: map<File, Content>, actions: seq<Action>, workers: nat)
    requires workers >= 1 && DistinctLiveIds(inbox, actions, workers)
    ensures var s := Run(inbox, actions, workers);
            && (forall i, j :: 0 <= i < j < |s.submitted| ==> s.submitted[i].rid != s.submitted[j].rid)
            && (forall r :: r in s.submitted ==> r.allowed && r.rid < |s.received| && s.received[r.rid] == r)
            && |Mates(s.active, Get)| <= workers && |Mates(s.active, Post)| <= 1
            && (forall i :: 0 <= i < |s.received| ==>
                  var r := s.received[i];
                  && (r in s.pending ==> r !in s.active && r !in s.submitted && i !in s.finished)
                  && (r in s.active ==> r in s.submitted && i !in s.finished)
                  && (r in s.pending || r in s.active || i in s.finished))
            && s.seen == set r | r in Live(s) :: r.file
  {
    RunInv(inbox, actions, workers);
    var s := Run(inbox, actions, workers);
    forall i, j | 0 <= i < j < |s.submitted| ensures s.submitted[i].rid != s.submitted[j].rid {
      assert Known(s, s.submitted[i]) && Known(s, s.submitted[j]);
    }
    forall r | r in s.submitted ensures r.allowed && r.rid < |s.received| && s.received[r.rid] == r {
      assert Known(s, r);
    }
    assert forall r :: r in Live(s) <==> r in s.pending || r in s.active;
    assert s.seen == set r | r in Live(s) :: r.file;
  }

  /** MAIN: `run` ends only when every received request has its outbox file written. */
  lemma ExitOnlyWhenDone(inbox: map<File, Content>, actions: seq<Action>, workers: nat)
    requires workers >= 1 && DistinctLiveIds(inbox, actions, workers)
    ensures var s := Run(inbox, actions, workers);
            s.pc.Exited? ==> s.stop && s.pending == [] && s.active == []
                             && forall i :: 0 <= i < |s.received| ==> i in s.finished
  {
    RunInv(inbox, actions, workers);
  }

  // ----- queue positions

  lemma {:induction false} AcceptedPrefix(a: seq<Req>, b: seq<Req>)
    requires a <= b
    ensures Accepted(a) <= Accepted(b)
    decreases |b|
  {
    if a != b {
      assert a <= b[..|b| - 1];
      AcceptedPrefix(a, b[..|b| - 1]);
    }
  }

  lemma MatesPrefix(a: seq<Req>, b: seq<Req>, lane: Lane)
    requires a <= b
    ensures Mates(a, lane) <= Mates(b, lane)
  {
    assert b == a + b[|a|..];
    MatesAppend(a, b[|a|..], lane);
  }

  lemma QueueIndex(q: seq<Req>, i: nat)
    requires i < |q|
    ensures var l := q[i].lane;
            1 <= QueuePosition(q, i) <= |Mates(q, l)| && Mates(q, l)[QueuePosition(q, i) - 1] == q[i]
  {
    SplitMates(q, i, q[i].lane);
  }

  lemma {:induction false} MatesUnrepeated(q: seq<Req>, lane: Lane)
    requires Unrepeated(q)
    ensures Unrepeated(Mates(q, lane))
  {
    if q != [] {
      MatesUnrepeated(q[..|q| - 1], lane);
      MatesMember(q[..|q| - 1], lane, q[|q| - 1]);
    }
  }

  /** MAIN: the reported position is exact. A request at position p of its lane is, at any
      later time, either still queued, p less the starts of its lane since then, or it was
      the p-th of those starts. So positions never increase and lanes are first-in first-out. */
  lemma QueuePositionExact(inbox: map<File, Content>, actions: seq<Action>, m: nat, workers: nat, i: nat)
    requires workers >= 1 && m <= |actions| && DistinctLiveIds(inbox, actions, workers)
    requires i < |Run(inbox, actions[..m], workers).pending|
    ensures var s, t := Run(inbox, actions[..m], workers), Run(inbox, actions, workers);
            var r, p := s.pending[i], QueuePosition(s.pending, i);
            var before, after := Mates(s.submitted, r.lane), Mates(t.submitted, r.lane);
            && before <= after
            && (r in t.submitted ==> |before| + p <= |after| && after[|before| + p - 1] == r)
            && (r !in t.submitted ==>
                  && r in t.pending
                  && forall j :: 0 <= j < |t.pending| && t.pending[j] == r ==>
                       QueuePosition(t.pending, j) == p - (|after| - |before|))
  {
    hide QueuePosition, Mates, FreshId;
    var s, t := Run(inbox, actions[..m], workers), Run(inbox, actions, workers);
    PrefixDistinct(inbox, actions, m, workers);
    RunInv(inbox, actions[..m], workers);
    RunInv(inbox, actions, workers);
    RunExtends(inbox, actions, m, workers);
    PositionFacts(s, t, i, workers);
  }

  lemma PositionFacts(s: State, t: State, i: nat, workers: nat)
    requires Inv(s, workers) && Inv(t, workers) && Extends(s, t) && i < |s.pending|
    ensures var r, p := s.pending[i], QueuePosition(s.pending, i);
            var before, after := Mates(s.submitted, r.lane), Mates(t.submitted, r.lane);
            && before <= after
            && (r in t.submitted ==> |before| + p <= |after| && after[|before| + p - 1] == r)
            && (r !in t.submitted ==>
                  && r in t.pending
                  && forall j :: 0 <= j < |t.pending| && t.pending[j] == r ==>
                       QueuePosition(t.pending, j) == p - (|after| - |before|))
  {
    hide QueuePosition, Mates, Names, Lanes, Control;
    var r, p := s.pending[i], QueuePosition(s.pending, i);
    var l := r.lane;
    var before, after, queue := Mates(s.submitted, l), Mates(t.submitted, l), Mates(t.pending, l);
    MatesPrefix(s.submitted, t.submitted, l);
    AcceptedPrefix(s.received, t.received);
    MatesPrefix(Accepted(s.received), Accepted(t.received), l);
    QueueIndex(s.pending, i);
    var k := |before| + p - 1;
    assert (before + Mates(s.pending, l))[k] == r;
    assert (after + queue)[k] == r;
    MatesUnrepeated(t.pending, l);
    MatesUnrepeated(t.submitted, l);
    MatesMember(t.submitted, l, r);
    MatesMember(t.pending, l, r);
    if k < |after| {
      assert after[k] == r;
    } else {
      assert queue[k - |after|] == r;
      assert r in t.pending;
      forall j | 0 <= j < |t.pending| && t.pending[j] == r
        ensures QueuePosition(t.pending, j) == p - (|after| - |before|)
      {
        QueueIndex(t.pending, j);
      }
    }
  }
}

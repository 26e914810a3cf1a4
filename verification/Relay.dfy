/** The class Relay: its queues, slots and files as fields, its methods with their loops, each
    proved to make exactly the step of RelayProtocol it stands for. The files it writes, its
    inbox and the finished futures are fields too, so that a whole pass of `run` is one method. */
module Relay {
  import opened Text
  import P = RelayProtocol

  class Relay {
    const workers: nat
    var pending: seq<P.Req>
    var active: seq<P.Req>
    var seen: set<P.File>
    var stop: bool
    var inbox: map<P.File, P.Content>
    var disk: P.Disk
    var done: map<nat, P.Output>
    var count: nat                    // requests received so far, which numbers them
    ghost var received: seq<P.Req>
    ghost var submitted: seq<P.Req>
    ghost var finished: set<nat>
    ghost var log: seq<P.Disk>
    ghost var pc: P.Pc

    ghost predicate Valid()
      reads this
    {
      count == |received|
    }

    ghost function Abs(): P.State
      reads this
    {
      P.State(pending, active, seen, stop, pc, inbox, disk, done, submitted, received, finished, log)
    }

    constructor (files: map<P.File, P.Content>, getWorkers: nat)
      requires getWorkers >= 1
      ensures Valid() && Abs() == P.Init(files) && workers == getWorkers
    {
      workers := getWorkers;
      pending, active, seen, stop, inbox := [], [], {}, false, files;
      disk, done, count := P.EmptyDisk(), map[], 0;
      received, submitted, finished, log, pc := [], [], {}, [P.EmptyDisk()], P.Top;
    }

    /** `_queue_position`. */
    method QueuePosition(i: nat) returns (p: nat)
      requires i < |pending|
      ensures p == P.QueuePosition(pending, i)
    {
      var mates := 0;
      for k := 0 to i
        invariant mates == |P.Mates(pending[..k], pending[i].lane)|
      {
        assert pending[..k + 1][..k] == pending[..k];
        if pending[k].lane == pending[i].lane {
          mates := mates + 1;
        }
      }
      p := mates + 1;
    }

    /** `_status`. */
    method CurrentStatus() returns (st: P.Status)
      ensures st == P.StatusOf(pending, active)
    {
      var queue: seq<(P.Id, nat)> := [];
      for i := 0 to |pending|
        invariant |queue| == i
        invariant forall k :: 0 <= k < i ==> queue[k] == (pending[k].id, P.QueuePosition(pending, k))
      {
        var p := QueuePosition(i);
        queue := queue + [(pending[i].id, p)];
      }
      st := P.Status(P.Ids(active), queue);
    }

    method Write(d: P.Disk)
      modifies this`disk, this`log
      ensures Abs() == P.Write(old(Abs()), d)
    {
      disk := d;
      log := log + [d];
    }

    method WriteStatus()
      modifies this`disk, this`log
      ensures Abs() == P.WriteStatus(old(Abs()))
    {
      var st := CurrentStatus();
      Write(disk.(status := st));
    }

    method PersistRequest(r: P.Req, phase: P.Phase)
      modifies this`disk, this`log
      ensures Abs() == P.Persist(old(Abs()), r, phase)
    {
      Write(disk.(inflight := disk.inflight[r.id := phase]));
    }

    /** `_finish`. */
    method Finish(r: P.Req, v: P.Verdict)
      requires Valid()
      modifies this
      ensures Valid() && Abs() == P.Finish(old(Abs()), r, v)
    {
      Write(disk.(outbox := disk.outbox[r.id := v]));
      Write(disk.(inflight := disk.inflight - {r.id}));
      inbox := inbox - {r.file};
      active := P.Pop(active, r.id);
      pending := P.Remove(pending, r);
      seen := seen - {r.file};
      finished := finished + {r.rid};
      WriteStatus();
    }

    /** One file of `_receive_files`. */
    method ReceiveFile(file: P.File)
      requires Valid()
      modifies this
      ensures Valid() && Abs() == P.Receive(old(Abs()), file)
    {
      hide P.StatusOf, P.Mates, P.Pop, P.Remove;
      if file in seen || file !in inbox || inbox[file].Unreadable? {
        return;
      }
      var r := P.Admit(count, file, inbox[file].p);
      count := count + 1;
      received := received + [r];
      seen := seen + {file};
      if r.allowed {
        pending := pending + [r];
        PersistRequest(r, P.QueuedPhase);
        WriteStatus();
      } else {
        PersistRequest(r, P.ReceivedPhase);
        WriteStatus();
        Finish(r, P.Completed);
      }
    }

    /** `_receive_files` on a listing of the inbox. */
    method ReceiveFiles(listing: seq<P.File>)
      requires Valid()
      modifies this
      ensures Valid() && Abs() == ReceiveAll(old(Abs()), listing)
    {
      for i := 0 to |listing|
        invariant Valid() && Abs() == ReceiveAll(old(Abs()), listing[..i])
      {
        ReceiveFile(listing[i]);
        assert listing[..i + 1][..i] == listing[..i];
      }
      assert listing[..|listing|] == listing;
    }

    /** `_start`. */
    method Start(r: P.Req)
      requires Valid()
      modifies this
      ensures Valid() && Abs() == P.Start(old(Abs()), r)
    {
      pending := P.Remove(pending, r);
      active := P.Put(active, r);
      PersistRequest(r, P.RunningPhase);
      WriteStatus();
      submitted := submitted + [r];
    }

    /** `_dispatch`: GETs while slots are free, then the first POST when none is active. */
    method Dispatch()
      requires Valid()
      modifies this
      ensures Valid() && Abs() == P.Dispatch(old(Abs()), workers)
    {
      ghost var s := Abs();
      var snapshot := pending;
      var runningGets := 0;
      for i := 0 to |active|
        invariant runningGets == |P.Mates(active[..i], P.Get)|
      {
        assert active[..i + 1][..i] == active[..i];
        if active[i].lane == P.Get {
          runningGets := runningGets + 1;
        }
      }
      assert active[..|active|] == active;
      ghost var goal := P.StartGets(s, snapshot, runningGets, workers);
      for i := 0 to |snapshot|
        invariant Valid() && P.StartGets(Abs(), snapshot[i..], runningGets, workers) == goal
      {
        assert snapshot[i..][1..] == snapshot[i + 1..];
        if snapshot[i].lane == P.Get && runningGets < workers {
          Start(snapshot[i]);
          runningGets := runningGets + 1;
        }
      }
      assert Abs() == goal;
      for i := 0 to |active|
        invariant P.Mates(active[..i], P.Post) == []
      {
        assert active[..i + 1][..i] == active[..i];
        if active[i].lane == P.Post {
          MatesNonEmpty(active, i, P.Post);
          return;
        }
      }
      assert active[..|active|] == active;
      ghost var first := P.FirstPost(pending);
      for i := 0 to |pending|
        invariant Valid() && Abs() == goal && P.FirstPost(pending[i..]) == first
      {
        assert pending[i..][1..] == pending[i + 1..];
        if pending[i].lane == P.Post {
          Start(pending[i]);
          return;
        }
      }
    }

    /** `_collect_completed`. */
    method CollectCompleted()
      requires Valid()
      modifies this
      ensures Valid() && Abs() == CollectAll(old(Abs()), old(active))
    {
      var snapshot := active;
      for i := 0 to |snapshot|
        invariant Valid() && Abs() == CollectAll(old(Abs()), snapshot[..i])
      {
        assert snapshot[..i + 1][..i] == snapshot[..i];
        var r := snapshot[i];
        if r.rid in done {
          Finish(r, P.VerdictOf(r.lane, done[r.rid]));
        }
      }
      assert snapshot[..|snapshot|] == snapshot;
    }

    /** One pass of the loop of `run`; true when the relay ends. */
    method Pass(listing: seq<P.File>, heartbeat: bool) returns (ended: bool)
      requires Valid()
      modifies this
      ensures Valid() && ended == (stop && pending == [] && active == [])
      ensures Abs() == PassSpec(old(Abs()), listing, heartbeat, workers)
    {
      if !stop {
        ReceiveFiles(listing);
      }
      CollectCompleted();
      Dispatch();
      if heartbeat {
        WriteStatus();
      }
      ended := stop && pending == [] && active == [];
    }
  }

  lemma {:induction false} MatesNonEmpty(q: seq<P.Req>, i: nat, lane: P.Lane)
    requires i < |q| && q[i].lane == lane
    ensures P.Mates(q, lane) != []
  {
    if i < |q| - 1 {
      MatesNonEmpty(q[..|q| - 1], i, lane);
    }
  }

  function ReceiveAll(s: P.State, files: seq<P.File>): P.State {
    if files == [] then s else P.Receive(ReceiveAll(s, files[..|files| - 1]), files[|files| - 1])
  }

  function CollectAll(s: P.State, reqs: seq<P.Req>): P.State {
    if reqs == [] then s else P.Collect(CollectAll(s, reqs[..|reqs| - 1]), reqs[|reqs| - 1])
  }

  function PassSpec(s: P.State, listing: seq<P.File>, heartbeat: bool, workers: nat): P.State {
    var r := if s.stop then s else ReceiveAll(s, listing);
    var c := CollectAll(r, r.active);
    var d := P.Dispatch(c, workers);
    if heartbeat then P.WriteStatus(d) else d
  }

  // ----- a pass is a run of turns

  function Turns(s: P.State, listing: seq<P.File>, heartbeat: bool, workers: nat, n: nat): P.State {
    if n == 0 then s
    else P.TurnStep(Turns(s, listing, heartbeat, workers, n - 1), listing, heartbeat, workers)
  }

  lemma {:induction false} ReceiveTurns(s: P.State, files: seq<P.File>, listing: seq<P.File>, heartbeat: bool, workers: nat, k: nat)
    requires s.pc == P.Receiving(files) && k <= |files|
    ensures Turns(s, listing, heartbeat, workers, k) == ReceiveAll(s, files[..k]).(pc := P.Receiving(files[k..]))
  {
    hide P.Receive;
    if k > 0 {
      ReceiveTurns(s, files, listing, heartbeat, workers, k - 1);
      assert files[..k][..k - 1] == files[..k - 1];
      assert files[k - 1..][1..] == files[k..];
      ReceiveIgnoresPc(ReceiveAll(s, files[..k - 1]), files[k - 1], P.Receiving(files[k - 1..]));
    }
  }

  lemma FinishIgnoresPc(s: P.State, r: P.Req, v: P.Verdict, pc: P.Pc)
    ensures P.Finish(s.(pc := pc), r, v) == P.Finish(s, r, v).(pc := pc)
  {
    hide P.StatusOf, P.Pop, P.Remove;
  }

  lemma AcceptIgnoresPc(s: P.State, r: P.Req, pc: P.Pc)
    ensures P.Accept(s.(pc := pc), r) == P.Accept(s, r).(pc := pc)
  {
    hide P.StatusOf;
  }

  lemma RejectIgnoresPc(s: P.State, r: P.Req, pc: P.Pc)
    ensures P.Reject(s.(pc := pc), r) == P.Reject(s, r).(pc := pc)
  {
    hide P.StatusOf, P.Finish;
    var t := s.(seen := s.seen + {r.file}, received := s.received + [r]);
    FinishIgnoresPc(P.WriteStatus(P.Persist(t, r, P.ReceivedPhase)), r, P.Completed, pc);
  }

  lemma ReceiveIgnoresPc(s: P.State, file: P.File, pc: P.Pc)
    ensures P.Receive(s.(pc := pc), file) == P.Receive(s, file).(pc := pc)
  {
    hide P.Admit, P.Accept, P.Reject;
    if P.Waiting(s, file) {
      var r := P.Admit(|s.received|, file, s.inbox[file].p);
      AcceptIgnoresPc(s, r, pc);
      RejectIgnoresPc(s, r, pc);
    }
  }

  lemma CollectIgnoresPc(s: P.State, r: P.Req, pc: P.Pc)
    ensures P.Collect(s.(pc := pc), r) == P.Collect(s, r).(pc := pc)
  {
  }

  lemma {:induction false} CollectTurns(s: P.State, reqs: seq<P.Req>, listing: seq<P.File>, heartbeat: bool, workers: nat, k: nat)
    requires s.pc == P.Collecting(reqs) && k <= |reqs|
    ensures Turns(s, listing, heartbeat, workers, k) == CollectAll(s, reqs[..k]).(pc := P.Collecting(reqs[k..]))
  {
    hide P.Collect;
    if k > 0 {
      CollectTurns(s, reqs, listing, heartbeat, workers, k - 1);
      assert reqs[..k][..k - 1] == reqs[..k - 1];
      assert reqs[k - 1..][1..] == reqs[k..];
      CollectIgnoresPc(CollectAll(s, reqs[..k - 1]), reqs[k - 1], P.Collecting(reqs[k - 1..]));
    }
  }

  lemma {:induction false} CollectAllIgnoresPc(s: P.State, reqs: seq<P.Req>, pc: P.Pc)
    ensures CollectAll(s.(pc := pc), reqs) == CollectAll(s, reqs).(pc := pc)
  {
    hide P.Collect;
    if reqs != [] {
      CollectAllIgnoresPc(s, reqs[..|reqs| - 1], pc);
      CollectIgnoresPc(CollectAll(s, reqs[..|reqs| - 1]), reqs[|reqs| - 1], pc);
    }
  }

  lemma {:induction false} ReceiveAllIgnoresPc(s: P.State, files: seq<P.File>, pc: P.Pc)
    ensures ReceiveAll(s.(pc := pc), files) == ReceiveAll(s, files).(pc := pc)
  {
    hide P.Receive;
    if files != [] {
      ReceiveAllIgnoresPc(s, files[..|files| - 1], pc);
      ReceiveIgnoresPc(ReceiveAll(s, files[..|files| - 1]), files[|files| - 1], pc);
    }
  }

  lemma StartIgnoresPc(s: P.State, r: P.Req, pc: P.Pc)
    ensures P.Start(s.(pc := pc), r) == P.Start(s, r).(pc := pc)
  {
    hide P.StatusOf, P.Put, P.Remove;
  }

  lemma {:induction false} StartGetsIgnoresPc(s: P.State, snapshot: seq<P.Req>, running: nat, workers: nat, pc: P.Pc)
    ensures P.StartGets(s.(pc := pc), snapshot, running, workers) == P.StartGets(s, snapshot, running, workers).(pc := pc)
    decreases |snapshot|
  {
    hide P.Start;
    if snapshot != [] {
      if snapshot[0].lane == P.Get && running < workers {
        StartIgnoresPc(s, snapshot[0], pc);
        StartGetsIgnoresPc(P.Start(s, snapshot[0]), snapshot[1..], running + 1, workers, pc);
      } else {
        StartGetsIgnoresPc(s, snapshot[1..], running, workers, pc);
      }
    }
  }

  lemma DispatchIgnoresPc(s: P.State, workers: nat, pc: P.Pc)
    ensures P.Dispatch(s.(pc := pc), workers) == P.Dispatch(s, workers).(pc := pc)
  {
    hide P.Start, P.StartGets, P.Mates, P.FirstPost;
    var n := |P.Mates(s.active, P.Get)|;
    StartGetsIgnoresPc(s, s.pending, n, workers, pc);
    var g := P.StartGets(s, s.pending, n, workers);
    if P.FirstPost(g.pending).Some? {
      StartIgnoresPc(g, P.FirstPost(g.pending).value, pc);
    }
  }

  lemma {:induction false} TurnsAdd(s: P.State, listing: seq<P.File>, heartbeat: bool, workers: nat, m: nat, n: nat)
    ensures Turns(s, listing, heartbeat, workers, m + n) == Turns(Turns(s, listing, heartbeat, workers, m), listing, heartbeat, workers, n)
  {
    hide P.TurnStep;
    if n > 0 {
      TurnsAdd(s, listing, heartbeat, workers, m, n - 1);
    }
  }

  lemma OneTurn(s: P.State, listing: seq<P.File>, heartbeat: bool, workers: nat)
    ensures Turns(s, listing, heartbeat, workers, 1) == P.TurnStep(s, listing, heartbeat, workers)
  {
    hide P.TurnStep;
    assert Turns(s, listing, heartbeat, workers, 0) == s;
  }

  /** From the collecting pass to the end of the loop body. */
  lemma SecondHalf(s: P.State, listing: seq<P.File>, heartbeat: bool, workers: nat)
    requires s.pc == P.Collecting(s.active)
    ensures var d := P.Dispatch(CollectAll(s, s.active), workers);
            var e := if heartbeat then P.WriteStatus(d) else d;
            Turns(s, listing, heartbeat, workers, |s.active| + 3) ==
            e.(pc := if e.stop && e.pending == [] && e.active == [] then P.Exited else P.Top)
  {
    hide P.Dispatch, P.Collect, P.StatusOf, Turns;
    var k := |s.active|;
    CollectTurns(s, s.active, listing, heartbeat, workers, k);
    assert s.active[..k] == s.active && s.active[k..] == [];
    var c := CollectAll(s, s.active);
    var t0 := c.(pc := P.Collecting([]));
    OneTurn(t0, listing, heartbeat, workers);
    var t1 := t0.(pc := P.Dispatching);
    OneTurn(t1, listing, heartbeat, workers);
    DispatchIgnoresPc(c, workers, P.Dispatching);
    var d := P.Dispatch(c, workers);
    var e := if heartbeat then P.WriteStatus(d) else d;
    var t2 := e.(pc := P.Checking);
    OneTurn(t2, listing, heartbeat, workers);
    TurnsAdd(s, listing, heartbeat, workers, k, 1);
    TurnsAdd(s, listing, heartbeat, workers, k + 1, 1);
    TurnsAdd(s, listing, heartbeat, workers, k + 2, 1);
  }

  /** MAIN: the method `Pass` is a run of turns of the protocol, so what RelayRuns proves about
      every run holds for the class. */
  lemma PassIsTurns(s: P.State, listing: seq<P.File>, heartbeat: bool, workers: nat)
    requires s.pc == P.Top && P.Listing(listing, s.inbox)
    ensures var e := PassSpec(s, listing, heartbeat, workers);
            exists n: nat :: Turns(s, listing, heartbeat, workers, n) ==
              e.(pc := if e.stop && e.pending == [] && e.active == [] then P.Exited else P.Top)
  {
    hide P.Dispatch, P.Collect, P.Receive, P.StatusOf, Turns, ReceiveAll, CollectAll;
    OneTurn(s, listing, heartbeat, workers);
    var r := if s.stop then s else ReceiveAll(s, listing);
    var c := r.(pc := P.Collecting(r.active));
    var m := if s.stop then 1 else |listing| + 2;
    assert Turns(s, listing, heartbeat, workers, m) == c by {
      if !s.stop {
        var k := |listing|;
        var t := s.(pc := P.Receiving(listing));
        ReceiveTurns(t, listing, listing, heartbeat, workers, k);
        assert listing[..k] == listing && listing[k..] == [];
        ReceiveAllIgnoresPc(s, listing, P.Receiving(listing));
        var u := r.(pc := P.Receiving([]));
        OneTurn(u, listing, heartbeat, workers);
        TurnsAdd(s, listing, heartbeat, workers, 1, k);
        TurnsAdd(s, listing, heartbeat, workers, k + 1, 1);
      }
    }
    SecondHalf(c, listing, heartbeat, workers);
    CollectAllIgnoresPc(r, r.active, P.Collecting(r.active));
    DispatchIgnoresPc(CollectAll(r, r.active), workers, P.Collecting(r.active));
    TurnsAdd(s, listing, heartbeat, workers, m, |c.active| + 3);
  }

  function Repeated(a: P.Action, n: nat): seq<P.Action> {
    seq(n, _ => a)
  }

  /** And turns after a run are a longer run: so every pass of the class, in between any actions
      of its environment, is part of a run of the protocol. */
  lemma {:induction false} TurnsAreRun(inbox: map<P.File, P.Content>, actions: seq<P.Action>, listing: seq<P.File>,
                                       heartbeat: bool, workers: nat, n: nat)
    ensures Turns(P.Run(inbox, actions, workers), listing, heartbeat, workers, n) ==
            P.Run(inbox, actions + Repeated(P.Turn(listing, heartbeat), n), workers)
  {
    hide P.TurnStep;
    var a := P.Turn(listing, heartbeat);
    if n == 0 {
      assert actions + Repeated(a, 0) == actions;
    } else {
      TurnsAreRun(inbox, actions, listing, heartbeat, workers, n - 1);
      var longer := actions + Repeated(a, n);
      assert longer[..|longer| - 1] == actions + Repeated(a, n - 1);
    }
  }

  /** MAIN: a pass of the class that starts where a run of the protocol stands at the top of its
      loop ends where a longer run stands. */
  lemma PassExtendsRun(inbox: map<P.File, P.Content>, actions: seq<P.Action>, listing: seq<P.File>,
                       heartbeat: bool, workers: nat)
    requires var s := P.Run(inbox, actions, workers); s.pc == P.Top && P.Listing(listing, s.inbox)
    ensures var e := PassSpec(P.Run(inbox, actions, workers), listing, heartbeat, workers);
            exists longer :: actions <= longer && P.Run(inbox, longer, workers) ==
              e.(pc := if e.stop && e.pending == [] && e.active == [] then P.Exited else P.Top)
  {
    hide P.Run, PassSpec, Turns;
    var s := P.Run(inbox, actions, workers);
    var e := PassSpec(s, listing, heartbeat, workers);
    PassIsTurns(s, listing, heartbeat, workers);
    var n: nat :| Turns(s, listing, heartbeat, workers, n) ==
                  e.(pc := if e.stop && e.pending == [] && e.active == [] then P.Exited else P.Top);
    TurnsAreRun(inbox, actions, listing, heartbeat, workers, n);
    assert actions <= actions + Repeated(P.Turn(listing, heartbeat), n);
  }
}

/** The client of the relay (`request_status` of relayget.py): what it reads is exact between
    the turns of the relay and only moves forward along every run with distinct live ids. */
module RelayClient {
  import opened Text
  import opened RelayProtocol
  import opened RelaySafety
  import opened RelayRuns

  datatype View = NotSeen | InFlightFile(phase: Phase) | Queued(position: nat) | Running | Terminal(v: Verdict)

  function FindQueued(queue: seq<(Id, nat)>, id: Id): (r: Option<nat>)
    ensures r.None? <==> forall k :: 0 <= k < |queue| ==> queue[k].0 != id
    ensures r.Some? ==> exists k :: 0 <= k < |queue| && queue[k] == (id, r.value)
  {
    if queue == [] then None
    else if queue[0].0 == id then
      assert queue[0] == (id, queue[0].1);
      Some(queue[0].1)
    else
      var rest := FindQueued(queue[1..], id);
      assert forall k :: 0 < k < |queue| ==> queue[k] == queue[1..][k - 1];
      rest
  }

  /** The outbox file first, then the status file, then the inflight file. */
  function ViewOf(d: Disk, id: Id): View {
    if id in d.outbox then Terminal(d.outbox[id])
    else if id in d.status.inFlight then Running
    else
      match FindQueued(d.status.queue, id)
      case Some(p) => Queued(p)
      case None => if id in d.inflight then InFlightFile(d.inflight[id]) else NotSeen
  }

  function Rank(v: View): nat {
    match v
    case NotSeen => 0
    case InFlightFile(phase) => if phase == RunningPhase then 2 else 1
    case Queued(_) => 1
    case Running => 2
    case Terminal(_) => 3
  }

  function RankOf(d: Disk, id: Id): nat {
    Rank(ViewOf(d, id))
  }

  /** `request_status` on one snapshot of the files. */
  method RequestStatus(d: Disk, id: Id) returns (state: View)
    ensures state == ViewOf(d, id)
  {
    if id in d.outbox {
      state := Terminal(d.outbox[id]);
    } else {
      state := NotSeen;
    }
    if state == NotSeen {
      for k := 0 to |d.status.inFlight|
        invariant id !in d.status.inFlight[..k]
      {
        if d.status.inFlight[k] == id {
          return Running;
        }
      }
      assert d.status.inFlight[..|d.status.inFlight|] == d.status.inFlight;
      ghost var found := FindQueued(d.status.queue, id);
      for k := 0 to |d.status.queue|
        invariant FindQueued(d.status.queue[k..], id) == found
      {
        if d.status.queue[k].0 == id {
          return Queued(d.status.queue[k].1);
        }
        assert d.status.queue[k..][1..] == d.status.queue[k + 1..];
      }
    }
    if state == NotSeen && id in d.inflight {
      state := InFlightFile(d.inflight[id]);
    }
  }

  // ----- the files between turns

  function IdsOf(q: seq<Req>): set<Id> {
    set r | r in q :: r.id
  }

  function FinishedIds(s: State): set<Id> {
    set i | i in s.finished && i < |s.received| :: s.received[i].id
  }

  predicate DiskInv(s: State) {
    && s.log != [] && s.log[|s.log| - 1] == s.disk
    && s.disk.status == StatusOf(s.pending, s.active)
    && s.disk.outbox.Keys == FinishedIds(s)
    && s.disk.inflight.Keys == IdsOf(s.pending) + IdsOf(s.active)
    && (forall r :: r in s.pending ==> r.id in s.disk.inflight && s.disk.inflight[r.id] == QueuedPhase)
    && (forall r :: r in s.active ==> r.id in s.disk.inflight && s.disk.inflight[r.id] == RunningPhase)
  }

  lemma StatusMembers(pending: seq<Req>, active: seq<Req>, id: Id)
    ensures var st := StatusOf(pending, active);
            && (id in st.inFlight <==> id in IdsOf(active))
            && (FindQueued(st.queue, id).Some? <==> id in IdsOf(pending))
  {
    var st := StatusOf(pending, active);
    if id in IdsOf(active) {
      var r :| r in active && r.id == id;
      var k :| 0 <= k < |active| && active[k] == r;
      assert st.inFlight[k] == id;
    }
    if id in st.inFlight {
      var k :| 0 <= k < |st.inFlight| && st.inFlight[k] == id;
      assert active[k] in active && active[k].id == id;
    }
    if id in IdsOf(pending) {
      var r :| r in pending && r.id == id;
      var k :| 0 <= k < |pending| && pending[k] == r;
      assert st.queue[k].0 == id;
    }
    if FindQueued(st.queue, id).Some? {
      var k :| 0 <= k < |st.queue| && st.queue[k] == (id, FindQueued(st.queue, id).value);
      assert pending[k] in pending && pending[k].id == id;
    }
  }

  // ----- the stages a request goes through on disk

  /** What the files say of an id: an outbox file, an inflight file, its places in the status. */
  datatype Marks = Marks(out: bool, file: Option<Phase>, running: bool, queued: bool)

  function MarksOf(d: Disk, id: Id): Marks {
    Marks(id in d.outbox, if id in d.inflight then Some(d.inflight[id]) else None,
          id in d.status.inFlight, FindQueued(d.status.queue, id).Some?)
  }

  /** Every write moves a request to a later stage: 0, 1, 3 to 8 when it is admitted, 0, 1, 2, 8
      when it is refused. */
  function Stage(m: Marks): nat {
    if m.out then
      if m.file == Some(RunningPhase) then 6
      else if m.file.Some? then 2
      else if m.running then 7
      else 8
    else if m.running then 5
    else if m.queued then (if m.file == Some(RunningPhase) then 4 else 3)
    else if m.file.Some? then 1
    else 0
  }

  /** The combinations that do occur. */
  predicate Plausible(m: Marks) {
    && (m.out ==> !m.queued && (m.file.Some? ==> (m.running <==> m.file == Some(RunningPhase))))
    && (!m.out && m.running ==> m.file == Some(RunningPhase))
    && (!m.out && !m.running && m.queued ==> m.file.Some?)
    && (!m.out && !m.running && !m.queued ==> m.file != Some(RunningPhase))
  }

  function StageAt(d: Disk, id: Id): nat {
    Stage(MarksOf(d, id))
  }

  predicate PlausibleAt(d: Disk, id: Id) {
    Plausible(MarksOf(d, id))
  }

  /** The marks of an id on a disk whose status file is that of the given queue and slots. */
  lemma MarksFrom(d: Disk, pending: seq<Req>, active: seq<Req>, id: Id)
    requires d.status == StatusOf(pending, active)
    ensures var m := Marks(id in d.outbox, if id in d.inflight then Some(d.inflight[id]) else None,
                           id in IdsOf(active), id in IdsOf(pending));
            StageAt(d, id) == Stage(m) && PlausibleAt(d, id) == Plausible(m)
  {
    StatusMembers(pending, active, id);
  }

  // ----- one operation

  /** From s to t the disk states the client could read moved forward for the id. */
  predicate Advances(s: State, t: State, id: Id) {
    && s.log <= t.log && PlausibleAt(s.disk, id) && PlausibleAt(t.disk, id)
    && StageAt(s.disk, id) <= StageAt(t.disk, id)
    && (forall k :: |s.log| <= k < |t.log| ==>
          PlausibleAt(t.log[k], id) && StageAt(s.disk, id) <= StageAt(t.log[k], id) <= StageAt(t.disk, id))
    && (forall j, k :: |s.log| <= j <= k < |t.log| ==> StageAt(t.log[j], id) <= StageAt(t.log[k], id))
  }

  lemma AdvancesTransitive(s: State, t: State, u: State, id: Id)
    requires Advances(s, t, id) && Advances(t, u, id)
    ensures Advances(s, u, id)
  {
    hide StageAt, PlausibleAt;
  }

  /** Outbox files stay. */
  predicate Keeps(s: State, t: State, id: Id) {
    && s.log <= t.log && (id in s.disk.outbox ==> id in t.disk.outbox)
    && (forall k :: |s.log| <= k < |t.log| ==>
          (id in s.disk.outbox ==> id in t.log[k].outbox) && (id in t.log[k].outbox ==> id in t.disk.outbox))
    && (forall j, k :: |s.log| <= j <= k < |t.log| && id in t.log[j].outbox ==> id in t.log[k].outbox)
  }

  lemma KeepsTransitive(s: State, t: State, u: State, id: Id)
    requires Keeps(s, t, id) && Keeps(t, u, id)
    ensures Keeps(s, u, id)
  {
  }

  /** The id of an answered request is not that of a live one. */
  predicate OneLife(s: State, id: Id) {
    id in s.disk.outbox ==> id !in IdsOf(s.pending) && id !in IdsOf(s.active)
  }

  /** What an operation keeps and does for the client; `first` when it does not bring back the
      id of an answered request. */
  predicate Good(s: State, t: State, id: Id, first: bool) {
    DiskInv(t) && Keeps(s, t, id) && (OneLife(s, id) && first ==> Advances(s, t, id) && OneLife(t, id))
  }

  lemma GoodTransitive(s: State, t: State, u: State, id: Id)
    requires Good(s, t, id, true) && Good(t, u, id, true)
    ensures Good(s, u, id, true)
  {
    hide Advances, Keeps, DiskInv, OneLife;
    KeepsTransitive(s, t, u, id);
    if OneLife(s, id) {
      AdvancesTransitive(s, t, u, id);
    }
  }

  /** The id of r is not live. */
  predicate LiveNew(s: State, r: Req) {
    r.id !in IdsOf(s.pending) && r.id !in IdsOf(s.active)
  }

  lemma AcceptDisk(s: State, r: Req)
    requires Core(s) && DiskInv(s) && LiveNew(s, r)
    ensures DiskInv(Accept(s, r))
  {
    hide StatusOf;
    var t := Accept(s, r);
    assert FinishedIds(t) == FinishedIds(s);
    assert forall q :: q in t.pending <==> q in s.pending || q == r;
    assert IdsOf(t.pending) == IdsOf(s.pending) + {r.id};
    forall q | q in s.pending ensures q.id != r.id {
      assert q.id in IdsOf(s.pending);
    }
    forall q | q in s.active ensures q.id != r.id {
      assert q.id in IdsOf(s.active);
    }
  }

  /** The two writes for an admitted request. */
  lemma AcceptLog(s: State, r: Req)
    ensures var t := Accept(s, r);
            var d := s.disk.(inflight := s.disk.inflight[r.id := QueuedPhase]);
            && t.log == s.log + [d] + [t.disk] && t.disk == d.(status := StatusOf(t.pending, t.active))
            && t.received == s.received + [r] && t.finished == s.finished && t.active == s.active
            && IdsOf(t.pending) == IdsOf(s.pending) + {r.id}
  {
    hide StatusOf;
    assert forall q :: q in Accept(s, r).pending <==> q in s.pending || q == r;
  }

  lemma AcceptGood(s: State, r: Req, id: Id)
    requires Core(s) && DiskInv(s) && LiveNew(s, r)
    ensures Good(s, Accept(s, r), id, r.id == id ==> id !in s.disk.outbox)
  {
    hide StatusOf, StageAt, PlausibleAt, Accept, IdsOf, FinishedIds, Core;
    AcceptDisk(s, r);
    AcceptLog(s, r);
    var t := Accept(s, r);
    var d := s.disk.(inflight := s.disk.inflight[r.id := QueuedPhase]);
    MarksFrom(s.disk, s.pending, s.active, id);
    MarksFrom(d, s.pending, s.active, id);
    MarksFrom(t.disk, t.pending, t.active, id);
    LivePhases(s, id);
  }

  /** The phase of a live id, and no inflight file for another. */
  lemma LivePhases(s: State, id: Id)
    requires DiskInv(s)
    ensures id in IdsOf(s.pending) ==> id in s.disk.inflight && s.disk.inflight[id] == QueuedPhase
    ensures id in IdsOf(s.active) ==> id in s.disk.inflight && s.disk.inflight[id] == RunningPhase
    ensures id !in IdsOf(s.pending) && id !in IdsOf(s.active) ==> id !in s.disk.inflight
    ensures id in IdsOf(s.pending) ==> id !in IdsOf(s.active)
  {
  }

  /** r moved from the queue to a slot. */
  ghost predicate Moved(s: State, r: Req, t: State) {
    && r in s.pending && t.active == s.active + [r]
    && (forall x :: x in t.pending <==> x in s.pending && x != r)
  }

  lemma MovedIds(s: State, r: Req, t: State)
    requires Names(s) && Moved(s, r, t)
    ensures IdsOf(t.active) == IdsOf(s.active) + {r.id} && IdsOf(s.pending) == IdsOf(t.pending) + {r.id}
    ensures r.id !in IdsOf(t.pending) && r.id !in IdsOf(s.active)
  {
    assert forall q :: q in t.active <==> q in s.active || q == r;
  }

  /** The two writes of `_start`. */
  lemma StartLog(s: State, r: Req)
    ensures var t := Start(s, r);
            var d := s.disk.(inflight := s.disk.inflight[r.id := RunningPhase]);
            && t.log == s.log + [d] + [t.disk] && t.disk == d.(status := StatusOf(t.pending, t.active))
            && t.received == s.received && t.finished == s.finished
  {
    hide StatusOf;
  }

  lemma StartDisk(s: State, r: Req, t: State)
    requires Names(s) && DiskInv(s) && Moved(s, r, t) && t == Start(s, r)
    ensures DiskInv(t)
  {
    hide StatusOf, Names, Start;
    StartLog(s, r);
    MovedIds(s, r, t);
    assert FinishedIds(t) == FinishedIds(s);
    forall q | q in t.pending ensures q in s.pending && q.id != r.id {
      assert q.id in IdsOf(t.pending);
    }
    forall q | q in s.active ensures q.id != r.id {
      assert q.id in IdsOf(s.active);
    }
  }

  lemma StartGood(s: State, r: Req, t: State, id: Id)
    requires Names(s) && DiskInv(s) && Moved(s, r, t) && t == Start(s, r)
    ensures Good(s, t, id, true)
  {
    hide StatusOf, StageAt, PlausibleAt, Names, Start, IdsOf, FinishedIds;
    StartDisk(s, r, t);
    StartLog(s, r);
    MovedIds(s, r, t);
    var d := s.disk.(inflight := s.disk.inflight[r.id := RunningPhase]);
    MarksFrom(s.disk, s.pending, s.active, id);
    MarksFrom(d, s.pending, s.active, id);
    MarksFrom(t.disk, t.pending, t.active, id);
    LivePhases(s, id);
  }

  /** The three writes of `_finish`. */
  lemma FinishLog(s: State, r: Req, v: Verdict)
    ensures var t := Finish(s, r, v);
            var d1 := s.disk.(outbox := s.disk.outbox[r.id := v]);
            var d2 := d1.(inflight := d1.inflight - {r.id});
            t.log == s.log + [d1] + [d2] + [t.disk] && t.disk == d2.(status := StatusOf(t.pending, t.active))
  {
    hide StatusOf;
  }

  /** r left its slot. */
  ghost predicate Left(s: State, r: Req, t: State) {
    && r in s.active && t.pending == s.pending
    && (forall x :: x in t.active <==> x in s.active && x != r)
  }

  lemma LeftIds(s: State, r: Req, t: State)
    requires Names(s) && Left(s, r, t)
    ensures IdsOf(s.active) == IdsOf(t.active) + {r.id}
    ensures r.id !in IdsOf(t.active) && r.id !in IdsOf(t.pending)
  {
  }

  lemma FinishedGrows(s: State, r: Req, t: State)
    requires Core(s) && r in s.active
    requires t.received == s.received && t.finished == s.finished + {r.rid}
    ensures FinishedIds(t) == FinishedIds(s) + {r.id}
  {
    assert Known(s, r);
  }

  lemma FinishDisk(s: State, r: Req, v: Verdict, t: State)
    requires Core(s) && Names(s) && DiskInv(s) && Left(s, r, t) && t == Finish(s, r, v)
    requires t.received == s.received && t.finished == s.finished + {r.rid}
    ensures DiskInv(t)
  {
    hide StatusOf, Finish, Names, Core, FinishedIds;
    FinishLog(s, r, v);
    LeftIds(s, r, t);
    FinishedGrows(s, r, t);
    forall q | q in t.pending || q in t.active ensures q.id != r.id {
      assert q.id in IdsOf(t.pending) + IdsOf(t.active);
    }
  }

  lemma FinishGood(s: State, r: Req, v: Verdict, t: State, id: Id)
    requires Core(s) && Names(s) && DiskInv(s) && Left(s, r, t) && t == Finish(s, r, v)
    requires t.received == s.received && t.finished == s.finished + {r.rid}
    ensures Good(s, t, id, true)
  {
    hide StatusOf, StageAt, PlausibleAt, Finish, Names, IdsOf, Core, FinishedIds;
    FinishDisk(s, r, v, t);
    FinishLog(s, r, v);
    LeftIds(s, r, t);
    var d1 := s.disk.(outbox := s.disk.outbox[r.id := v]);
    var d2 := d1.(inflight := d1.inflight - {r.id});
    MarksFrom(s.disk, s.pending, s.active, id);
    MarksFrom(d1, s.pending, s.active, id);
    MarksFrom(d2, s.pending, s.active, id);
    MarksFrom(t.disk, t.pending, t.active, id);
    LivePhases(s, id);
  }

  /** The five writes for a request that is not allowed. */
  lemma RejectLog(s: State, r: Req)
    requires Core(s) && FreshRequest(s, r) && !r.allowed && s.disk.status == StatusOf(s.pending, s.active)
    ensures var t := Reject(s, r);
            var d1 := s.disk.(inflight := s.disk.inflight[r.id := ReceivedPhase]);
            var d2 := d1.(outbox := d1.outbox[r.id := Completed]);
            var d3 := d2.(inflight := d2.inflight - {r.id});
            && t.log == s.log + [d1] + [d1] + [d2] + [d3] + [t.disk]
            && t.disk == d3
            && t.pending == s.pending && t.active == s.active
            && t.received == s.received + [r] && t.finished == s.finished + {r.rid}
  {
    RejectEffect(s, r);
    var d1 := s.disk.(inflight := s.disk.inflight[r.id := ReceivedPhase]);
    assert d1.(status := StatusOf(s.pending, s.active)) == d1;
    var u := WriteStatus(Persist(s.(seen := s.seen + {r.file}, received := s.received + [r]), r, ReceivedPhase));
    assert u.log == s.log + [d1] + [d1] && u.disk == d1;
    FinishLog(u, r, Completed);
  }

  lemma RejectDisk(s: State, r: Req)
    requires Core(s) && FreshRequest(s, r) && !r.allowed && DiskInv(s) && LiveNew(s, r)
    ensures DiskInv(Reject(s, r))
  {
    hide StatusOf, Reject;
    RejectLog(s, r);
    var t := Reject(s, r);
    assert FinishedIds(t) == FinishedIds(s) + {r.id};
    forall q | q in t.pending || q in t.active ensures q.id != r.id {
      assert q.id in IdsOf(t.pending) + IdsOf(t.active);
    }
  }

  lemma RejectGood(s: State, r: Req, id: Id)
    requires Core(s) && FreshRequest(s, r) && !r.allowed && DiskInv(s) && LiveNew(s, r)
    ensures Good(s, Reject(s, r), id, r.id == id ==> id !in s.disk.outbox)
  {
    hide StatusOf, StageAt, PlausibleAt, Reject, IdsOf, Core, FinishedIds;
    RejectDisk(s, r);
    RejectLog(s, r);
    var t := Reject(s, r);
    var d1 := s.disk.(inflight := s.disk.inflight[r.id := ReceivedPhase]);
    var d2 := d1.(outbox := d1.outbox[r.id := Completed]);
    var d3 := d2.(inflight := d2.inflight - {r.id});
    MarksFrom(s.disk, s.pending, s.active, id);
    MarksFrom(d1, s.pending, s.active, id);
    MarksFrom(d2, s.pending, s.active, id);
    MarksFrom(d3, s.pending, s.active, id);
    LivePhases(s, id);
  }

  // ----- one turn

  lemma SameDisk(s: State, t: State, id: Id)
    requires DiskInv(s) && t.disk == s.disk && t.log == s.log && t.pending == s.pending && t.active == s.active
    requires FinishedIds(t) == FinishedIds(s)
    ensures Good(s, t, id, true)
  {
    hide StatusOf;
    MarksFrom(s.disk, s.pending, s.active, id);
    LivePhases(s, id);
  }

  /** The file does not bring back an answered id. */
  predicate FirstTime(s: State, file: File, id: Id) {
    Waiting(s, file) && RequestId(file, s.inbox[file].p) == id ==> id !in s.disk.outbox
  }

  lemma ReceiveGood(s: State, file: File, workers: nat, id: Id)
    requires Inv(s, workers) && DiskInv(s)
    requires Waiting(s, file) ==> forall r :: r in Live(s) ==> r.id != RequestId(file, s.inbox[file].p)
    ensures Good(s, Receive(s, file), id, FirstTime(s, file, id))
  {
    hide Core, Names, Lanes, Fifo, Accept, Reject, DiskInv, Advances, Keeps, OneLife;
    if Waiting(s, file) {
      var r := Admit(|s.received|, file, s.inbox[file].p);
      assert forall q :: q in s.pending || q in s.active ==> q in Live(s);
      if r.allowed {
        AcceptGood(s, r, id);
      } else {
        RejectGood(s, r, id);
      }
    } else {
      SameDisk(s, s, id);
    }
  }

  lemma CollectGood(s: State, r: Req, workers: nat, id: Id)
    requires Inv(s, workers) && DiskInv(s) && r in s.active
    ensures Good(s, Collect(s, r), id, true)
  {
    hide Core, Names, Lanes, Fifo, Finish, DiskInv, Advances, Keeps, OneLife, FinishedIds;
    if r.rid in s.done {
      var v := VerdictOf(r.lane, s.done[r.rid]);
      FinishInv(s, r, v, workers);
      FinishGood(s, r, v, Finish(s, r, v), id);
    } else {
      SameDisk(s, s, id);
    }
  }

  lemma StartNextGood(s: State, r: Req, workers: nat, id: Id)
    requires Inv(s, workers) && DiskInv(s) && CanStart(s, r, workers)
    ensures Good(s, Start(s, r), id, true)
  {
    hide Core, Names, Lanes, Fifo, Start, DiskInv, Advances, Keeps, OneLife;
    StartInv(s, r, workers);
    StartGood(s, r, Start(s, r), id);
  }

  lemma {:induction false} StartGetsGood(s: State, snapshot: seq<Req>, running: nat, workers: nat, id: Id)
    requires Inv(s, workers) && s.pc.Dispatching? && DiskInv(s)
    requires Mates(snapshot, Get) == Mates(s.pending, Get) && running == |Mates(s.active, Get)|
    ensures Good(s, StartGets(s, snapshot, running, workers), id, true)
    decreases |snapshot|
  {
    hide Start, Core, Names, Mates, Fifo, DiskInv, Advances, Keeps, OneLife, FinishedIds;
    if snapshot != [] {
      var r := snapshot[0];
      MatesFront(snapshot, Get);
      if r.lane == Get && running < workers {
        MatesMember(s.pending, Get, r);
        StartKeepsInv(s, r, workers);
        StartInv(s, r, workers);
        StartNextGood(s, r, workers, id);
        var t := Start(s, r);
        MatesAppend(s.active, [r], Get);
        MatesOne(r, Get);
        assert Mates(s.pending, Get)[1..] == Mates(t.pending, Get);
        StartGetsGood(t, snapshot[1..], running + 1, workers, id);
        GoodTransitive(s, t, StartGets(t, snapshot[1..], running + 1, workers), id);
      } else if r.lane != Get {
        StartGetsGood(s, snapshot[1..], running, workers, id);
      } else {
        StartGetsFull(s, snapshot, running, workers);
        SameDisk(s, s, id);
      }
    } else {
      SameDisk(s, s, id);
    }
  }

  lemma DispatchGood(s: State, workers: nat, id: Id)
    requires Inv(s, workers) && s.pc.Dispatching? && workers >= 1 && DiskInv(s)
    ensures Good(s, Dispatch(s, workers), id, true)
  {
    hide Start, Core, Names, Mates, Fifo, StartGets, DiskInv, Advances, Keeps, OneLife, FinishedIds;
    StartGetsGood(s, s.pending, |Mates(s.active, Get)|, workers, id);
    StartGetsInv(s, s.pending, |Mates(s.active, Get)|, workers);
    var g := StartGets(s, s.pending, |Mates(s.active, Get)|, workers);
    FirstPostIsFirst(g.pending);
    if Mates(g.active, Post) == [] && FirstPost(g.pending).Some? {
      var r := FirstPost(g.pending).value;
      StartNextGood(g, r, workers, id);
      GoodTransitive(s, g, Start(g, r), id);
    }
  }

  lemma HeartbeatGood(s: State, id: Id)
    requires DiskInv(s)
    ensures Good(s, WriteStatus(s), id, true)
  {
    hide StatusOf, StageAt, PlausibleAt;
    assert WriteStatus(s).disk == s.disk;
    assert FinishedIds(WriteStatus(s)) == FinishedIds(s);
    MarksFrom(s.disk, s.pending, s.active, id);
    LivePhases(s, id);
  }

  // ----- every run

  /** The action does not bring back an answered id. */
  predicate FirstAction(s: State, a: Action, id: Id) {
    a.Turn? && s.pc.Receiving? && s.pc.files != [] ==> FirstTime(s, s.pc.files[0], id)
  }

  lemma NextGood(s: State, a: Action, workers: nat, id: Id)
    requires Inv(s, workers) && workers >= 1 && DiskInv(s) && FreshId(s, a)
    ensures Good(s, Next(s, a, workers), id, FirstAction(s, a, id))
  {
    hide Core, Names, Lanes, Fifo, DiskInv, Advances, Keeps, OneLife, Dispatch, Receive, Collect, WriteStatus, FirstTime;
    var t := Next(s, a, workers);
    if a.Turn? && s.pc.Receiving? && s.pc.files != [] {
      var f := s.pc.files[0];
      ReceiveGood(s, f, workers, id);
      SamePc(s, Receive(s, f), t, id, FirstTime(s, f, id));
    } else if a.Turn? && s.pc.Collecting? && s.pc.reqs != [] {
      CollectGood(s, s.pc.reqs[0], workers, id);
      SamePc(s, Collect(s, s.pc.reqs[0]), t, id, true);
    } else if a.Turn? && s.pc.Dispatching? {
      DispatchGood(s, workers, id);
      var d := Dispatch(s, workers);
      HeartbeatGood(d, id);
      if a.heartbeat {
        GoodTransitive(s, d, WriteStatus(d), id);
      }
      SamePc(s, if a.heartbeat then WriteStatus(d) else d, t, id, true);
    } else {
      SameDisk(s, t, id);
    }
  }

  lemma SamePc(s: State, t: State, u: State, id: Id, first: bool)
    requires Good(s, t, id, first) && u == t.(pc := u.pc)
    ensures Good(s, u, id, first)
  {
    hide StageAt, PlausibleAt, StatusOf;
    assert FinishedIds(u) == FinishedIds(t);
  }

  /** Until the id is answered its stages only went up, and an answer stays. */
  predicate Forward(s: State, id: Id) {
    forall j, k :: 0 <= j <= k < |s.log| ==>
      && (id in s.log[j].outbox ==> id in s.log[k].outbox)
      && (id !in s.log[k].outbox ==>
            PlausibleAt(s.log[j], id) && PlausibleAt(s.log[k], id) && StageAt(s.log[j], id) <= StageAt(s.log[k], id))
  }

  /** Its stages went up all the way. */
  predicate AllForward(s: State, id: Id) {
    forall j, k :: 0 <= j <= k < |s.log| ==>
      PlausibleAt(s.log[j], id) && PlausibleAt(s.log[k], id) && StageAt(s.log[j], id) <= StageAt(s.log[k], id)
  }

  /** At most one request of this id was received. */
  predicate Single(s: State, id: Id) {
    forall i, j :: 0 <= i < j < |s.received| ==> s.received[i].id != id || s.received[j].id != id
  }

  predicate LogEnds(s: State) {
    s.log != [] && s.log[|s.log| - 1] == s.disk
  }

  lemma ForwardStep(s: State, t: State, id: Id)
    requires LogEnds(s) && Forward(s, id) && Keeps(s, t, id)
    requires id !in s.disk.outbox ==> Advances(s, t, id)
    ensures Forward(t, id)
  {
    hide StageAt, PlausibleAt;
    var last := |s.log| - 1;
    forall j, k | 0 <= j <= k < |t.log|
      ensures id in t.log[j].outbox ==> id in t.log[k].outbox
      ensures id !in t.log[k].outbox ==>
                PlausibleAt(t.log[j], id) && PlausibleAt(t.log[k], id) && StageAt(t.log[j], id) <= StageAt(t.log[k], id)
    {
      assert j < |s.log| ==> t.log[j] == s.log[j];
      assert k < |s.log| ==> t.log[k] == s.log[k];
      if j < |s.log| <= k {
        assert s.log[last] == s.disk;
      }
    }
  }

  lemma AllForwardStep(s: State, t: State, id: Id)
    requires LogEnds(s) && AllForward(s, id) && Advances(s, t, id)
    ensures AllForward(t, id)
  {
    hide StageAt, PlausibleAt;
    var last := |s.log| - 1;
    forall j, k | 0 <= j <= k < |t.log|
      ensures PlausibleAt(t.log[j], id) && PlausibleAt(t.log[k], id) && StageAt(t.log[j], id) <= StageAt(t.log[k], id)
    {
      assert j < |s.log| ==> t.log[j] == s.log[j];
      assert k < |s.log| ==> t.log[k] == s.log[k];
      if j < |s.log| <= k {
        assert s.log[last] == s.disk;
      }
    }
  }

  /** An id that is received once is never brought back. */
  lemma SingleIsFirst(s: State, a: Action, workers: nat, id: Id)
    requires Core(s) && DiskInv(s) && s.received <= Next(s, a, workers).received && Single(Next(s, a, workers), id)
    ensures Single(s, id) && FirstAction(s, a, id)
  {
    hide DiskInv, Core;
    var t := Next(s, a, workers);
    forall i, j | 0 <= i < j < |s.received| ensures s.received[i].id != id || s.received[j].id != id {
      assert t.received[i] == s.received[i] && t.received[j] == s.received[j];
    }
    if a.Turn? && s.pc.Receiving? && s.pc.files != [] && Waiting(s, s.pc.files[0]) {
      var r := Admit(|s.received|, s.pc.files[0], s.inbox[s.pc.files[0]].p);
      ReceivedGrows(s, s.pc.files[0]);
      assert t.received[|s.received|] == r;
      if r.id == id {
        OutboxReceived(s);
        forall i | 0 <= i < |s.received| ensures s.received[i].id != id {
          assert t.received[i] == s.received[i];
        }
      }
    }
  }

  lemma OutboxReceived(s: State)
    requires DiskInv(s)
    ensures forall id :: id in s.disk.outbox ==> exists i :: 0 <= i < |s.received| && s.received[i].id == id
  {
    forall id | id in s.disk.outbox ensures exists i :: 0 <= i < |s.received| && s.received[i].id == id {
      assert id in FinishedIds(s);
    }
  }

  lemma ReceivedGrows(s: State, file: File)
    requires Waiting(s, file)
    ensures Receive(s, file).received == s.received + [Admit(|s.received|, file, s.inbox[file].p)]
  {
  }

  lemma {:induction false} RunGood(inbox: map<File, Content>, actions: seq<Action>, workers: nat, id: Id)
    requires workers >= 1 && DistinctLiveIds(inbox, actions, workers)
    ensures var s := Run(inbox, actions, workers);
            DiskInv(s) && Forward(s, id) && (Single(s, id) ==> AllForward(s, id) && OneLife(s, id))
  {
    hide FreshId, Inv, Next, StageAt, PlausibleAt, Advances, Keeps, FirstAction, Single, OneLife, Forward, AllForward, DiskInv;
    if actions == [] {
      StartOfLog(inbox, id);
    } else {
      var last := |actions| - 1;
      LastStep(inbox, actions, workers);
      var s, t := Run(inbox, actions[..last], workers), Run(inbox, actions, workers);
      RunGood(inbox, actions[..last], workers, id);
      NextGood(s, actions[last], workers, id);
      StepForward(s, actions[last], workers, id);
    }
  }

  lemma StartOfLog(inbox: map<File, Content>, id: Id)
    ensures var s := Init(inbox); DiskInv(s) && Forward(s, id) && AllForward(s, id) && OneLife(s, id)
  {
    assert FinishedIds(Init(inbox)) == {};
  }

  lemma StepForward(s: State, a: Action, workers: nat, id: Id)
    requires Inv(s, workers) && DiskInv(s) && Forward(s, id) && (Single(s, id) ==> AllForward(s, id) && OneLife(s, id))
    requires var t := Next(s, a, workers);
             s.received <= t.received && Good(s, t, id, FirstAction(s, a, id))
    ensures var t := Next(s, a, workers);
            Forward(t, id) && (Single(t, id) ==> AllForward(t, id) && OneLife(t, id))
  {
    hide Core, Names, Lanes, Fifo, Control, Next, StageAt, PlausibleAt, Advances, Keeps, Single, Forward, AllForward, FinishedIds, StatusOf;
    var t := Next(s, a, workers);
    ForwardStep(s, t, id);
    if Single(t, id) {
      SingleIsFirst(s, a, workers, id);
      AllForwardStep(s, t, id);
    }
  }

  /** Between two moments without an answer the rank follows the stage. */
  lemma RankFollows(d: Disk, e: Disk, id: Id)
    requires id in d.outbox ==> id in e.outbox
    requires id !in e.outbox ==> PlausibleAt(d, id) && PlausibleAt(e, id) && StageAt(d, id) <= StageAt(e, id)
    ensures RankOf(d, id) <= RankOf(e, id)
  {
  }

  /** MAIN: over any run with distinct live ids, two readings of the files, each of one atomic
      snapshot, never see a request move back: not seen, received or queued, running, done. */
  lemma ClientMonotone(inbox: map<File, Content>, actions: seq<Action>, workers: nat, id: Id, j: nat, k: nat)
    requires workers >= 1 && DistinctLiveIds(inbox, actions, workers)
    requires j <= k < |Run(inbox, actions, workers).log|
    ensures var s := Run(inbox, actions, workers);
            Rank(ViewOf(s.log[j], id)) <= Rank(ViewOf(s.log[k], id)) <= Rank(ViewOf(s.disk, id))
  {
    hide Run, StageAt, PlausibleAt, ViewOf, Rank, FreshId;
    RunGood(inbox, actions, workers, id);
    var s := Run(inbox, actions, workers);
    RankFollows(s.log[j], s.log[k], id);
    RankFollows(s.log[k], s.log[|s.log| - 1], id);
  }

  // ----- answers

  /** The verdict a finished request is answered with: that of its future, and `completed` for
      a refused one. */
  function AnswerOf(s: State, i: nat): Verdict
    requires i < |s.received| && (s.received[i].allowed ==> i in s.done)
  {
    if s.received[i].allowed then VerdictOf(s.received[i].lane, s.done[i]) else Completed
  }

  predicate AnswersBy(s: State, id: Id, i: nat) {
    && i in s.finished && i < |s.received| && s.received[i].id == id && (s.received[i].allowed ==> i in s.done)
    && id in s.disk.outbox && s.disk.outbox[id] == AnswerOf(s, i)
  }

  /** An outbox file holds the verdict of a finished request of its id. */
  ghost predicate Answered(s: State, id: Id) {
    id in s.disk.outbox ==> exists i: nat :: AnswersBy(s, id, i)
  }

  lemma AnswerKept(s: State, t: State, id: Id)
    requires Answered(s, id) && s.received <= t.received && s.finished <= t.finished
    requires forall i :: i in s.done ==> i in t.done && t.done[i] == s.done[i]
    requires id in t.disk.outbox ==> id in s.disk.outbox && t.disk.outbox[id] == s.disk.outbox[id]
    ensures Answered(t, id)
  {
    if id in t.disk.outbox {
      var i: nat :| AnswersBy(s, id, i);
      assert t.received[i] == s.received[i];
      assert AnswersBy(t, id, i);
    }
  }

  lemma {:induction false} GetsKeepOutbox(s: State, snapshot: seq<Req>, running: nat, workers: nat)
    ensures var t := StartGets(s, snapshot, running, workers);
            t.disk.outbox == s.disk.outbox && t.received == s.received && t.finished == s.finished && t.done == s.done
    decreases |snapshot|
  {
    hide StatusOf, Put, Remove;
    if snapshot != [] {
      if snapshot[0].lane == Get && running < workers {
        GetsKeepOutbox(Start(s, snapshot[0]), snapshot[1..], running + 1, workers);
      } else {
        GetsKeepOutbox(s, snapshot[1..], running, workers);
      }
    }
  }

  lemma DispatchKeepsOutbox(s: State, workers: nat)
    ensures var t := Dispatch(s, workers);
            t.disk.outbox == s.disk.outbox && t.received == s.received && t.finished == s.finished && t.done == s.done
  {
    hide StatusOf, Put, Remove, StartGets;
    GetsKeepOutbox(s, s.pending, |Mates(s.active, Get)|, workers);
  }

  lemma ReceiveAnswers(s: State, file: File, id: Id)
    requires Answered(s, id)
    ensures Answered(Receive(s, file), id)
  {
    hide StatusOf, Admit, Pop, Remove;
    var t := Receive(s, file);
    if Waiting(s, file) {
      var r := Admit(|s.received|, file, s.inbox[file].p);
      if !r.allowed && r.id == id {
        AdmitRid(|s.received|, file, s.inbox[file].p);
        assert t.received[|s.received|] == r && t.disk.outbox[id] == Completed;
        assert AnswersBy(t, id, |s.received|);
      } else {
        AnswerKept(s, t, id);
      }
    }
  }

  lemma AdmitRid(rid: nat, file: File, p: Payload)
    ensures Admit(rid, file, p).rid == rid
  {
  }

  lemma CollectAnswers(s: State, r: Req, id: Id)
    requires Answered(s, id) && Known(s, r)
    ensures Answered(Collect(s, r), id)
  {
    hide StatusOf, Pop, Remove;
    var t := Collect(s, r);
    if r.rid in s.done && r.id == id {
      assert AnswersBy(t, id, r.rid);
    } else {
      AnswerKept(s, t, id);
    }
  }

  lemma PcAnswers(s: State, t: State, id: Id)
    requires Answered(s, id) && t == s.(pc := t.pc)
    ensures Answered(t, id)
  {
    AnswerKept(s, t, id);
  }

  lemma DispatchAnswers(s: State, heartbeat: bool, workers: nat, id: Id)
    requires Answered(s, id)
    ensures var d := Dispatch(s, workers); Answered(if heartbeat then WriteStatus(d) else d, id)
  {
    hide Dispatch, StatusOf, Answered;
    DispatchKeepsOutbox(s, workers);
    var d := Dispatch(s, workers);
    AnswerKept(s, d, id);
    AnswerKept(s, WriteStatus(d), id);
  }

  lemma NextAnswers(s: State, a: Action, workers: nat, id: Id)
    requires Inv(s, workers) && Answered(s, id)
    ensures Answered(Next(s, a, workers), id)
  {
    hide Dispatch, Receive, Collect, Core, Names, Lanes, Fifo, StatusOf, Answered, WriteStatus;
    var t := Next(s, a, workers);
    if a.Turn? && s.pc.Receiving? && s.pc.files != [] {
      ReceiveAnswers(s, s.pc.files[0], id);
      PcAnswers(Receive(s, s.pc.files[0]), t, id);
    } else if a.Turn? && s.pc.Collecting? && s.pc.reqs != [] {
      ActiveKnown(s, s.pc.reqs[0]);
      CollectAnswers(s, s.pc.reqs[0], id);
      PcAnswers(Collect(s, s.pc.reqs[0]), t, id);
    } else if a.Turn? && s.pc.Dispatching? {
      DispatchAnswers(s, a.heartbeat, workers, id);
      var d := Dispatch(s, workers);
      PcAnswers(if a.heartbeat then WriteStatus(d) else d, t, id);
    } else {
      AnswerKept(s, t, id);
    }
  }

  lemma ActiveKnown(s: State, r: Req)
    requires Core(s) && r in s.active
    ensures Known(s, r)
  {
  }

  lemma {:induction false} RunAnswers(inbox: map<File, Content>, actions: seq<Action>, workers: nat, id: Id)
    requires workers >= 1 && DistinctLiveIds(inbox, actions, workers)
    ensures Answered(Run(inbox, actions, workers), id)
  {
    hide FreshId, Inv, Next, Answered;
    if actions == [] {
      assert Answered(Init(inbox), id) by {
        NothingAnswered(inbox, id);
      }
    } else {
      var last := |actions| - 1;
      LastStep(inbox, actions, workers);
      RunAnswers(inbox, actions[..last], workers, id);
      NextAnswers(Run(inbox, actions[..last], workers), actions[last], workers, id);
    }
  }

  lemma NothingAnswered(inbox: map<File, Content>, id: Id)
    ensures Answered(Init(inbox), id)
  {
  }

  // ----- what the client reads between turns

  /** The view is the state of the id: answered with the verdict of a finished request, else
      running, queued with its exact position, or not seen. */
  ghost predicate Exact(s: State, id: Id, v: View) {
    && (id in FinishedIds(s) ==> exists i: nat :: AnswersBy(s, id, i) && v == Terminal(AnswerOf(s, i)))
    && (id !in FinishedIds(s) ==>
          && (forall i :: 0 <= i < |s.pending| && s.pending[i].id == id ==> v == Queued(QueuePosition(s.pending, i)))
          && (forall r :: r in s.active && r.id == id ==> v == Running)
          && ((forall r :: r in s.received ==> r.id != id) ==> v == NotSeen))
  }

  /** MAIN: between the turns of the relay the client reads exactly the state of an id: the
      verdict once a request of that id is finished, before that its exact queue position or
      that it runs, and that it is not seen before it is received. */
  lemma ClientExact(inbox: map<File, Content>, actions: seq<Action>, workers: nat, id: Id)
    requires workers >= 1 && DistinctLiveIds(inbox, actions, workers)
    ensures var s := Run(inbox, actions, workers); Exact(s, id, ViewOf(s.disk, id))
  {
    hide FreshId, QueuePosition, Run, Lanes, Fifo, Control, Exact;
    var s := Run(inbox, actions, workers);
    RunInv(inbox, actions, workers);
    RunGood(inbox, actions, workers, id);
    RunAnswers(inbox, actions, workers, id);
    ExactFacts(s, id);
  }

  lemma ExactFacts(s: State, id: Id)
    requires Core(s) && Names(s) && DiskInv(s) && Answered(s, id)
    ensures Exact(s, id, ViewOf(s.disk, id))
  {
    hide QueuePosition, AnswersBy;
    StatusMembers(s.pending, s.active, id);
    if id in FinishedIds(s) {
      var i: nat :| AnswersBy(s, id, i);
      AnswerShown(s, id, i);
    } else {
      forall i | 0 <= i < |s.pending| && s.pending[i].id == id
        ensures ViewOf(s.disk, id) == Queued(QueuePosition(s.pending, i))
      {
        QueuedView(s, i);
      }
      if forall r :: r in s.received ==> r.id != id {
        forall r | r in s.pending || r in s.active ensures r.id != id {
          assert Known(s, r);
        }
      }
    }
  }

  lemma AnswerShown(s: State, id: Id, i: nat)
    requires AnswersBy(s, id, i)
    ensures ViewOf(s.disk, id) == Terminal(AnswerOf(s, i))
  {
  }

  lemma QueuedView(s: State, i: nat)
    requires Core(s) && Names(s) && DiskInv(s) && i < |s.pending| && s.pending[i].id !in s.disk.outbox
    ensures ViewOf(s.disk, s.pending[i].id) == Queued(QueuePosition(s.pending, i))
  {
    hide QueuePosition;
    var id, queue := s.pending[i].id, s.disk.status.queue;
    StatusMembers(s.pending, s.active, id);
    assert s.pending[i] in s.pending;
    assert forall q :: q in s.active ==> q.id != id;
    var p := FindQueued(queue, id).value;
    var k :| 0 <= k < |queue| && queue[k] == (id, p);
    assert s.pending[k] in s.pending && s.pending[k].id == id;
    assert k == i;
  }

  /** MAIN: when `run` has ended, the outbox holds a file for every received request. */
  lemma ExitHasAnswered(inbox: map<File, Content>, actions: seq<Action>, workers: nat)
    requires workers >= 1 && DistinctLiveIds(inbox, actions, workers)
    ensures var s := Run(inbox, actions, workers);
            s.pc.Exited? ==> forall i :: 0 <= i < |s.received| ==> s.received[i].id in s.disk.outbox
  {
    var s := Run(inbox, actions, workers);
    RunGood(inbox, actions, workers, "");
    ExitOnlyWhenDone(inbox, actions, workers);
    if s.pc.Exited? {
      forall i | 0 <= i < |s.received| ensures s.received[i].id in s.disk.outbox {
        assert s.received[i].id in FinishedIds(s);
      }
    }
  }
}

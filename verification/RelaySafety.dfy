/** The invariant of the relay over every run with distinct live ids, and what follows from
    it: at-most-once execution, lane limits, first-in first-out lanes, draining. */
module RelaySafety {
  import opened Text
  import opened RelayProtocol

  // ----- sequences of requests

  predicate Unrepeated(q: seq<Req>) {
    forall i, j :: 0 <= i < j < |q| ==> q[i] != q[j]
  }

  lemma {:induction false} MatesAppend(a: seq<Req>, b: seq<Req>, lane: Lane)
    ensures Mates(a + b, lane) == Mates(a, lane) + Mates(b, lane)
  {
    if b == [] {
      assert a + b == a;
    } else {
      assert (a + b)[..|a + b| - 1] == a + b[..|b| - 1];
      MatesAppend(a, b[..|b| - 1], lane);
    }
  }

  lemma MatesOne(r: Req, lane: Lane)
    ensures Mates([r], lane) == if r.lane == lane then [r] else []
  {
    assert [r][..0] == [];
  }

  lemma MatesFront(q: seq<Req>, lane: Lane)
    requires q != []
    ensures Mates(q, lane) == (if q[0].lane == lane then [q[0]] else []) + Mates(q[1..], lane)
  {
    MatesAppend([q[0]], q[1..], lane);
    MatesOne(q[0], lane);
    assert [q[0]] + q[1..] == q;
  }

  lemma {:induction false} MatesMember(q: seq<Req>, lane: Lane, r: Req)
    ensures r in Mates(q, lane) <==> r in q && r.lane == lane
  {
    if q != [] {
      MatesMember(q[..|q| - 1], lane, r);
      assert q == q[..|q| - 1] + [q[|q| - 1]];
    }
  }

  lemma {:induction false} RemoveAt(q: seq<Req>, i: nat)
    requires Unrepeated(q) && i < |q|
    ensures Remove(q, q[i]) == q[..i] + q[i + 1..]
  {
    if i == 0 {
      assert q[..0] + q[1..] == q[1..];
    } else {
      var tail := q[1..];
      RemoveAt(tail, i - 1);
      assert q[0] != q[i] && tail[i - 1] == q[i];
      assert [q[0]] + (tail[..i - 1] + tail[i..]) == q[..i] + q[i + 1..];
    }
  }

  lemma {:induction false} RemoveAbsent(q: seq<Req>, r: Req)
    requires r !in q
    ensures Remove(q, r) == q
  {
    if q != [] {
      RemoveAbsent(q[1..], r);
    }
  }

  /** The entries of the dictionary have distinct ids. */
  predicate DistinctIds(q: seq<Req>) {
    forall i, j :: 0 <= i < j < |q| ==> q[i].id != q[j].id
  }

  lemma {:induction false} PutFresh(active: seq<Req>, r: Req)
    requires forall a :: a in active ==> a.id != r.id
    ensures Put(active, r) == active + [r]
  {
    if active != [] {
      PutFresh(active[1..], r);
    }
  }

  lemma {:induction false} PopAt(active: seq<Req>, i: nat)
    requires DistinctIds(active) && i < |active|
    ensures Pop(active, active[i].id) == active[..i] + active[i + 1..]
  {
    if i == 0 {
      assert active[..0] + active[1..] == active[1..];
    } else {
      var tail := active[1..];
      PopAt(tail, i - 1);
      assert active[0].id != active[i].id && tail[i - 1] == active[i];
      assert [active[0]] + (tail[..i - 1] + tail[i..]) == active[..i] + active[i + 1..];
    }
  }

  lemma {:induction false} PopAbsent(active: seq<Req>, id: Id)
    requires forall a :: a in active ==> a.id != id
    ensures Pop(active, id) == active
  {
    if active != [] {
      PopAbsent(active[1..], id);
    }
  }

  /** q without the entry at i. */
  predicate Without(q: seq<Req>, i: nat, p: seq<Req>) {
    i < |q| && p == q[..i] + q[i + 1..]
  }

  lemma WithoutMembers(q: seq<Req>, i: nat, p: seq<Req>)
    requires Unrepeated(q) && Without(q, i, p)
    ensures Unrepeated(p) && forall x :: x in p <==> x in q && x != q[i]
  {
    forall x | x in q && x != q[i] ensures x in p {
      var k :| 0 <= k < |q| && q[k] == x;
      assert x == p[if k < i then k else k - 1];
    }
  }

  lemma WithoutMates(q: seq<Req>, i: nat, p: seq<Req>, lane: Lane)
    requires Without(q, i, p)
    ensures q[i].lane != lane ==> Mates(p, lane) == Mates(q, lane)
    ensures q[i].lane == lane ==> |Mates(p, lane)| == |Mates(q, lane)| - 1
  {
    hide Mates;
    SplitMates(q, i, lane);
    MatesAppend(q[..i], q[i + 1..], lane);
  }

  lemma SplitMates(q: seq<Req>, i: nat, lane: Lane)
    requires i < |q|
    ensures Mates(q, lane) == Mates(q[..i], lane) + (if q[i].lane == lane then [q[i]] else []) + Mates(q[i + 1..], lane)
  {
    hide Mates;
    assert q == q[..i] + q[i..] && q[i..][1..] == q[i + 1..];
    MatesAppend(q[..i], q[i..], lane);
    MatesFront(q[i..], lane);
  }

  /** Without its first lane mate, a lane starts at the second. */
  lemma WithoutFirst(q: seq<Req>, i: nat, p: seq<Req>)
    requires Without(q, i, p) && Unrepeated(q)
    requires [q[i]] <= Mates(q, q[i].lane)
    ensures Mates(p, q[i].lane) == Mates(q, q[i].lane)[1..]
  {
    var lane := q[i].lane;
    SplitMates(q, i, lane);
    MatesAppend(q[..i], q[i + 1..], lane);
    var front := Mates(q[..i], lane);
    if front != [] {
      assert front[0] == Mates(q, lane)[0] == q[i];
      MatesMember(q[..i], lane, q[i]);
    }
    assert front == [];
  }

  // ----- the invariant

  /** Who is where: pending, active and finished partition the received requests. */
  predicate Core(s: State) {
    && Unrepeated(s.pending) && Unrepeated(s.active) && Unrepeated(s.submitted)
    && (forall r :: r in s.pending ==> r !in s.active && r !in s.submitted)
    && (forall r :: r in s.active ==> r in s.submitted)
    && (forall i :: 0 <= i < |s.received| ==> s.received[i].rid == i)
    && (forall r :: r in s.pending ==> Known(s, r))
    && (forall r :: r in s.submitted ==> Known(s, r))
    && (forall i :: i in s.finished ==> 0 <= i < |s.received|)
    && (forall i :: 0 <= i < |s.received| ==>
          (i in s.finished <==> s.received[i] !in s.pending && s.received[i] !in s.active))
  }

  /** An admitted request that was received. */
  predicate Known(s: State, r: Req) {
    r.rid < |s.received| && s.received[r.rid] == r && r.allowed && r.lane != Rejected
  }

  /** Live requests have distinct ids and files, and `seen_files` is exactly their files. */
  predicate Names(s: State) {
    && (forall r, q :: r in s.pending && q in s.pending && r != q ==> r.id != q.id && r.file != q.file)
    && (forall r, q :: r in s.active && q in s.active && r != q ==> r.id != q.id && r.file != q.file)
    && (forall r, q :: r in s.pending && q in s.active ==> r.id != q.id && r.file != q.file)
    && s.seen == (set r | r in s.pending :: r.file) + (set r | r in s.active :: r.file)
  }

  predicate Lanes(s: State, workers: nat) {
    |Mates(s.active, Get)| <= workers && |Mates(s.active, Post)| <= 1
  }

  function Accepted(received: seq<Req>): seq<Req> {
    if received == [] then []
    else
      var last := received[|received| - 1];
      Accepted(received[..|received| - 1]) + (if last.allowed then [last] else [])
  }

  /** Each lane is first-in first-out: started, then queued, in the order of reception. */
  predicate Fifo(s: State) {
    forall lane :: Mates(s.submitted, lane) + Mates(s.pending, lane) == Mates(Accepted(s.received), lane)
  }

  predicate Control(s: State) {
    && (s.pc.Collecting? ==> Unrepeated(s.pc.reqs) && forall r :: r in s.pc.reqs ==> r in s.active)
    && (s.pc.Exited? ==> s.stop && s.pending == [] && s.active == [])
    && (forall i :: i in s.done ==> exists r :: r in s.submitted && r.rid == i)
  }

  predicate Inv(s: State, workers: nat) {
    Core(s) && Names(s) && Lanes(s, workers) && Fifo(s) && Control(s)
  }

  // ----- the events

  predicate FreshRequest(s: State, r: Req) {
    && r.rid == |s.received| && r.file !in s.seen
    && (forall q :: q in s.pending ==> q.id != r.id) && (forall q :: q in s.active ==> q.id != r.id)
  }

  /** No active request has the id of r. */
  predicate Clear(s: State, r: Req) {
    forall q :: q in s.active ==> q.id != r.id
  }

  lemma AcceptCore(s: State, r: Req)
    requires Core(s) && r.rid == |s.received| && r.allowed && r.lane != Rejected
    ensures Core(Accept(s, r))
  {
    var t := Accept(s, r);
    assert forall x :: x in t.pending <==> x in s.pending || x == r;
    forall q | q in s.pending || q in s.submitted ensures q != r {
      assert Known(s, q);
    }
    forall q | q in s.submitted ensures q != r && Known(t, q) {
      assert Known(s, q);
    }
    forall q | q in t.pending ensures Known(t, q) {
      assert q != r ==> Known(s, q);
    }
    forall i | 0 <= i < |s.received| ensures s.received[i] != r {
      assert s.received[i].rid == i;
    }
    assert t.pending == s.pending + [r] && t.received == s.received + [r];
    assert t.pending[|s.pending|] == r && t.received[|s.received|] == r;
    assert Known(t, r);
  }

  lemma AcceptNames(s: State, r: Req)
    requires Core(s) && Names(s) && FreshRequest(s, r)
    ensures Names(Accept(s, r))
  {
    var t := Accept(s, r);
    assert forall x :: x in t.pending <==> x in s.pending || x == r;
    forall q | q in s.pending ensures q.file != r.file {
      assert q.file in s.seen;
    }
    forall q | q in s.active ensures q.file != r.file {
      assert q.file in s.seen;
    }
  }

  lemma AcceptFifo(s: State, r: Req)
    requires Fifo(s) && r.allowed
    ensures Fifo(Accept(s, r))
  {
    var t := Accept(s, r);
    assert t.received[..|t.received| - 1] == s.received;
    assert t.pending[..|t.pending| - 1] == s.pending;
    forall lane ensures Mates(t.submitted, lane) + Mates(t.pending, lane) == Mates(Accepted(t.received), lane) {
      var more := if r.lane == lane then [r] else [];
      assert Mates(t.pending, lane) == Mates(s.pending, lane) + more;
      MatesAppend(Accepted(s.received), [r], lane);
      MatesOne(r, lane);
    }
  }

  lemma AcceptInv(s: State, r: Req, workers: nat)
    requires Inv(s, workers) && FreshRequest(s, r) && r.allowed && r.lane != Rejected
    ensures Core(Accept(s, r)) && Names(Accept(s, r)) && Lanes(Accept(s, r), workers) && Fifo(Accept(s, r))
    ensures Accept(s, r).submitted == s.submitted && Accept(s, r).done == s.done
  {
    AcceptCore(s, r);
    AcceptNames(s, r);
    AcceptFifo(s, r);
  }

  /** What finishing a request that is not live changes. */
  lemma RejectEffect(s: State, r: Req)
    requires Core(s) && r.rid == |s.received| && Clear(s, r)
    ensures var t := Reject(s, r);
            && t.pending == s.pending && t.active == s.active && t.submitted == s.submitted && t.done == s.done
            && t.received == s.received + [r] && t.finished == s.finished + {r.rid}
            && t.seen == s.seen + {r.file} - {r.file} && t.pc == s.pc && t.stop == s.stop
  {
    PopAbsent(s.active, r.id);
    forall q | q in s.pending ensures q != r {
      assert Known(s, q);
    }
    RemoveAbsent(s.pending, r);
  }

  lemma RejectCore(s: State, r: Req)
    requires Core(s) && r.rid == |s.received| && Clear(s, r)
    ensures Core(Reject(s, r))
  {
    hide Reject;
    RejectEffect(s, r);
    var t := Reject(s, r);
    forall q | q in s.submitted || q in s.pending ensures Known(t, q) {
      assert Known(s, q);
    }
    forall i | 0 <= i < |s.received| ensures i != r.rid && t.received[i] == s.received[i] {
    }
    forall q | q in s.pending || q in s.active ensures q != r {
      assert Known(s, q);
    }
  }

  lemma RejectInv(s: State, r: Req, workers: nat)
    requires Inv(s, workers) && FreshRequest(s, r) && !r.allowed
    ensures Core(Reject(s, r)) && Names(Reject(s, r)) && Lanes(Reject(s, r), workers) && Fifo(Reject(s, r))
    ensures Reject(s, r).submitted == s.submitted && Reject(s, r).done == s.done
  {
    hide Reject, Mates, Core;
    RejectEffect(s, r);
    RejectCore(s, r);
    var t := Reject(s, r);
    assert t.seen == s.seen;
    assert t.received[..|t.received| - 1] == s.received;
    assert Accepted(t.received) == Accepted(s.received);
  }

  /** What finishing the active request at index i changes. */
  predicate FinishEffect(s: State, i: nat, t: State) {
    && Without(s.active, i, t.active)
    && t.pending == s.pending && t.submitted == s.submitted && t.done == s.done && t.received == s.received
    && t.finished == s.finished + {s.active[i].rid} && t.seen == s.seen - {s.active[i].file}
  }

  lemma FinishHasEffect(s: State, i: nat, v: Verdict)
    requires Core(s) && DistinctIds(s.active) && i < |s.active|
    ensures FinishEffect(s, i, Finish(s, s.active[i], v))
  {
    PopAt(s.active, i);
    RemoveAbsent(s.pending, s.active[i]);
  }

  lemma FinishCore(s: State, i: nat, t: State)
    requires Core(s) && FinishEffect(s, i, t)
    ensures Core(t)
  {
    var r := s.active[i];
    WithoutMembers(s.active, i, t.active);
    assert Known(s, r);
    forall q | q in t.submitted || q in t.pending ensures Known(t, q) {
      assert Known(s, q);
    }
  }

  lemma FinishNames(s: State, i: nat, t: State)
    requires Core(s) && Names(s) && FinishEffect(s, i, t)
    ensures Names(t)
  {
    var r := s.active[i];
    WithoutMembers(s.active, i, t.active);
    assert r.file !in (set x | x in t.pending :: x.file) + (set x | x in t.active :: x.file);
    assert t.seen == (set x | x in t.pending :: x.file) + (set x | x in t.active :: x.file);
  }

  lemma CoreActive(s: State)
    requires Core(s)
    ensures Unrepeated(s.active) && Unrepeated(s.pending)
  {
  }

  lemma NamesActive(s: State)
    requires Names(s) && Unrepeated(s.active)
    ensures DistinctIds(s.active)
  {
  }

  lemma NamesClear(s: State, r: Req)
    requires Names(s) && r in s.pending
    ensures Clear(s, r)
  {
  }

  lemma FinishInv(s: State, r: Req, v: Verdict, workers: nat)
    requires Inv(s, workers) && r in s.active
    ensures var t := Finish(s, r, v);
            && Core(t) && Names(t) && Lanes(t, workers) && Fifo(t)
            && t.submitted == s.submitted && t.done == s.done && t.pending == s.pending && t.received == s.received
            && |t.active| == |s.active| - 1 && t.finished == s.finished + {r.rid}
            && forall x :: x in t.active <==> x in s.active && x != r
  {
    hide Finish, Core, Names, Mates;
    var t := Finish(s, r, v);
    var i :| 0 <= i < |s.active| && s.active[i] == r;
    CoreActive(s);
    NamesActive(s);
    FinishHasEffect(s, i, v);
    FinishCore(s, i, t);
    FinishNames(s, i, t);
    WithoutMembers(s.active, i, t.active);
    WithoutMates(s.active, i, t.active, Get);
    WithoutMates(s.active, i, t.active, Post);
  }

  /** The request is the next of its lane and the lane has a free slot. */
  predicate CanStart(s: State, r: Req, workers: nat) {
    && r in s.pending && [r] <= Mates(s.pending, r.lane)
    && (r.lane == Get ==> |Mates(s.active, Get)| < workers)
    && (r.lane == Post ==> Mates(s.active, Post) == [])
  }

  /** What starting the pending request at index i changes. */
  predicate StartEffect(s: State, i: nat, t: State) {
    && Without(s.pending, i, t.pending)
    && t.active == s.active + [s.pending[i]] && t.submitted == s.submitted + [s.pending[i]]
    && t.done == s.done && t.received == s.received && t.finished == s.finished && t.seen == s.seen
  }

  lemma StartHasEffect(s: State, i: nat)
    requires Core(s) && i < |s.pending| && Clear(s, s.pending[i])
    ensures StartEffect(s, i, Start(s, s.pending[i]))
  {
    RemoveAt(s.pending, i);
    PutFresh(s.active, s.pending[i]);
  }

  lemma StartCore(s: State, i: nat, t: State)
    requires Core(s) && StartEffect(s, i, t)
    ensures Core(t)
  {
    var r := s.pending[i];
    WithoutMembers(s.pending, i, t.pending);
    forall q | q in t.submitted || q in t.pending ensures Known(t, q) {
      assert q in s.pending || q in s.submitted;
      assert Known(s, q);
    }
    assert r in s.pending && r !in s.active && r !in s.submitted;
    assert forall x :: x in t.active <==> x in s.active || x == r;
    assert forall x :: x in t.submitted <==> x in s.submitted || x == r;
    assert Unrepeated(t.active) && Unrepeated(t.submitted);
  }

  lemma StartNames(s: State, i: nat, t: State)
    requires Core(s) && Names(s) && StartEffect(s, i, t)
    ensures Names(t)
  {
    var r := s.pending[i];
    WithoutMembers(s.pending, i, t.pending);
    assert forall x :: x in t.active <==> x in s.active || x == r;
    assert t.seen == (set x | x in t.pending :: x.file) + (set x | x in t.active :: x.file);
  }

  lemma StartMates(s: State, i: nat, t: State, lane: Lane)
    requires Unrepeated(s.pending) && StartEffect(s, i, t) && [s.pending[i]] <= Mates(s.pending, s.pending[i].lane)
    ensures var r := s.pending[i];
            var more := if r.lane == lane then [r] else [];
            && Mates(s.pending, lane) == more + Mates(t.pending, lane)
            && Mates(t.active, lane) == Mates(s.active, lane) + more
            && Mates(t.submitted, lane) == Mates(s.submitted, lane) + more
  {
    hide Mates;
    var r := s.pending[i];
    if r.lane == lane {
      WithoutFirst(s.pending, i, t.pending);
    } else {
      WithoutMates(s.pending, i, t.pending, lane);
    }
    MatesAppend(s.active, [r], lane);
    MatesAppend(s.submitted, [r], lane);
    MatesOne(r, lane);
  }

  lemma StartInv(s: State, r: Req, workers: nat)
    requires Inv(s, workers) && CanStart(s, r, workers)
    ensures var t := Start(s, r);
            && Core(t) && Names(t) && Lanes(t, workers) && Fifo(t)
            && t.submitted == s.submitted + [r] && t.done == s.done && t.received == s.received
            && t.finished == s.finished
            && |t.pending| == |s.pending| - 1 && t.active == s.active + [r]
            && (forall lane :: Mates(s.pending, lane) == (if r.lane == lane then [r] else []) + Mates(t.pending, lane))
            && (forall x :: x in t.pending <==> x in s.pending && x != r)
  {
    hide Start, Core, Names, Mates;
    var t := Start(s, r);
    var i :| 0 <= i < |s.pending| && s.pending[i] == r;
    NamesClear(s, r);
    StartHasEffect(s, i);
    StartCore(s, i, t);
    StartNames(s, i, t);
    CoreActive(s);
    WithoutMembers(s.pending, i, t.pending);
    StartMates(s, i, t, Get);
    StartMates(s, i, t, Post);
    forall lane
      ensures Mates(s.pending, lane) == (if r.lane == lane then [r] else []) + Mates(t.pending, lane)
      ensures Mates(t.submitted, lane) == Mates(s.submitted, lane) + (if r.lane == lane then [r] else [])
    {
      StartMates(s, i, t, lane);
    }
  }

  // ----- the steps

  lemma StartKeepsInv(s: State, r: Req, workers: nat)
    requires Inv(s, workers) && CanStart(s, r, workers) && s.pc.Dispatching?
    ensures Inv(Start(s, r), workers) && Start(s, r).pc == s.pc && Start(s, r).stop == s.stop
  {
    StartInv(s, r, workers);
    DoneKept(s, Start(s, r));
  }

  lemma DoneKept(s: State, t: State)
    requires forall i :: i in s.done ==> exists r :: r in s.submitted && r.rid == i
    requires t.done == s.done && s.submitted <= t.submitted
    ensures forall i :: i in t.done ==> exists r :: r in t.submitted && r.rid == i
  {
    forall i | i in t.done ensures exists r :: r in t.submitted && r.rid == i {
      var r :| r in s.submitted && r.rid == i;
      assert r in t.submitted;
    }
  }

  lemma {:induction false} StartGetsInv(s: State, snapshot: seq<Req>, running: nat, workers: nat)
    requires Inv(s, workers) && s.pc.Dispatching?
    requires Mates(snapshot, Get) == Mates(s.pending, Get) && running == |Mates(s.active, Get)|
    ensures var t := StartGets(s, snapshot, running, workers);
            && Inv(t, workers) && t.pc == s.pc && t.stop == s.stop
            && t.received == s.received && t.finished == s.finished && s.submitted <= t.submitted
            && |t.submitted| - |s.submitted| == |s.pending| - |t.pending|
            && Mates(t.active, Post) == Mates(s.active, Post) && Mates(t.pending, Post) == Mates(s.pending, Post)
            && (running < workers && Mates(s.pending, Get) != [] ==> |s.submitted| < |t.submitted|)
            && (Mates(t.pending, Get) == [] || |Mates(t.active, Get)| >= workers)
    decreases |snapshot|
  {
    hide Start, Core, Names, Mates, Fifo;
    if snapshot != [] {
      var r := snapshot[0];
      MatesFront(snapshot, Get);
      if r.lane == Get && running < workers {
        MatesMember(s.pending, Get, r);
        StartKeepsInv(s, r, workers);
        StartInv(s, r, workers);
        var t := Start(s, r);
        MatesAppend(s.active, [r], Get);
        MatesOne(r, Get);
        MatesAppend(s.active, [r], Post);
        MatesOne(r, Post);
        assert Mates(s.pending, Get)[1..] == Mates(t.pending, Get);
        StartGetsInv(t, snapshot[1..], running + 1, workers);
      } else if r.lane != Get {
        StartGetsInv(s, snapshot[1..], running, workers);
      } else {
        StartGetsFull(s, snapshot, running, workers);
      }
    } else {
      assert Mates([], Get) == [] by {
        MatesNone(Get);
      }
    }
  }

  lemma MatesNone(lane: Lane)
    ensures Mates([], lane) == []
  {
  }

  lemma {:induction false} StartGetsFull(s: State, snapshot: seq<Req>, running: nat, workers: nat)
    requires running >= workers
    ensures StartGets(s, snapshot, running, workers) == s
    decreases |snapshot|
  {
    if snapshot != [] {
      StartGetsFull(s, snapshot[1..], running, workers);
    }
  }

  lemma {:induction false} FirstPostIsFirst(q: seq<Req>)
    ensures match FirstPost(q)
            case None => Mates(q, Post) == []
            case Some(r) => r in q && r.lane == Post && [r] <= Mates(q, Post)
  {
    if q != [] {
      MatesFront(q, Post);
      FirstPostIsFirst(q[1..]);
    }
  }

  /** MAIN: dispatching keeps the invariant, starts something when work waits and nothing runs,
      and leaves no lane with both a waiting request and a free slot. */
  lemma DispatchInv(s: State, workers: nat)
    requires Inv(s, workers) && s.pc.Dispatching? && workers >= 1
    ensures var t := Dispatch(s, workers);
            && Inv(t, workers) && t.pc == s.pc && t.stop == s.stop
            && t.received == s.received && t.finished == s.finished && s.submitted <= t.submitted
            && |t.submitted| - |s.submitted| == |s.pending| - |t.pending|
            && (s.pending != [] && s.active == [] ==> |s.submitted| < |t.submitted|)
            && (Mates(t.pending, Get) == [] || |Mates(t.active, Get)| >= workers)
            && (Mates(t.pending, Post) == [] || Mates(t.active, Post) != [])
  {
    hide Start, Names, Mates, Fifo, StartGets;
    StartGetsInv(s, s.pending, |Mates(s.active, Get)|, workers);
    var g := StartGets(s, s.pending, |Mates(s.active, Get)|, workers);
    FirstPostIsFirst(g.pending);
    if s.pending != [] && s.active == [] {
      MatesNone(Get);
      MatesNone(Post);
      var r := s.pending[0];
      assert Known(s, r);
      MatesMember(s.pending, r.lane, r);
    }
    if Mates(g.active, Post) == [] && FirstPost(g.pending).Some? {
      var r := FirstPost(g.pending).value;
      StartInv(g, r, workers);
      StartKeepsInv(g, r, workers);
      MatesAppend(g.active, [r], Get);
      MatesAppend(g.active, [r], Post);
      MatesOne(r, Get);
      MatesOne(r, Post);
    }
  }
}

/** The inbox of the relay: how often a file is received and executed, when it leaves the inbox, and
    what its outbox verdict means. */
module RelayInbox {
  import opened Text
  import opened RelayProtocol
  import opened RelaySafety
  import opened RelayRuns
  import opened RelayClient

  // ----- deliveries and receptions

  /** How many of the requests come from the file. */
  function FileCount(rs: seq<Req>, f: File): nat {
    if rs == [] then 0 else FileCount(rs[..|rs| - 1], f) + (if rs[|rs| - 1].file == f then 1 else 0)
  }

  /** How often the file was put into the inbox, a file that was there at the start counted once. */
  function Deliveries(inbox: map<File, Content>, actions: seq<Action>, f: File): nat {
    if actions == [] then (if f in inbox then 1 else 0)
    else
      var a := actions[|actions| - 1];
      Deliveries(inbox, actions[..|actions| - 1], f) + (if a.Deliver? && a.file == f then 1 else 0)
  }

  /** The file is in the inbox and may still be received. */
  function Due(s: State, f: File): nat {
    if f in s.inbox && f !in s.seen then 1 else 0
  }

  /** What was received of the file, and may be. */
  function Use(s: State, f: File): nat {
    FileCount(s.received, f) + Due(s, f)
  }

  lemma CountOne(rs: seq<Req>, r: Req, f: File)
    ensures FileCount(rs + [r], f) == FileCount(rs, f) + (if r.file == f then 1 else 0)
  {
    assert (rs + [r])[..|rs + [r]| - 1] == rs;
  }

  lemma {:induction false} CountIn(rs: seq<Req>, r: Req)
    requires r in rs
    ensures FileCount(rs, r.file) > 0
  {
    if rs[|rs| - 1] != r {
      CountIn(rs[..|rs| - 1], r);
    }
  }

  lemma ReceiveInbox(s: State, file: File)
    requires Waiting(s, file)
    ensures var t := Receive(s, file);
            && t.received == s.received + [Admit(|s.received|, file, s.inbox[file].p)]
            && Admit(|s.received|, file, s.inbox[file].p).file == file
            && (forall g :: g != file ==> (g in t.seen <==> g in s.seen))
            && (forall g :: g != file ==> (g in t.inbox <==> g in s.inbox) && (g in s.inbox ==> t.inbox[g] == s.inbox[g]))
            && (file in t.inbox ==> file in t.seen)
  {
    hide StatusOf, Pop, Remove;
  }

  lemma ReceiveUse(s: State, file: File, f: File)
    ensures Use(Receive(s, file), f) <= Use(s, f)
  {
    hide Receive, Admit;
    if Waiting(s, file) {
      ReceiveInbox(s, file);
      CountOne(s.received, Admit(|s.received|, file, s.inbox[file].p), f);
    } else {
      NotReceived(s, file);
    }
  }

  lemma NotReceived(s: State, file: File)
    ensures !Waiting(s, file) ==> Receive(s, file) == s
  {
  }

  lemma FinishInbox(s: State, r: Req, v: Verdict)
    ensures var t := Finish(s, r, v);
            t.inbox == s.inbox - {r.file} && t.seen == s.seen - {r.file} && t.received == s.received
  {
    hide StatusOf, Pop, Remove;
  }

  lemma CollectUse(s: State, r: Req, f: File)
    ensures Use(Collect(s, r), f) <= Use(s, f)
  {
    hide Finish;
    if r.rid in s.done {
      FinishInbox(s, r, VerdictOf(r.lane, s.done[r.rid]));
    }
  }

  lemma {:induction false} GetsInbox(s: State, snapshot: seq<Req>, running: nat, workers: nat)
    ensures var t := StartGets(s, snapshot, running, workers);
            t.inbox == s.inbox && t.seen == s.seen && t.received == s.received
    decreases |snapshot|
  {
    hide StatusOf, Put, Remove;
    if snapshot != [] {
      if snapshot[0].lane == Get && running < workers {
        GetsInbox(Start(s, snapshot[0]), snapshot[1..], running + 1, workers);
      } else {
        GetsInbox(s, snapshot[1..], running, workers);
      }
    }
  }

  lemma DispatchInbox(s: State, workers: nat)
    ensures var t := Dispatch(s, workers); t.inbox == s.inbox && t.seen == s.seen && t.received == s.received
  {
    hide StatusOf, Put, Remove, StartGets;
    GetsInbox(s, s.pending, |Mates(s.active, Get)|, workers);
  }

  lemma NextUse(s: State, a: Action, workers: nat, f: File)
    ensures Use(Next(s, a, workers), f) <= Use(s, f) + (if a.Deliver? && a.file == f then 1 else 0)
  {
    hide Receive, Collect, Dispatch, StatusOf;
    if a.Turn? && s.pc.Receiving? && s.pc.files != [] {
      ReceiveUse(s, s.pc.files[0], f);
    } else if a.Turn? && s.pc.Collecting? && s.pc.reqs != [] {
      CollectUse(s, s.pc.reqs[0], f);
    } else if a.Turn? && s.pc.Dispatching? {
      DispatchInbox(s, workers);
    }
  }

  /** MAIN: in every run, whatever its ids, a file is received at most as often as it was put into
      the inbox, and one time less while it waits there. */
  lemma {:induction false} ReceivedAsDelivered(inbox: map<File, Content>, actions: seq<Action>, workers: nat, f: File)
    ensures Use(Run(inbox, actions, workers), f) <= Deliveries(inbox, actions, f)
  {
    hide Next;
    if actions != [] {
      ReceivedAsDelivered(inbox, actions[..|actions| - 1], workers, f);
      NextUse(Run(inbox, actions[..|actions| - 1], workers), actions[|actions| - 1], workers, f);
    }
  }

  // ----- leaving the inbox

  /** MAIN: in a run with distinct live ids a file that was received as often as it was put into the
      inbox, and none of whose requests is live, is not there any more. */
  lemma FinishedLeaves(inbox: map<File, Content>, actions: seq<Action>, workers: nat, f: File)
    requires workers >= 1 && DistinctLiveIds(inbox, actions, workers)
    requires var s := Run(inbox, actions, workers);
             && FileCount(s.received, f) == Deliveries(inbox, actions, f)
             && (forall r :: r in s.pending || r in s.active ==> r.file != f)
    ensures f !in Run(inbox, actions, workers).inbox
  {
    hide Run;
    ReceivedAsDelivered(inbox, actions, workers, f);
    RunInv(inbox, actions, workers);
    var s := Run(inbox, actions, workers);
    InvParts(s, workers);
    if f in s.seen {
      SeenIsLive(s, f);
    }
  }

  lemma SeenIsLive(s: State, f: File)
    requires Names(s) && f in s.seen
    ensures exists r :: (r in s.pending || r in s.active) && r.file == f
  {
  }

  /** Nothing but a finish of its own request takes a file out of the inbox. */
  ghost predicate KeepsOthers(s: State, t: State, f: File) {
    f in s.inbox && FileCount(t.received, f) == 0 ==> f in t.inbox
  }

  lemma NextKeeps(s: State, a: Action, workers: nat, f: File)
    requires Core(s) && Control(s)
    ensures KeepsOthers(s, Next(s, a, workers), f)
    ensures FileCount(s.received, f) <= FileCount(Next(s, a, workers).received, f)
  {
    hide Receive, Collect, Dispatch, StatusOf, Admit, Core, Control;
    if a.Turn? && s.pc.Receiving? && s.pc.files != [] {
      var file := s.pc.files[0];
      if Waiting(s, file) {
        ReceiveInbox(s, file);
        CountOne(s.received, Admit(|s.received|, file, s.inbox[file].p), f);
      } else {
        NotReceived(s, file);
      }
    } else if a.Turn? && s.pc.Collecting? && s.pc.reqs != [] {
      CollectKeeps(s, f);
    } else if a.Turn? && s.pc.Dispatching? {
      DispatchInbox(s, workers);
    }
  }

  lemma CollectKeeps(s: State, f: File)
    requires Core(s) && Control(s) && s.pc.Collecting? && s.pc.reqs != []
    ensures var t := Collect(s, s.pc.reqs[0]);
            t.received == s.received && (f in s.inbox && FileCount(s.received, f) == 0 ==> f in t.inbox)
  {
    hide Finish;
    var r := s.pc.reqs[0];
    assert Known(s, r);
    CountIn(s.received, r);
    if r.rid in s.done {
      FinishInbox(s, r, VerdictOf(r.lane, s.done[r.rid]));
    }
  }

  /** MAIN: a file that was put into the inbox and never received is still there, and unseen. */
  lemma {:induction false} UnreceivedStays(inbox: map<File, Content>, actions: seq<Action>, workers: nat, f: File)
    requires workers >= 1 && DistinctLiveIds(inbox, actions, workers)
    requires FileCount(Run(inbox, actions, workers).received, f) == 0 && Deliveries(inbox, actions, f) > 0
    ensures f in Run(inbox, actions, workers).inbox && f !in Run(inbox, actions, workers).seen
  {
    hide Next, Inv, FreshId;
    var s := Run(inbox, actions, workers);
    RunInv(inbox, actions, workers);
    UnreceivedIsUnseen(s, workers, f);
    if actions != [] {
      var last := |actions| - 1;
      var before, a := Run(inbox, actions[..last], workers), actions[last];
      LastStep(inbox, actions, workers);
      InvParts(before, workers);
      NextKeeps(before, a, workers, f);
      if Deliveries(inbox, actions[..last], f) > 0 {
        UnreceivedStays(inbox, actions[..last], workers, f);
      } else {
        Delivered(before, a, workers);
      }
    }
  }

  lemma Delivered(s: State, a: Action, workers: nat)
    requires a.Deliver?
    ensures a.file in Next(s, a, workers).inbox
  {
  }

  lemma InvParts(s: State, workers: nat)
    requires Inv(s, workers)
    ensures Core(s) && Names(s) && Control(s)
  {
  }

  lemma UnreceivedIsUnseen(s: State, workers: nat, f: File)
    requires Inv(s, workers) && FileCount(s.received, f) == 0
    ensures f !in s.seen
  {
    if f in s.seen {
      SeenIsLive(s, f);
      var r :| (r in s.pending || r in s.active) && r.file == f;
      assert Known(s, r);
      CountIn(s.received, r);
    }
  }

  // ----- execution

  function FromFile(rs: seq<Req>, f: File): set<Req> {
    set r | r in rs && r.file == f
  }

  lemma {:induction false} CountIsSize(rs: seq<Req>, f: File)
    requires Unrepeated(rs)
    ensures |FromFile(rs, f)| == FileCount(rs, f)
  {
    if rs != [] {
      var last := |rs| - 1;
      CountIsSize(rs[..last], f);
      var r := rs[last];
      assert rs == rs[..last] + [r];
      assert r !in rs[..last];
      assert FromFile(rs, f) == FromFile(rs[..last], f) + (if r.file == f then {r} else {});
    } else {
      assert FromFile(rs, f) == {};
    }
  }

  lemma SubsetCount(a: set<Req>, b: set<Req>)
    requires a <= b
    ensures |a| <= |b|
  {
    assert b == a + (b - a);
  }

  /** MAIN: a file is handed to the executor at most as often as it was put into the inbox, so one
      that was put there once is executed at most once. */
  lemma ExecutedAsDelivered(inbox: map<File, Content>, actions: seq<Action>, workers: nat, f: File)
    requires workers >= 1 && DistinctLiveIds(inbox, actions, workers)
    ensures var s := Run(inbox, actions, workers);
            FileCount(s.submitted, f) <= FileCount(s.received, f) <= Deliveries(inbox, actions, f)
  {
    hide Run;
    var s := Run(inbox, actions, workers);
    RunInv(inbox, actions, workers);
    ReceivedAsDelivered(inbox, actions, workers, f);
    forall r | r in s.submitted ensures r in s.received {
      assert Known(s, r);
    }
    CountIsSize(s.submitted, f);
    CountIsSize(s.received, f);
    SubsetCount(FromFile(s.submitted, f), FromFile(s.received, f));
  }

  // ----- every waiting file is received

  /** The next n turns of the relay. */
  function TurnsOf(s: State, n: nat, listing: seq<File>, workers: nat): State
    decreases n
  {
    if n == 0 then s else TurnsOf(TurnStep(s, listing, false, workers), n - 1, listing, workers)
  }

  /** From s to t exactly the waiting ones among the files were received, each once. */
  ghost predicate ReceivedOnce(s: State, t: State, files: seq<File>) {
    forall f :: FileCount(t.received, f) == FileCount(s.received, f) + (if f in files && Waiting(s, f) then 1 else 0)
  }

  lemma {:induction false} ListReceived(s: State, files: seq<File>, listing: seq<File>, workers: nat)
    requires s.pc == Receiving(files) && forall i, j :: 0 <= i < j < |files| ==> files[i] != files[j]
    ensures var t := TurnsOf(s, |files|, listing, workers); t.pc == Receiving([]) && ReceivedOnce(s, t, files)
    decreases |files|
  {
    hide *;
    if files == [] {
      NoTurns(s, listing, workers);
      NoneReceived(s);
    } else {
      var file, rest := files[0], files[1..];
      var u := Receive(s, file).(pc := Receiving(rest));
      ReceiveTurn(s, |files|, listing, workers);
      ListReceived(u, rest, listing, workers);
      var t := TurnsOf(u, |rest|, listing, workers);
      assert files == [file] + rest && file !in rest;
      forall f ensures FileCount(t.received, f) == FileCount(s.received, f) + (if f in files && Waiting(s, f) then 1 else 0) {
        OneFile(s, u, t, file, rest, f);
      }
      ReceivedOnceIs(s, t, files);
    }
  }

  lemma NoTurns(s: State, listing: seq<File>, workers: nat)
    ensures TurnsOf(s, 0, listing, workers) == s
  {
  }

  lemma NoneReceived(s: State)
    ensures ReceivedOnce(s, s, [])
  {
  }

  lemma ReceiveTurn(s: State, n: nat, listing: seq<File>, workers: nat)
    requires s.pc.Receiving? && s.pc.files != [] && n >= 1
    ensures TurnsOf(s, n, listing, workers) ==
            TurnsOf(Receive(s, s.pc.files[0]).(pc := Receiving(s.pc.files[1..])), n - 1, listing, workers)
  {
    hide Receive;
  }

  lemma ReceivedOnceIs(s: State, t: State, files: seq<File>)
    requires forall f :: FileCount(t.received, f) == FileCount(s.received, f) + (if f in files && Waiting(s, f) then 1 else 0)
    ensures ReceivedOnce(s, t, files)
  {
  }

  lemma OneFile(s: State, u: State, t: State, file: File, rest: seq<File>, f: File)
    requires u == Receive(s, file).(pc := u.pc) && file !in rest && ReceivedOnce(u, t, rest)
    ensures FileCount(t.received, f) ==
            FileCount(s.received, f) + (if (f == file || f in rest) && Waiting(s, f) then 1 else 0)
  {
    hide Receive, Admit;
    if Waiting(s, file) {
      ReceiveInbox(s, file);
      CountOne(s.received, Admit(|s.received|, file, s.inbox[file].p), f);
    } else {
      NotReceived(s, file);
    }
  }

  /** MAIN: one pass over the inbox, undisturbed, receives exactly the readable files that are not
      seen yet, each once. */
  lemma PassReceives(s: State, listing: seq<File>, workers: nat)
    requires s.pc.Top? && !s.stop && Listing(listing, s.inbox)
    ensures var t := TurnsOf(s, 1 + |listing|, listing, workers);
            t.pc == Receiving([])
            && forall f :: FileCount(t.received, f) == FileCount(s.received, f) + (if Waiting(s, f) then 1 else 0)
  {
    var u := TurnStep(s, listing, false, workers);
    assert u == s.(pc := Receiving(listing));
    ListReceived(u, listing, listing, workers);
    assert TurnsOf(s, 1 + |listing|, listing, workers) == TurnsOf(u, |listing|, listing, workers);
  }

  // ----- every result is collected

  lemma CollectEffect(s: State, r: Req)
    ensures var t := Collect(s, r);
            && t.done == s.done && s.finished <= t.finished
            && (r.rid in s.done ==> r.rid in t.finished) && (r.rid !in s.done ==> t == s)
  {
    hide StatusOf, Pop, Remove;
  }

  lemma {:induction false} ListCollected(s: State, reqs: seq<Req>, listing: seq<File>, workers: nat)
    requires Inv(s, workers) && s.pc == Collecting(reqs)
    ensures var t := TurnsOf(s, |reqs|, listing, workers);
            && Inv(t, workers) && t.pc == Collecting([]) && s.finished <= t.finished && t.done == s.done
            && forall r :: r in reqs && r.rid in s.done ==> r.rid in t.finished
    decreases |reqs|
  {
    hide *;
    if reqs == [] {
      NoTurns(s, listing, workers);
    } else {
      CollectStep(s, workers);
      CollectEffect(s, reqs[0]);
      CollectTurn(s, |reqs|, listing, workers);
      var u := Collect(s, reqs[0]).(pc := Collecting(reqs[1..]));
      ListCollected(u, reqs[1..], listing, workers);
      CollectedAfter(s, u, TurnsOf(u, |reqs| - 1, listing, workers), reqs);
    }
  }

  lemma CollectTurn(s: State, n: nat, listing: seq<File>, workers: nat)
    requires s.pc.Collecting? && s.pc.reqs != [] && n >= 1
    ensures TurnsOf(s, n, listing, workers) ==
            TurnsOf(Collect(s, s.pc.reqs[0]).(pc := Collecting(s.pc.reqs[1..])), n - 1, listing, workers)
  {
    hide Collect;
  }

  lemma CollectedAfter(s: State, u: State, t: State, reqs: seq<Req>)
    requires reqs != [] && u.done == s.done && u.finished <= t.finished
    requires reqs[0].rid in s.done ==> reqs[0].rid in u.finished
    requires forall r :: r in reqs[1..] && r.rid in u.done ==> r.rid in t.finished
    ensures forall r :: r in reqs && r.rid in s.done ==> r.rid in t.finished
  {
    assert reqs == [reqs[0]] + reqs[1..];
  }

  /** MAIN: in every run with distinct live ids the next pass over the active requests, undisturbed,
      finishes every one whose result is there. */
  lemma PassCollects(inbox: map<File, Content>, actions: seq<Action>, listing: seq<File>, workers: nat)
    requires workers >= 1 && DistinctLiveIds(inbox, actions, workers)
    requires Run(inbox, actions, workers).pc.Collecting?
    ensures var s := Run(inbox, actions, workers);
            var t := TurnsOf(s, |s.pc.reqs|, listing, workers);
            t.pc == Collecting([]) && forall r :: r in s.pc.reqs && r.rid in s.done ==> r.rid in t.finished
  {
    hide Run, Inv;
    RunInv(inbox, actions, workers);
    var s := Run(inbox, actions, workers);
    ListCollected(s, s.pc.reqs, listing, workers);
  }

  // ----- verdicts

  /** The future holds a dict without either flag, or, for a GET, no dict. */
  predicate Succeeds(lane: Lane, o: Output) {
    o == Returned(false, false) || (o == NotADict && lane != Post)
  }

  /** MAIN: an outbox file that says `completed` answers a request that was refused or whose future
      succeeded; one that says `ambiguous` an allowed one whose future did not. */
  lemma VerdictMeans(inbox: map<File, Content>, actions: seq<Action>, workers: nat, id: Id)
    requires workers >= 1 && DistinctLiveIds(inbox, actions, workers)
    ensures var s := Run(inbox, actions, workers);
            id in s.disk.outbox ==>
              exists i :: 0 <= i < |s.received| && i in s.finished && s.received[i].id == id
                          && (s.received[i].allowed ==> i in s.done)
                          && (s.disk.outbox[id] == Completed <==>
                                !s.received[i].allowed || Succeeds(s.received[i].lane, s.done[i]))
  {
    hide Run;
    var s := Run(inbox, actions, workers);
    RunAnswers(inbox, actions, workers, id);
    if id in s.disk.outbox {
      var i: nat :| AnswersBy(s, id, i);
      VerdictExactly(s.received[i].lane, if s.received[i].allowed then s.done[i] else Raised);
      assert 0 <= i < |s.received|;
    }
  }

  lemma VerdictExactly(lane: Lane, o: Output)
    ensures VerdictOf(lane, o) == Completed <==> Succeeds(lane, o)
  {
  }
}

/** Why the relay's guarantees ask for distinct live ids: what two live files with the same
    id do to the dictionary of active requests. */
module RelayCollision {
  import opened Text
  import opened RelayProtocol
  import opened RelayPartition
  import opened RelaySafety

  const FIRST: Req := Req(0, "a", "x", Get, true)
  const SECOND: Req := Req(1, "b", "x", Get, true)
  const REQUEST: Content := Readable(Payload(Some("x"), "GET", "/"))
  const INBOX: map<File, Content> := map["a" := REQUEST, "b" := REQUEST]
  const DONE: Output := Returned(false, false)
  const GO: Action := Turn([], false)

  const ACTIONS: seq<Action> :=
    [Turn(["a", "b"], false), GO, GO, GO, GO, GO, RequestStop, GO, Complete(1, DONE), GO, GO, GO, GO, GO]

  function Now(n: nat): State
    requires n <= |ACTIONS|
  {
    Run(INBOX, ACTIONS[..n], 4)
  }

  lemma NowStep(n: nat)
    requires n < |ACTIONS|
    ensures Now(n + 1) == Next(Now(n), ACTIONS[n], 4)
  {
    assert ACTIONS[..n + 1][..n] == ACTIONS[..n];
  }

  lemma Admitted()
    ensures Admit(0, "a", REQUEST.p) == FIRST && Admit(1, "b", REQUEST.p) == SECOND
  {
    assert Keep("x") == "x";
    assert !HasDots("/");
  }

  lemma FirstListing()
    ensures Now(1) == Init(INBOX).(pc := Receiving(["a", "b"]))
  {
    NothingYet();
    NowStep(0);
    assert Listing(["a", "b"], INBOX);
  }

  lemma ReceiveOne(n: nat, r: Req, rest: seq<File>)
    requires n < |ACTIONS| && ACTIONS[n] == GO && Now(n).pc == Receiving([r.file] + rest)
    requires Waiting(Now(n), r.file) && Admit(|Now(n).received|, r.file, Now(n).inbox[r.file].p) == r && r.allowed
    ensures Now(n + 1) == Accept(Now(n), r).(pc := Receiving(rest))
  {
    hide Run, Accept, Admit;
    NowStep(n);
    assert ([r.file] + rest)[1..] == rest;
  }

  lemma BothReceived()
    ensures var s := Now(5);
            && s.pc == Dispatching && s.pending == [FIRST, SECOND] && s.active == [] && s.submitted == []
            && s.received == [FIRST, SECOND] && s.finished == {} && s.done == map[] && !s.stop
            && s.inbox == INBOX && s.seen == {"a", "b"}
  {
    hide StatusOf, Run, Admit;
    FirstListing();
    Admitted();
    assert ["a", "b"] == ["a"] + ["b"] && ["b"] == ["b"] + [];
    ReceiveOne(1, FIRST, ["b"]);
    assert Now(2).received == [FIRST];
    ReceiveOne(2, SECOND, []);
    NowStep(3);
    NowStep(4);
  }

  /** Before anything is started the twins wait in the queue together and nothing is lost,
      though their ids are not distinct. */
  lemma TwinsMayWait()
    ensures !DistinctLiveIds(INBOX, ACTIONS[..3], 4) && RunClear(INBOX, ACTIONS[..3], 4)
  {
    hide StatusOf, Run, Admit, DispatchClear;
    FirstListing();
    NothingYet();
    Admitted();
    assert ["a", "b"] == ["a"] + ["b"] && ["b"] == ["b"] + [];
    ReceiveOne(1, FIRST, ["b"]);
    assert forall n :: 0 <= n < 3 ==> ACTIONS[..3][..n] == ACTIONS[..n] && ACTIONS[..3][n] == ACTIONS[n];
    assert !FreshId(Now(2), ACTIONS[2]) by {
      assert Live(Now(2))[0] == FIRST && FIRST in Live(Now(2));
      TwinId();
    }
    forall n | 0 <= n < 3 ensures StepClear(Now(n), ACTIONS[n], 4) {
      assert n == 0 || n == 1 || n == 2;
    }
    assert ACTIONS[..3][..2] == ACTIONS[..2] && ACTIONS[..3][2] == ACTIONS[2];
  }

  lemma TwinId()
    ensures RequestId("b", REQUEST.p) == "x"
  {
    assert Keep("x") == "x";
  }

  lemma NothingYet()
    ensures Now(0) == Init(INBOX)
  {
  }

  lemma OneSlotLeft()
    ensures var s := Now(10);
            && s.pc == Collecting([SECOND]) && s.pending == [] && s.active == [SECOND]
            && s.submitted == [FIRST, SECOND] && s.received == [FIRST, SECOND] && s.finished == {}
            && s.done == map[1 := DONE] && s.stop && s.inbox == INBOX && s.seen == {"a", "b"}
  {
    hide StatusOf, Run, Dispatch;
    BothReceived();
    BothStart(Now(5));
    NowStep(5);
    NowStep(6);
    NowStep(7);
    assert Now(8).pc == Top && Now(8).submitted[1] == SECOND;
    NowStep(8);
    NowStep(9);
  }

  /** Two live files with the id x: both are executed, the first is never answered, and the
      relay still exits. */
  lemma SameIdLosesARequest()
    ensures var s := Run(INBOX, ACTIONS, 4);
            s.pc.Exited? && s.received == [FIRST, SECOND] && s.submitted == [FIRST, SECOND]
            && 0 !in s.finished && "a" in s.inbox && "a" in s.seen
  {
    hide StatusOf, Run, Dispatch;
    OneSlotLeft();
    NowStep(10);
    assert Now(11).active == [] && Now(11).finished == {1};
    NowStep(11);
    NothingToStart(Now(12));
    NowStep(12);
    NowStep(13);
    assert ACTIONS[..14] == ACTIONS;
  }

  lemma NothingToStart(s: State)
    requires s.pending == [] && s.active == []
    ensures Dispatch(s, 4) == s
  {
  }

  lemma BothStart(s: State)
    requires s.pending == [FIRST, SECOND] && s.active == [] && s.submitted == []
    ensures var t := Dispatch(s, 4);
            && t.pending == [] && t.active == [SECOND] && t.submitted == [FIRST, SECOND]
            && t.received == s.received && t.finished == s.finished && t.seen == s.seen && t.inbox == s.inbox
            && t.stop == s.stop && t.done == s.done
  {
    hide StatusOf;
    var t1 := Start(s, FIRST);
    assert t1.pending == [SECOND] && t1.active == [FIRST];
    var t2 := Start(t1, SECOND);
    assert t2.pending == [] && t2.active == [SECOND];
    assert StartGets(s, [FIRST, SECOND], 0, 4) == StartGets(t1, [SECOND], 1, 4) by {
      assert [FIRST, SECOND][1..] == [SECOND];
    }
    assert StartGets(t1, [SECOND], 1, 4) == t2 by {
      assert [SECOND][1..] == [];
    }
    MatesNone(Get);
    MatesOne(SECOND, Post);
  }
}

/** One run of one request, with everything a client can read during it, and readings of it that
    go back: a torn one that is ahead, and a torn one that is behind. */
module RelayTornWitness {
  import opened Text
  import opened RelayProtocol
  import opened RelaySafety
  import opened RelayClient
  import opened RelayCollision
  import opened RelayTornRead

  const ONE: map<File, Content> := map["a" := REQUEST]

  /** The request is received and started, the relay told to stop, and its result collected. */
  const STEPS: seq<Action> :=
    [Turn(["a"], false), GO, GO, GO, GO, GO, RequestStop, Complete(0, DONE), GO, GO]

  function After(n: nat): State
    requires n <= |STEPS|
  {
    Run(ONE, STEPS[..n], 4)
  }

  lemma AfterStep(n: nat)
    requires n < |STEPS|
    ensures After(n + 1) == Next(After(n), STEPS[n], 4)
  {
    assert STEPS[..n + 1][..n] == STEPS[..n];
  }

  // ----- what can be read

  const WAITING: Status := Status([], [("x", 1)])
  const WORKING: Status := Status(["x"], [])
  const IDLE: Status := Status([], [])

  const NOTHING: Disk := Disk(map[], map[], IDLE)
  const NAMED: Disk := Disk(map[], map["x" := QueuedPhase], IDLE)
  const LISTED: Disk := Disk(map[], map["x" := QueuedPhase], WAITING)
  const AHEAD: Disk := Disk(map[], map["x" := RunningPhase], WAITING)
  const RUNNING: Disk := Disk(map[], map["x" := RunningPhase], WORKING)
  const ANSWERED: Disk := Disk(map["x" := Completed], map["x" := RunningPhase], WORKING)
  const REMOVED: Disk := Disk(map["x" := Completed], map[], WORKING)
  const OVER: Disk := Disk(map["x" := Completed], map[], IDLE)

  /** Every state of the three files, in order. */
  const LOG: seq<Disk> := [NOTHING, NAMED, LISTED, AHEAD, RUNNING, ANSWERED, REMOVED, OVER]

  lemma Statuses()
    ensures StatusOf([FIRST], []) == WAITING && StatusOf([], [FIRST]) == WORKING && StatusOf([], []) == IDLE
  {
    var st := StatusOf([FIRST], []);
    assert [FIRST][..0] == [];
    MatesNone(Get);
    assert st.queue[0] == ("x", 1);
    assert StatusOf([], [FIRST]).inFlight[0] == "x";
  }

  lemma AcceptOne(s: State)
    requires s.pending == [] && s.active == [] && s.log == [NOTHING] && s.disk == NOTHING
    ensures Accept(s, FIRST).log == [NOTHING, NAMED, LISTED] && Accept(s, FIRST).disk == LISTED
  {
    hide StatusOf;
    Statuses();
    assert [] + [FIRST] == [FIRST];
  }

  lemma StartOne(s: State)
    requires s.pending == [FIRST] && s.active == [] && s.log == [NOTHING, NAMED, LISTED] && s.disk == LISTED
    ensures var t := Start(s, FIRST);
            && t.pending == [] && t.active == [FIRST] && t.submitted == s.submitted + [FIRST]
            && t.log == [NOTHING, NAMED, LISTED, AHEAD, RUNNING] && t.disk == RUNNING
            && t == s.(pending := [], active := [FIRST], submitted := t.submitted, log := t.log, disk := t.disk)
  {
    hide StatusOf;
    Statuses();
    StartLog(s, FIRST);
    assert Remove([FIRST], FIRST) == [];
    assert map["x" := QueuedPhase]["x" := RunningPhase] == map["x" := RunningPhase];
  }

  lemma DispatchOne(s: State)
    requires s.pending == [FIRST] && s.active == [] && Start(s, FIRST).pending == []
    ensures Dispatch(s, 4) == Start(s, FIRST)
  {
    hide Start;
    assert [FIRST][1..] == [];
    MatesNone(Get);
    var t := Start(s, FIRST);
    assert StartGets(t, [], 1, 4) == t;
    assert StartGets(s, [FIRST], 0, 4) == StartGets(t, [], 1, 4);
    assert FirstPost(t.pending) == None;
  }

  lemma FinishOne(s: State)
    requires s.pending == [] && s.active == [FIRST] && s.disk == RUNNING
    requires s.log == [NOTHING, NAMED, LISTED, AHEAD, RUNNING]
    ensures Finish(s, FIRST, Completed).log == LOG
  {
    hide StatusOf, Finish;
    Statuses();
    FinishLog(s, FIRST, Completed);
    NoneLeft(s);
    var t := Finish(s, FIRST, Completed);
    assert s.disk.(outbox := s.disk.outbox["x" := Completed]) == ANSWERED;
    assert ANSWERED.inflight - {"x"} == map[];
    assert t.log == [NOTHING, NAMED, LISTED, AHEAD, RUNNING] + [ANSWERED] + [REMOVED] + [OVER];
  }

  lemma NoneLeft(s: State)
    requires s.pending == [] && s.active == [FIRST]
    ensures Finish(s, FIRST, Completed).pending == [] && Finish(s, FIRST, Completed).active == []
  {
    hide StatusOf;
  }

  // ----- the run

  lemma NothingDone()
    ensures After(0) == Init(ONE)
  {
  }

  lemma Received()
    ensures After(1) == Init(ONE).(pc := Receiving(["a"]))
    ensures After(2) == Accept(After(1), FIRST).(pc := Receiving([]))
  {
    hide Run, Accept, Admit;
    NothingDone();
    Admitted();
    AfterStep(0);
    assert Listing(["a"], ONE);
    AfterStep(1);
    assert ["a"][1..] == [];
  }

  lemma Queue()
    ensures var s := After(4);
            && After(1).pc == Receiving(["a"]) && Live(After(1)) == []
            && After(2).pc == Receiving([]) && After(3).pc == Collecting([])
            && s.pc == Dispatching && s.pending == [FIRST] && s.active == [] && s.submitted == []
            && s.received == [FIRST] && s.done == map[] && !s.stop
            && s.log == [NOTHING, NAMED, LISTED] && s.disk == LISTED
  {
    hide StatusOf, Run;
    Received();
    AcceptOne(After(1));
    AfterStep(2);
    AfterStep(3);
  }

  lemma Work()
    ensures var s := After(5);
            && s.pc == Checking && s.pending == [] && s.active == [FIRST] && s.submitted == [FIRST]
            && s.received == [FIRST] && s.done == map[] && !s.stop
            && s.log == [NOTHING, NAMED, LISTED, AHEAD, RUNNING] && s.disk == RUNNING
  {
    hide StatusOf, Run, Start, Dispatch;
    Queue();
    StartOne(After(4));
    DispatchOne(After(4));
    AfterStep(4);
  }

  lemma Result()
    ensures var s := After(9);
            && After(6).pc == Top && After(7).pc == Top && After(8).pc == Top
            && s.pc == Collecting([FIRST]) && s.pending == [] && s.active == [FIRST]
            && s.received == [FIRST] && s.done == map[0 := DONE]
            && s.log == [NOTHING, NAMED, LISTED, AHEAD, RUNNING] && s.disk == RUNNING
  {
    hide StatusOf, Run, Receive, Collect, Dispatch;
    Work();
    AfterStep(5);
    AfterStep(6);
    assert After(7).submitted[0] == FIRST;
    AfterStep(7);
    AfterStep(8);
  }

  lemma Answer()
    ensures After(10).log == LOG && After(10).received == [FIRST]
  {
    hide StatusOf, Run, Finish, LOG;
    Result();
    FinishOne(After(9));
    SameReceived(After(9));
    AfterStep(9);
  }

  lemma SameReceived(s: State)
    ensures Finish(s, FIRST, Completed).received == s.received
  {
  }

  lemma FreshAt(n: nat)
    requires n < 10
    ensures FreshId(After(n), STEPS[n])
  {
    hide Run;
    NothingDone();
    Queue();
    Work();
    Result();
  }

  /** What a client can read in the course of the run, whose live ids are distinct. */
  lemma WholeLog()
    ensures Run(ONE, STEPS, 4).log == LOG && DistinctLiveIds(ONE, STEPS, 4) && Single(Run(ONE, STEPS, 4), "x")
  {
    hide Run, LOG, Init;
    Answer();
    assert STEPS[..10] == STEPS;
    forall n | 0 <= n < 10 ensures FreshId(After(n), STEPS[n]) {
      FreshAt(n);
    }
  }

  /** MAIN: a reading that is ahead: taken from just before the request was named to its start it
      shows a running request; the next one, of the moment of the start, finds it queued. */
  lemma RereadGoesBack()
    ensures var log := Run(ONE, STEPS, 4).log;
            && DistinctLiveIds(ONE, STEPS, 4) && |log| == 8
            && Reread(log[0], log[0], log[3], log[3], "x") == InFlightFile(RunningPhase)
            && Reread(log[3], log[3], log[3], log[3], "x") == Queued(1)
  {
    hide Run;
    WholeLog();
  }

  /** MAIN: a reading that is behind: the one before says running, the torn one not seen, for an
      id that is received once, and its second look at the outbox finds the answer. */
  lemma TornReadGoesBack()
    ensures var log := Run(ONE, STEPS, 4).log;
            && DistinctLiveIds(ONE, STEPS, 4) && Single(Run(ONE, STEPS, 4), "x") && |log| == 8
            && TornView(log[4], log[4], log[4], "x") == Running
            && TornView(log[4], log[7], log[7], "x") == NotSeen
            && Reread(log[4], log[7], log[7], log[7], "x") == Terminal(Completed)
  {
    hide Run;
    WholeLog();
  }
}

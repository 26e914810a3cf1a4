/** A client that reads the three files at different moments: exactly when what it puts together
    is out of date, and how a second look at the outbox repairs it. */
module RelayTornRead {
  import opened Text
  import opened RelayProtocol
  import opened RelaySafety
  import opened RelayRuns
  import opened RelayClient

  /** A reading whose three files come from different moments. */
  function TornView(outbox: Disk, status: Disk, inflight: Disk, id: Id): View {
    ViewOf(Disk(outbox.outbox, inflight.inflight, status.status), id)
  }

  /** The same reading, after which the outbox is looked at once more. */
  function Reread(outbox: Disk, status: Disk, inflight: Disk, again: Disk, id: Id): View {
    if id in again.outbox then Terminal(again.outbox[id]) else TornView(outbox, status, inflight, id)
  }

  /** Four moments of a log in order. */
  predicate Moments(s: State, i: nat, j: nat, k: nat, l: nat) {
    i <= j <= k <= l < |s.log|
  }

  /** The view that the marks of the three files make. */
  lemma TornMarks(outbox: Disk, status: Disk, inflight: Disk, id: Id)
    ensures var o, s, f := MarksOf(outbox, id), MarksOf(status, id), MarksOf(inflight, id);
            var v := TornView(outbox, status, inflight, id);
            && (v.Terminal? <==> o.out)
            && (!o.out && s.running ==> v == Running)
            && (!o.out && !s.running && s.queued ==> v.Queued?)
            && (!o.out && !s.running && !s.queued ==>
                  v == if f.file.Some? then InFlightFile(f.file.value) else NotSeen)
  {
  }

  lemma RankMarks(d: Disk, id: Id)
    ensures var m := MarksOf(d, id);
            && RankOf(d, id) == (if m.out then 3 else if m.running then 2 else if m.queued then 1
                                 else if m.file == Some(RunningPhase) then 2 else if m.file.Some? then 1 else 0)
            && (ViewOf(d, id).Queued? <==> !m.out && !m.running && m.queued)
            && (ViewOf(d, id) == NotSeen <==> !m.out && !m.running && !m.queued && m.file == None)
  {
  }

  /** What the three moments of a reading may show when the id was never answered before the
      last one. */
  lemma UnansweredMarks(o: Marks, s: Marks, f: Marks)
    requires !f.out && !s.out && !o.out && Plausible(o) && Plausible(s) && Plausible(f)
    requires Stage(o) <= Stage(s) <= Stage(f)
    ensures !s.running && !s.queued ==> (o.running ==> false) && (o.queued ==> false) && (o.file.Some? ==> f.file.Some?)
    ensures !s.running && !s.queued ==> o.file != Some(RunningPhase)
    ensures !s.running && s.queued ==> !o.running
    ensures s.running ==> f.running
    ensures s.queued && !s.running ==> f.queued || f.running
  {
  }

  lemma MomentsForward(s: State, id: Id, i: nat, j: nat, k: nat)
    requires Forward(s, id) && i <= j <= k < |s.log|
    ensures id in s.log[i].outbox ==> id in s.log[j].outbox
    ensures id in s.log[j].outbox ==> id in s.log[k].outbox
    ensures id !in s.log[k].outbox ==>
              var o, t, f := MarksOf(s.log[i], id), MarksOf(s.log[j], id), MarksOf(s.log[k], id);
              Plausible(o) && Plausible(t) && Plausible(f) && Stage(o) <= Stage(t) <= Stage(f)
  {
  }

  /** For every reading, outbox then status then inflight file, over any run with distinct live
      ids: if the outbox, read again last, does not hold the id, the reading is not behind its own
      first moment. */
  lemma RereadIsNotBehind(inbox: map<File, Content>, actions: seq<Action>, workers: nat, id: Id,
                            i: nat, j: nat, k: nat, l: nat)
    requires workers >= 1 && DistinctLiveIds(inbox, actions, workers)
    requires Moments(Run(inbox, actions, workers), i, j, k, l)
    ensures var log := Run(inbox, actions, workers).log;
            && (id !in log[l].outbox ==> RankOf(log[i], id) <= Rank(TornView(log[i], log[j], log[k], id)))
            && RankOf(log[i], id) <= Rank(Reread(log[i], log[j], log[k], log[l], id))
  {
    hide Run, FreshId, RankOf, TornView, MarksOf, Forward, AllForward;
    RunGood(inbox, actions, workers, id);
    var s := Run(inbox, actions, workers);
    var o, t, f := MarksOf(s.log[i], id), MarksOf(s.log[j], id), MarksOf(s.log[k], id);
    MomentsForward(s, id, i, j, k);
    MomentsForward(s, id, k, l, l);
    OutMark(s.log[l], id);
    OutMark(s.log[k], id);
    OutMark(s.log[j], id);
    OutMark(s.log[i], id);
    TornMarks(s.log[i], s.log[j], s.log[k], id);
    RankMarks(s.log[i], id);
    if !f.out {
      UnansweredMarks(o, t, f);
    }
  }

  lemma OutMark(d: Disk, id: Id)
    ensures MarksOf(d, id).out == (id in d.outbox)
  {
  }

  /** MAIN: a reading that says "not seen" is out of date if and only if the outbox, read again
      with or after the inflight file, holds the id. */
  lemma NotSeenIsStale(inbox: map<File, Content>, actions: seq<Action>, workers: nat, id: Id, i: nat, j: nat, k: nat)
    requires workers >= 1 && DistinctLiveIds(inbox, actions, workers)
    requires i <= j <= k < |Run(inbox, actions, workers).log|
    ensures var log := Run(inbox, actions, workers).log;
            TornView(log[i], log[j], log[k], id) == NotSeen ==>
              (ViewOf(log[k], id) != NotSeen <==> id in log[k].outbox)
  {
    hide Run, FreshId, RankOf, TornView, ViewOf, MarksOf, Forward, AllForward;
    RunGood(inbox, actions, workers, id);
    var s := Run(inbox, actions, workers);
    MomentsForward(s, id, i, j, k);
    OutMark(s.log[k], id);
    OutMark(s.log[j], id);
    OutMark(s.log[i], id);
    TornMarks(s.log[i], s.log[j], s.log[k], id);
    RankMarks(s.log[k], id);
  }

  /** MAIN: a reading is ahead of its last moment if and only if it shows the inflight file of a
      start whose status is not written yet, so that the status still lists the id as queued. */
  lemma AheadExactly(inbox: map<File, Content>, actions: seq<Action>, workers: nat, id: Id, i: nat, j: nat, k: nat)
    requires workers >= 1 && DistinctLiveIds(inbox, actions, workers)
    requires i <= j <= k < |Run(inbox, actions, workers).log|
    ensures var log := Run(inbox, actions, workers).log;
            var v := TornView(log[i], log[j], log[k], id);
            Rank(v) > RankOf(log[k], id) <==> v == InFlightFile(RunningPhase) && ViewOf(log[k], id).Queued?
  {
    hide Run, FreshId, RankOf, TornView, ViewOf, MarksOf, Forward, AllForward;
    RunGood(inbox, actions, workers, id);
    var s := Run(inbox, actions, workers);
    var o, t, f := MarksOf(s.log[i], id), MarksOf(s.log[j], id), MarksOf(s.log[k], id);
    MomentsForward(s, id, i, j, k);
    OutMark(s.log[k], id);
    OutMark(s.log[j], id);
    OutMark(s.log[i], id);
    TornMarks(s.log[i], s.log[j], s.log[k], id);
    RankMarks(s.log[k], id);
    if !f.out {
      UnansweredMarks(o, t, f);
    }
  }

  /** Three moments of an id that is received once. */
  lemma OnceMarks(o: Marks, s: Marks, f: Marks)
    requires Plausible(o) && Plausible(s) && Plausible(f) && Stage(o) <= Stage(s) <= Stage(f)
    requires !o.out && f.out && !s.running && !s.queued && f.file.Some?
    ensures !o.running && !o.queued && o.file != Some(RunningPhase)
  {
  }

  /** When at most one request of the id is received, a reading ranks below its own first moment
      if and only if it says "not seen" of an id that was seen and the outbox holds by now. */
  lemma BehindExactly(inbox: map<File, Content>, actions: seq<Action>, workers: nat, id: Id, i: nat, j: nat, k: nat)
    requires workers >= 1 && DistinctLiveIds(inbox, actions, workers)
    requires Single(Run(inbox, actions, workers), id)
    requires i <= j <= k < |Run(inbox, actions, workers).log|
    ensures var log := Run(inbox, actions, workers).log;
            var v := TornView(log[i], log[j], log[k], id);
            Rank(v) < RankOf(log[i], id) <==> v == NotSeen && ViewOf(log[i], id) != NotSeen && id in log[k].outbox
  {
    hide Run, FreshId, RankOf, TornView, ViewOf, MarksOf, Forward, AllForward, Single;
    RunGood(inbox, actions, workers, id);
    var s := Run(inbox, actions, workers);
    var o, t, f := MarksOf(s.log[i], id), MarksOf(s.log[j], id), MarksOf(s.log[k], id);
    MomentsForward(s, id, i, j, k);
    MomentsAll(s, id, i, j, k);
    OutMark(s.log[k], id);
    OutMark(s.log[j], id);
    OutMark(s.log[i], id);
    TornMarks(s.log[i], s.log[j], s.log[k], id);
    RankMarks(s.log[i], id);
    if !f.out {
      UnansweredMarks(o, t, f);
    } else if !o.out && !t.running && !t.queued && f.file.Some? {
      OnceMarks(o, t, f);
    }
  }

  lemma MomentsAll(s: State, id: Id, i: nat, j: nat, k: nat)
    requires AllForward(s, id) && i <= j <= k < |s.log|
    ensures var o, t, f := MarksOf(s.log[i], id), MarksOf(s.log[j], id), MarksOf(s.log[k], id);
            Plausible(o) && Plausible(t) && Plausible(f) && Stage(o) <= Stage(t) <= Stage(f)
  {
  }

  // ----- two readings, one after the other

  /** How far a request is known to be, when a phase in its inflight file is taken for no more
      than the file's being there. */
  function Sure(v: View): nat {
    if v.InFlightFile? then 1 else Rank(v)
  }

  /** The rank of a reading, from the marks its three files show. */
  function RankShown(o: Marks, s: Marks, f: Marks): nat {
    if o.out then 3
    else if s.running then 2
    else if s.queued then 1
    else if f.file == Some(RunningPhase) then 2
    else if f.file.Some? then 1
    else 0
  }

  /** The reading is shown from the inflight file. */
  predicate FromFile(o: Marks, s: Marks, f: Marks) {
    !o.out && !s.running && !s.queued && f.file.Some?
  }

  lemma RankTorn(outbox: Disk, status: Disk, inflight: Disk, id: Id)
    ensures var o, s, f := MarksOf(outbox, id), MarksOf(status, id), MarksOf(inflight, id);
            var v := TornView(outbox, status, inflight, id);
            && Rank(v) == RankShown(o, s, f) && (v == NotSeen <==> RankShown(o, s, f) == 0)
            && (v.Queued? <==> !o.out && !s.running && s.queued)
            && (v == InFlightFile(RunningPhase) <==> !o.out && !s.running && !s.queued && f.file == Some(RunningPhase))
            && (v == NotSeen <==> !o.out && !s.running && !s.queued && f.file == None)
            && (v.InFlightFile? <==> FromFile(o, s, f)) && (v.Terminal? <==> o.out)
  {
  }

  /** A file read while the id is unanswered, and files read later, still before an answer. */
  lemma LaterMarks(s: Marks, f: Marks, s': Marks, f': Marks)
    requires !s.out && !f.out && !s'.out && !f'.out
    requires Plausible(s) && Plausible(f) && Plausible(s') && Plausible(f')
    requires Stage(s) <= Stage(f) <= Stage(s') <= Stage(f')
    ensures s.running ==> s'.running
    ensures s.queued ==> s'.running || s'.queued
    ensures f.file == Some(RunningPhase) ==> s'.running || s'.queued
    ensures f.file.Some? ==> f'.file.Some?
  {
  }

  lemma UnansweredPair(o: Marks, s: Marks, f: Marks, o': Marks, s': Marks, f': Marks)
    requires !f'.out && !s'.out && !o'.out && !f.out && !s.out && !o.out
    requires Plausible(s) && Plausible(f) && Plausible(s') && Plausible(f')
    requires Stage(s) <= Stage(f) <= Stage(s') <= Stage(f')
    ensures RankShown(o', s', f') < RankShown(o, s, f) <==>
            !s.running && !s.queued && f.file == Some(RunningPhase) && !s'.running && s'.queued
    ensures RankShown(o', s', f') < RankShown(o, s, f) ==> RankShown(o, s, f) == 2 && RankShown(o', s', f') == 1
  {
    LaterMarks(s, f, s', f');
  }

  /** Six moments of two readings, when the last is before any answer. */
  lemma PairForward(s: State, id: Id, i: nat, j: nat, k: nat, i': nat, j': nat, k': nat)
    requires Forward(s, id) && i <= j <= k <= i' <= j' <= k' < |s.log| && id !in s.log[k'].outbox
    ensures forall n :: n in {i, j, k, i', j', k'} ==> id !in s.log[n].outbox && PlausibleAt(s.log[n], id)
    ensures StageAt(s.log[j], id) <= StageAt(s.log[k], id) <= StageAt(s.log[j'], id) <= StageAt(s.log[k'], id)
  {
    hide StageAt, PlausibleAt;
  }

  /** Before an answer what is sure stays so. */
  lemma SureFollows(o: Marks, s: Marks, f: Marks, o': Marks, s': Marks, f': Marks, v: View, w: View)
    requires !f'.out && !s'.out && !o'.out && !f.out && !s.out && !o.out
    requires Plausible(s) && Plausible(f) && Plausible(s') && Plausible(f')
    requires Stage(s) <= Stage(f) <= Stage(s') <= Stage(f')
    requires Rank(v) == RankShown(o, s, f) && (v.Terminal? <==> o.out) && (v.InFlightFile? <==> FromFile(o, s, f))
    requires Rank(w) == RankShown(o', s', f') && (w.InFlightFile? <==> FromFile(o', s', f'))
    ensures Sure(v) <= Sure(w)
  {
    LaterMarks(s, f, s', f');
  }

  lemma PairUnanswered(s: State, id: Id, i: nat, j: nat, k: nat, i': nat, j': nat, k': nat)
    requires Forward(s, id) && i <= j <= k <= i' <= j' <= k' < |s.log| && id !in s.log[k'].outbox
    ensures var v, w := TornView(s.log[i], s.log[j], s.log[k], id), TornView(s.log[i'], s.log[j'], s.log[k'], id);
            (Rank(w) < Rank(v) <==> v == InFlightFile(RunningPhase) && w.Queued?) && Sure(v) <= Sure(w)
  {
    hide Forward, TornView, RankShown, Rank, Sure;
    PairForward(s, id, i, j, k, i', j', k');
    RankTorn(s.log[i], s.log[j], s.log[k], id);
    RankTorn(s.log[i'], s.log[j'], s.log[k'], id);
    var o, t, f := MarksOf(s.log[i], id), MarksOf(s.log[j], id), MarksOf(s.log[k], id);
    var o', t', f' := MarksOf(s.log[i'], id), MarksOf(s.log[j'], id), MarksOf(s.log[k'], id);
    UnansweredPair(o, t, f, o', t', f');
    SureFollows(o, t, f, o', t', f', TornView(s.log[i], s.log[j], s.log[k], id), TornView(s.log[i'], s.log[j'], s.log[k'], id));
  }

  /** MAIN: two readings one after the other, over any run with distinct live ids, each with a
      second look at the outbox: the later one ranks below the earlier one if and only if the
      earlier one was shown from the inflight file, in phase running, and the later one finds the
      id still listed as queued. A client that takes a phase in the inflight file for no more than
      the file's being there never sees a request move back. */
  lemma RereadGoesBackExactly(inbox: map<File, Content>, actions: seq<Action>, workers: nat, id: Id,
                              i: nat, j: nat, k: nat, l: nat, i': nat, j': nat, k': nat, l': nat)
    requires workers >= 1 && DistinctLiveIds(inbox, actions, workers)
    requires l <= i' && Moments(Run(inbox, actions, workers), i, j, k, l)
    requires Moments(Run(inbox, actions, workers), i', j', k', l')
    ensures var log := Run(inbox, actions, workers).log;
            var v := Reread(log[i], log[j], log[k], log[l], id);
            var w := Reread(log[i'], log[j'], log[k'], log[l'], id);
            && (Rank(w) < Rank(v) <==> v == InFlightFile(RunningPhase) && w.Queued?)
            && Sure(v) <= Sure(w)
  {
    hide Run, FreshId, TornView, Forward, AllForward, Single, DiskInv;
    RunGood(inbox, actions, workers, id);
    var s := Run(inbox, actions, workers);
    OutboxKept(s, id, k', l');
    OutboxKept(s, id, l, l');
    if id !in s.log[l'].outbox {
      PairUnanswered(s, id, i, j, k, i', j', k');
    }
  }

  lemma OutboxKept(s: State, id: Id, j: nat, k: nat)
    requires Forward(s, id) && j <= k < |s.log|
    ensures id in s.log[j].outbox ==> id in s.log[k].outbox
  {
  }

  /** Two readings of an id that is received once, the second begun before an answer. */
  lemma OncePair(o: Marks, s: Marks, f: Marks, o': Marks, s': Marks, f': Marks)
    requires Plausible(s) && Plausible(f) && Plausible(o') && Plausible(s') && Plausible(f')
    requires Stage(s) <= Stage(f) <= Stage(o') <= Stage(s') <= Stage(f')
    requires !o.out && !s.out && !f.out && !o'.out
    ensures RankShown(o', s', f') < RankShown(o, s, f) <==>
            || (!s.running && !s.queued && f.file == Some(RunningPhase) && !s'.running && s'.queued)
            || (RankShown(o, s, f) > 0 && !s'.running && !s'.queued && f'.file == None && f'.out)
  {
  }

  lemma OnceForward(s: State, id: Id, i: nat, j: nat, k: nat, i': nat, j': nat, k': nat)
    requires Forward(s, id) && AllForward(s, id) && i <= j <= k <= i' <= j' <= k' < |s.log| && id !in s.log[i'].outbox
    ensures id !in s.log[i].outbox && id !in s.log[j].outbox && id !in s.log[k].outbox
    ensures forall n :: n in {j, k, i', j', k'} ==> PlausibleAt(s.log[n], id)
    ensures StageAt(s.log[j], id) <= StageAt(s.log[k], id) <= StageAt(s.log[i'], id)
    ensures StageAt(s.log[i'], id) <= StageAt(s.log[j'], id) <= StageAt(s.log[k'], id)
  {
    hide StageAt, PlausibleAt;
  }

  lemma PairOnce(s: State, id: Id, i: nat, j: nat, k: nat, i': nat, j': nat, k': nat)
    requires Forward(s, id) && AllForward(s, id) && i <= j <= k <= i' <= j' <= k' < |s.log| && id !in s.log[i'].outbox
    ensures var v, w := TornView(s.log[i], s.log[j], s.log[k], id), TornView(s.log[i'], s.log[j'], s.log[k'], id);
            Rank(w) < Rank(v) <==>
              || (v == InFlightFile(RunningPhase) && w.Queued?)
              || (v != NotSeen && w == NotSeen && id in s.log[k'].outbox)
  {
    hide Forward, AllForward, TornView, RankShown, Rank;
    OnceForward(s, id, i, j, k, i', j', k');
    RankTorn(s.log[i], s.log[j], s.log[k], id);
    RankTorn(s.log[i'], s.log[j'], s.log[k'], id);
    OncePair(MarksOf(s.log[i], id), MarksOf(s.log[j], id), MarksOf(s.log[k], id),
             MarksOf(s.log[i'], id), MarksOf(s.log[j'], id), MarksOf(s.log[k'], id));
  }

  /** MAIN: two readings one after the other without a second look: while the outbox does not
      hold the id the condition is the same; and for an id that is received at most once the later
      one ranks below the earlier one if and only if that condition holds, or the later one says
      "not seen" of an id that was seen and the outbox holds by now. */
  lemma GoesBackExactly(inbox: map<File, Content>, actions: seq<Action>, workers: nat, id: Id,
                        i: nat, j: nat, k: nat, i': nat, j': nat, k': nat)
    requires workers >= 1 && DistinctLiveIds(inbox, actions, workers)
    requires i <= j <= k <= i' <= j' <= k' < |Run(inbox, actions, workers).log|
    ensures var log := Run(inbox, actions, workers).log;
            var v, w := TornView(log[i], log[j], log[k], id), TornView(log[i'], log[j'], log[k'], id);
            && (id !in log[k'].outbox ==> (Rank(w) < Rank(v) <==> v == InFlightFile(RunningPhase) && w.Queued?))
            && (Single(Run(inbox, actions, workers), id) ==>
                  (Rank(w) < Rank(v) <==>
                     || (v == InFlightFile(RunningPhase) && w.Queued?)
                     || (v != NotSeen && w == NotSeen && id in log[k'].outbox)))
  {
    hide Run, FreshId, TornView, Forward, AllForward, Single, DiskInv;
    RunGood(inbox, actions, workers, id);
    var s := Run(inbox, actions, workers);
    if id in s.log[i'].outbox {
      RankTorn(s.log[i], s.log[j], s.log[k], id);
      RankTorn(s.log[i'], s.log[j'], s.log[k'], id);
    } else if Single(s, id) {
      PairOnce(s, id, i, j, k, i', j', k');
    }
    if id !in s.log[k'].outbox {
      PairUnanswered(s, id, i, j, k, i', j', k');
    }
  }

  /** Around a finish, in terms of the disk before it and after it. */
  lemma TornFinish(s: State, r: Req, v: Verdict, workers: nat)
    requires Inv(s, workers) && DiskInv(s) && OneLife(s, r.id) && r in s.active
    ensures var t := Finish(s, r, v);
            ViewOf(s.disk, r.id) == Running && TornView(s.disk, t.disk, t.disk, r.id) == NotSeen
  {
    hide Finish;
    var t := Finish(s, r, v);
    StatusMembers(s.pending, s.active, r.id);
    FinishInv(s, r, v, workers);
    LeftIds(s, r, t);
    FinishLog(s, r, v);
    StatusMembers(t.pending, t.active, r.id);
  }

  lemma OneStep(inbox: map<File, Content>, actions: seq<Action>, workers: nat)
    requires actions != []
    ensures Run(inbox, actions, workers) == Next(Run(inbox, actions[..|actions| - 1], workers), actions[|actions| - 1], workers)
  {
  }

  lemma CollectsFirst(s: State, listing: seq<File>, heartbeat: bool, workers: nat)
    requires Inv(s, workers) && s.pc.Collecting? && s.pc.reqs != [] && s.pc.reqs[0].rid in s.done
    ensures var r := s.pc.reqs[0];
            var t := Finish(s, r, VerdictOf(r.lane, s.done[r.rid]));
            && r in s.active && TurnStep(s, listing, heartbeat, workers).log == t.log
            && s.log <= t.log && t.log != [] && t.log[|t.log| - 1] == t.disk
  {
    hide StatusOf;
  }

  lemma LogEndsWithDisk(s: State)
    requires DiskInv(s)
    ensures LogEnds(s)
  {
    hide StatusOf;
  }

  /** And it does happen: in every run with distinct live ids, around every finish of a request
      whose id is received once, a reading that takes the outbox before it and the other files
      after it reports a running request as not seen. */
  lemma FinishIsTorn(inbox: map<File, Content>, actions: seq<Action>, workers: nat, listing: seq<File>, heartbeat: bool)
    requires workers >= 1 && DistinctLiveIds(inbox, actions, workers)
    requires var pc := Run(inbox, actions, workers).pc;
             pc.Collecting? && pc.reqs != [] && pc.reqs[0].rid in Run(inbox, actions, workers).done
             && Single(Run(inbox, actions, workers), pc.reqs[0].id)
    ensures var s := Run(inbox, actions, workers);
            var log := Run(inbox, actions + [Turn(listing, heartbeat)], workers).log;
            var id, before, after := s.pc.reqs[0].id, |s.log| - 1, |log| - 1;
            && 0 <= before <= after && ViewOf(log[before], id) == Running
            && TornView(log[before], log[after], log[after], id) == NotSeen
  {
    hide Run, Finish, FreshId, Inv, Forward, AllForward, Single, DiskInv, ViewOf, TornView, TurnStep;
    var more := actions + [Turn(listing, heartbeat)];
    var s := Run(inbox, actions, workers);
    var r := s.pc.reqs[0];
    RunInv(inbox, actions, workers);
    RunGood(inbox, actions, workers, r.id);
    assert more[..|actions|] == actions;
    OneStep(inbox, more, workers);
    CollectsFirst(s, listing, heartbeat, workers);
    LogEndsWithDisk(s);
    TornFinish(s, r, VerdictOf(r.lane, s.done[r.rid]), workers);
  }
}

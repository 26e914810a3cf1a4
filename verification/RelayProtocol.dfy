/** The file-to-API relay as a transition system: inbox files become requests, a GET lane with
    `workers` slots and a POST lane with one run them, futures complete at any time, a stop
    request drains the queues. Every write of a file the client reads is recorded in `log`. */
module RelayProtocol {

  import opened Text

  // ----- requests

  datatype Lane = Get | Post | Rejected

  /** The stem of an inbox file `<stem>.json`. */
  type File = string

  type Id = string

  /** The fields of a request file that decide its admission; a file that holds no JSON
      object counts as a payload with nothing in it. */
  datatype Payload = Payload(id: Option<string>, verb: string, path: string)

  /** `rid` numbers the requests in the order they are received. */
  datatype Req = Req(rid: nat, file: File, id: Id, lane: Lane, allowed: bool)

  predicate IdChar(c: char) {
    'A' <= c <= 'Z' || 'a' <= c <= 'z' || '0' <= c <= '9' || c == '_' || c == '-'
  }

  function Keep(s: string): (r: string)
    ensures forall i :: 0 <= i < |r| ==> IdChar(r[i])
    ensures (forall i :: 0 <= i < |s| ==> IdChar(s[i])) ==> r == s
  {
    if s == "" then ""
    else if IdChar(s[0]) then [s[0]] + Keep(s[1..])
    else Keep(s[1..])
  }

  function Take(s: string, n: nat): string {
    if |s| <= n then s else s[..n]
  }

  /** The id of a request: what is left of the given id, else of the file name. */
  function RequestId(file: File, p: Payload): Id {
    var given := Take(Keep(if p.id.Some? then p.id.value else file), 80);
    if given != "" then given else Take(Keep(file), 80)
  }

  predicate PathChar(c: char) {
    || 'A' <= c <= 'Z' || 'a' <= c <= 'z' || '0' <= c <= '9'
    || c in "_-/.?=&%:,+"
  }

  predicate PathOk(path: string) {
    path != "" && path[0] == '/' && (forall i :: 0 <= i < |path| ==> PathChar(path[i])) && !HasDots(path)
  }

  predicate HasDots(path: string) {
    exists i :: 0 <= i < |path| - 1 && path[i] == '.' && path[i + 1] == '.'
  }

  const TOOLS := "/operator/tools/"
  const INVOCATIONS := "/operator/invocations/"
  const RECONCILE := "/reconcile"

  predicate ToolName(s: string) {
    s != "" && forall i :: 0 <= i < |s| ==> 'a' <= s[i] <= 'z' || s[i] == '_' || s[i] == '.'
  }

  predicate Uuid(s: string) {
    |s| == 36 && forall i :: 0 <= i < 36 ==>
      if i in {8, 13, 18, 23} then s[i] == '-' else '0' <= s[i] <= '9' || 'a' <= s[i] <= 'f'
  }

  predicate ToolPath(path: string) {
    || (TOOLS <= path && ToolName(path[|TOOLS|..]))
    || (INVOCATIONS <= path && |path| == |INVOCATIONS| + 36 + |RECONCILE|
        && Uuid(path[|INVOCATIONS|..|INVOCATIONS| + 36]) && path[|INVOCATIONS| + 36..] == RECONCILE)
  }

  /** `Request`: id, lane and admission of a file; the verb is given in upper case. */
  function Admit(rid: nat, file: File, p: Payload): (r: Req)
    ensures r.rid == rid && r.file == file
    ensures r.allowed ==> r.lane != Rejected
  {
    var id := RequestId(file, p);
    var lane := if p.verb == "GET" then Get else if p.verb == "POST" then Post else Rejected;
    var allowed := id != "" && PathOk(p.path) && (lane == Get || (lane == Post && ToolPath(p.path)));
    Req(rid, file, id, lane, allowed)
  }

  /** An admitted id is a plain file name of at most 80 characters, so the files named after
      it stay in their directories. */
  lemma AdmittedId(rid: nat, file: File, p: Payload)
    requires Admit(rid, file, p).allowed
    ensures var id := Admit(rid, file, p).id;
            1 <= |id| <= 80 && (forall i :: 0 <= i < |id| ==> IdChar(id[i]))
            && RequestId(id, Payload(None, p.verb, p.path)) == id
  {
    var id := RequestId(file, p);
    assert Keep(id) == id;
  }

  // ----- outcomes

  /** What a future holds when it is done. */
  datatype Output = Returned(transportError: bool, ambiguous: bool) | NotADict | Raised

  datatype Verdict = Completed | Ambiguous

  function VerdictOf(lane: Lane, o: Output): Verdict {
    match o
    case Returned(te, a) => if te || a then Ambiguous else Completed
    case NotADict => if lane == Post then Ambiguous else Completed
    case Raised => Ambiguous
  }

  // ----- what the client reads

  datatype Phase = ReceivedPhase | QueuedPhase | RunningPhase

  /** relay-status.json: ids in flight, and ids queued with their position in the lane. */
  datatype Status = Status(inFlight: seq<Id>, queue: seq<(Id, nat)>)

  datatype Disk = Disk(outbox: map<Id, Verdict>, inflight: map<Id, Phase>, status: Status)

  datatype Content = Unreadable | Readable(p: Payload)

  // ----- the relay

  datatype Pc =
    | Top
    | Receiving(files: seq<File>)
    | Collecting(reqs: seq<Req>)
    | Dispatching
    | Checking
    | Exited

  datatype State = State(
    pending: seq<Req>,
    active: seq<Req>,            // the dictionary by id, in insertion order
    seen: set<File>,
    stop: bool,
    pc: Pc,
    inbox: map<File, Content>,
    disk: Disk,
    done: map<nat, Output>,      // futures that have completed, by request
    submitted: seq<Req>,         // history: handed to the executor
    received: seq<Req>,          // history: read from the inbox
    finished: set<nat>,          // history: outbox file written
    log: seq<Disk>               // history: every disk state the client could read
  )

  function EmptyDisk(): Disk {
    Disk(map[], map[], Status([], []))
  }

  function Init(inbox: map<File, Content>): State {
    State([], [], {}, false, Top, inbox, EmptyDisk(), map[], [], [], {}, [EmptyDisk()])
  }

  function Mates(q: seq<Req>, lane: Lane): seq<Req> {
    if q == [] then []
    else
      var last := q[|q| - 1];
      Mates(q[..|q| - 1], lane) + (if last.lane == lane then [last] else [])
  }

  /** `_queue_position` of the request at index i: one more than its lane mates before it. */
  function QueuePosition(pending: seq<Req>, i: nat): nat
    requires i < |pending|
  {
    |Mates(pending[..i], pending[i].lane)| + 1
  }

  function Ids(q: seq<Req>): seq<Id> {
    seq(|q|, i requires 0 <= i < |q| => q[i].id)
  }

  /** `_status`. */
  function StatusOf(pending: seq<Req>, active: seq<Req>): Status {
    Status(Ids(active), seq(|pending|, i requires 0 <= i < |pending| => (pending[i].id, QueuePosition(pending, i))))
  }

  function Write(s: State, d: Disk): State {
    s.(disk := d, log := s.log + [d])
  }

  function Persist(s: State, r: Req, phase: Phase): State {
    Write(s, s.disk.(inflight := s.disk.inflight[r.id := phase]))
  }

  function WriteStatus(s: State): State {
    Write(s, s.disk.(status := StatusOf(s.pending, s.active)))
  }

  /** `active[id] = ...`: an entry with the same id is replaced in place. */
  function Put(active: seq<Req>, r: Req): seq<Req> {
    if active == [] then [r]
    else if active[0].id == r.id then [r] + active[1..]
    else [active[0]] + Put(active[1..], r)
  }

  /** `active.pop(id, None)`. */
  function Pop(active: seq<Req>, id: Id): seq<Req> {
    if active == [] then []
    else if active[0].id == id then active[1..]
    else [active[0]] + Pop(active[1..], id)
  }

  /** `pending.remove(request)` when it is there. */
  function Remove(q: seq<Req>, r: Req): seq<Req> {
    if q == [] then []
    else if q[0] == r then q[1..]
    else [q[0]] + Remove(q[1..], r)
  }

  /** `_finish`. */
  function Finish(s: State, r: Req, v: Verdict): State {
    var s1 := Write(s, s.disk.(outbox := s.disk.outbox[r.id := v]));
    var s2 := Write(s1, s1.disk.(inflight := s1.disk.inflight - {r.id}));
    WriteStatus(s2.(
      inbox := s2.inbox - {r.file},
      active := Pop(s2.active, r.id),
      pending := Remove(s2.pending, r),
      seen := s2.seen - {r.file},
      finished := s2.finished + {r.rid}))
  }

  /** An admitted request joins the queue. */
  function Accept(s: State, r: Req): State {
    WriteStatus(Persist(
      s.(seen := s.seen + {r.file}, received := s.received + [r], pending := s.pending + [r]), r, QueuedPhase))
  }

  /** A request that is not allowed is finished at once. */
  function Reject(s: State, r: Req): State {
    var t := s.(seen := s.seen + {r.file}, received := s.received + [r]);
    Finish(WriteStatus(Persist(t, r, ReceivedPhase)), r, Completed)
  }

  predicate Waiting(s: State, file: File) {
    file !in s.seen && file in s.inbox && s.inbox[file].Readable?
  }

  /** One file of the loop of `_receive_files`; an unreadable file is tried again later. */
  function Receive(s: State, file: File): State {
    if Waiting(s, file) then
      var r := Admit(|s.received|, file, s.inbox[file].p);
      if r.allowed then Accept(s, r) else Reject(s, r)
    else s
  }

  /** `_start`. */
  function Start(s: State, r: Req): State {
    var t := s.(pending := Remove(s.pending, r), active := Put(s.active, r));
    WriteStatus(Persist(t, r, RunningPhase)).(submitted := s.submitted + [r])
  }

  /** The GET loop of `_dispatch` over a snapshot of the queue. */
  function StartGets(s: State, snapshot: seq<Req>, running: nat, workers: nat): State
    decreases |snapshot|
  {
    if snapshot == [] then s
    else if snapshot[0].lane == Get && running < workers then
      StartGets(Start(s, snapshot[0]), snapshot[1..], running + 1, workers)
    else StartGets(s, snapshot[1..], running, workers)
  }

  /** The first POST of the queue. */
  function FirstPost(q: seq<Req>): Option<Req> {
    if q == [] then None else if q[0].lane == Post then Some(q[0]) else FirstPost(q[1..])
  }

  function StartPost(s: State): State {
    if Mates(s.active, Post) != [] then s
    else
      match FirstPost(s.pending)
      case None => s
      case Some(r) => Start(s, r)
  }

  /** `_dispatch`. */
  function Dispatch(s: State, workers: nat): State {
    StartPost(StartGets(s, s.pending, |Mates(s.active, Get)|, workers))
  }

  /** One entry of the loop of `_collect_completed`. */
  function Collect(s: State, r: Req): State {
    if r.rid in s.done then Finish(s, r, VerdictOf(r.lane, s.done[r.rid])) else s
  }

  datatype Action =
    | Deliver(file: File, content: Content)        // a client writes an inbox file
    | Complete(rid: nat, output: Output)           // a future completes
    | RequestStop
    | Turn(listing: seq<File>, heartbeat: bool)    // the relay's own next step

  predicate Listing(listing: seq<File>, inbox: map<File, Content>) {
    && (forall f :: f in listing ==> f in inbox)
    && (forall f :: f in inbox ==> f in listing)
    && (forall i, j :: 0 <= i < j < |listing| ==> listing[i] != listing[j])
  }

  /** One step of the loop of `run`. */
  function TurnStep(s: State, listing: seq<File>, heartbeat: bool, workers: nat): State {
    match s.pc
    case Top =>
      if s.stop then s.(pc := Collecting(s.active))
      else if Listing(listing, s.inbox) then s.(pc := Receiving(listing))
      else s
    case Receiving(files) =>
      if files == [] then s.(pc := Collecting(s.active))
      else Receive(s, files[0]).(pc := Receiving(files[1..]))
    case Collecting(reqs) =>
      if reqs == [] then s.(pc := Dispatching)
      else Collect(s, reqs[0]).(pc := Collecting(reqs[1..]))
    case Dispatching =>
      var t := Dispatch(s, workers);
      (if heartbeat then WriteStatus(t) else t).(pc := Checking)
    case Checking =>
      if s.stop && s.pending == [] && s.active == [] then s.(pc := Exited) else s.(pc := Top)
    case Exited => s
  }

  /** One action; an action that is not possible changes nothing. */
  function Next(s: State, a: Action, workers: nat): State {
    match a
    case Deliver(file, content) => s.(inbox := s.inbox[file := content])
    case Complete(rid, output) =>
      if (exists r :: r in s.submitted && r.rid == rid) && rid !in s.done
      then s.(done := s.done[rid := output])
      else s
    case RequestStop => s.(stop := true)
    case Turn(listing, heartbeat) => TurnStep(s, listing, heartbeat, workers)
  }

  function Run(inbox: map<File, Content>, actions: seq<Action>, workers: nat): State {
    if actions == [] then Init(inbox)
    else Next(Run(inbox, actions[..|actions| - 1], workers), actions[|actions| - 1], workers)
  }

  function Live(s: State): seq<Req> {
    s.pending + s.active
  }

  /** The action does not receive a request whose id is that of a live one. */
  predicate FreshId(s: State, a: Action) {
    a.Turn? && s.pc.Receiving? && s.pc.files != [] && Waiting(s, s.pc.files[0]) ==>
      var f := s.pc.files[0];
      forall r :: r in Live(s) ==> r.id != RequestId(f, s.inbox[f].p)
  }

  /** Runs in which the ids of the live requests are distinct. */
  predicate DistinctLiveIds(inbox: map<File, Content>, actions: seq<Action>, workers: nat) {
    forall n :: 0 <= n < |actions| ==> FreshId(Run(inbox, actions[..n], workers), actions[n])
  }
}

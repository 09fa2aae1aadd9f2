/**
 The long-task protocol of the 3D laser radar as a state machine of client, device and a link that
 loses requests and loses, repeats, delays and reorders replies.

 Every session counts from 0 again, so the same command always carries the same counter, and a report
 left by an earlier session looks like the report of the new task. A client therefore resets the
 report first. The reset does not stop a task that is still running.
 */
module LidaTaskMachine {
  import opened Wrappers
  import opened Bytes
  import opened LidaSession

  const CLEARED := Report(0, 0, 0, 0)

  datatype Request = Reset | Start(id: nat, counter: u16, command: byte) | Read

  datatype Client =
    | Closed
    | Opened
    | AwaitingReset
    | Ready
    | Polling(id: nat, counter: u16, command: byte)
    | Done(id: nat, counter: u16, command: byte, report: Report)

  datatype Task = Task(counter: u16, command: byte)

  /**
   Tasks are numbered as they are launched; the number never travels. `running` is the task the device
   executes, `report` what it answers to a query, and `finals` the final report of every task that
   ended. `replies` are the reports on their way, in no order; a delivered one may stay, so it also
   stands for equal ones. `idleAtReset` remembers whether the device ran nothing when it last took a
   reset.
   */
  datatype World = World(
    client: Client, counter: u16,
    requests: seq<Request>, replies: set<Report>,
    running: Option<nat>, report: Report, idleAtReset: bool,
    tasks: seq<Task>, finals: map<nat, Report>)

  datatype Event =
    | Open                               // a new connection: nothing of an old one arrives any more
    | Abandon                            // timeout or error
    | SendReset
    | SkipReset                          // not a step of the code; only without the handshake
    | Launch(newCommand: byte)
    | SendRead
    | Process(obeyed: bool, answered: bool)
    | LoseRequest(at: nat)
    | Progress(resultB: u32)
    | Finish(finalA: u32, finalB: u32)
    | Deliver(reply: Report, repeated: bool)
    | LoseReply(lost: Report)

  const INITIAL := World(Closed, 0, [], {}, None, CLEARED, true, [], map[])

  predicate Enabled(w: World, e: Event, handshake: bool) {
    match e
    case Open => true
    case Abandon => true
    case SendReset => w.client.Opened?
    case SkipReset => w.client.Opened? && !handshake
    case Launch(command) => w.client.Ready? && command in LONG_COMMANDS
    case SendRead => w.client.Polling?
    case Process(_, _) => w.requests != []
    case LoseRequest(at) => at < |w.requests|
    case Progress(_) => w.running.Some? && w.running.value < |w.tasks|
    case Finish(a, _) => w.running.Some? && w.running.value < |w.tasks| && a != RUNNING
    case Deliver(reply, _) => reply in w.replies && (w.client.AwaitingReset? || w.client.Polling?)
    case LoseReply(lost) => lost in w.replies
  }

  function Advance(w: World): World {
    w.(counter := (w.counter + 1) % 0x1_0000)
  }

  function Answer(w: World, answered: bool): World {
    if answered then w.(replies := w.replies + {w.report}) else w
  }

  /**
   The device takes its next request. It may refuse a reset, and then answers with the old report; a
   reset it obeys clears the report and nothing else. It may refuse a start, and a busy device does.
   */
  function Handle(w: World, obeyed: bool, answered: bool): World
    requires w.requests != []
  {
    var rest := w.(requests := w.requests[1..]);
    match w.requests[0]
    case Reset =>
      Answer(rest.(report := if obeyed then CLEARED else w.report, idleAtReset := w.running.None?), answered)
    case Start(id, counter, command) =>
      if obeyed && w.running.None? then rest.(running := Some(id), report := Report(counter, command, RUNNING, 0)) else rest
    case Read => Answer(rest, answered)
  }

  /** What the client does with a reply: resetQueryState's check, or the judgement of a poll. */
  function Take(c: Client, reply: Report): Client {
    match c
    case AwaitingReset => if reply == CLEARED then Ready else Closed
    case Polling(id, counter, command) =>
      (match Judge(reply, counter, command)
       case Complete(report) => Done(id, counter, command, report)
       case _ => c)
    case _ => c
  }

  function ReportOn(t: Task, a: u32, b: u32): Report {
    Report(t.counter, t.command, a, b)
  }

  function Next(w: World, e: Event): World
    requires Enabled(w, e, false)
  {
    match e
    case Open => w.(client := Opened, counter := 0, requests := [], replies := {})
    case Abandon => w.(client := Closed)
    case SendReset => Advance(w.(client := AwaitingReset, requests := w.requests + [Reset]))
    case SkipReset => w.(client := Ready)
    case Launch(command) =>
      Advance(w.(client := Polling(|w.tasks|, w.counter, command),
                 requests := w.requests + [Start(|w.tasks|, w.counter, command)],
                 tasks := w.tasks + [Task(w.counter, command)]))
    case SendRead => Advance(w.(requests := w.requests + [Read]))
    case Process(obeyed, answered) => Handle(w, obeyed, answered)
    case LoseRequest(at) => w.(requests := w.requests[..at] + w.requests[at + 1..])
    case Progress(b) => w.(report := ReportOn(w.tasks[w.running.value], RUNNING, b))
    case Finish(a, b) =>
      var final := ReportOn(w.tasks[w.running.value], a, b);
      w.(running := None, report := final, finals := w.finals[w.running.value := final])
    case Deliver(reply, repeated) =>
      w.(client := Take(w.client, reply), replies := if repeated then w.replies else w.replies - {reply})
    case LoseReply(lost) => w.(replies := w.replies - {lost})
  }

  /** A run: worlds and the events between them. */
  ghost predicate Run(worlds: seq<World>, events: seq<Event>, handshake: bool) {
    && |worlds| == |events| + 1
    && worlds[0] == INITIAL
    && forall i :: 0 <= i < |events| ==> Enabled(worlds[i], events[i], handshake) && worlds[i + 1] == Next(worlds[i], events[i])
  }

  // ----- the invariant

  predicate NoStart(requests: seq<Request>) {
    forall r :: r in requests ==> !r.Start?
  }

  /** The report is cleared, or about the running task, or the end of a task. */
  predicate DeviceConsistent(w: World) {
    match w.running
    case None => w.report == CLEARED || w.report in w.finals.Values
    case Some(id) =>
      && id < |w.tasks| && id !in w.finals
      && (w.report == CLEARED || w.report == ReportOn(w.tasks[id], RUNNING, w.report.resultB))
  }

  predicate RequestsConsistent(w: World) {
    && (forall i :: 0 <= i < |w.requests| && w.requests[i].Start? ==>
          var id := w.requests[i].id;
          && id < |w.tasks| && w.tasks[id] == Task(w.requests[i].counter, w.requests[i].command)
          && id !in w.finals && w.running != Some(id))
    && (forall i, j :: 0 <= i < |w.requests| && 0 <= j < |w.requests| && w.requests[i].Start? && w.requests[j].Start? ==> i == j)
  }

  /** Every session launches at most one task, always with counter 1. */
  predicate TasksConsistent(w: World) {
    && (forall t :: t in w.tasks ==> t.command in LONG_COMMANDS && t.counter == 1)
    && (forall id :: id in w.finals ==>
          id < |w.tasks| && w.finals[id].resultA != RUNNING
          && Task(w.finals[id].lastCounter, w.finals[id].lastCommand) == w.tasks[id])
  }

  /** A reply the polling client may meet: nothing yet, its task running, or its task's own end. */
  predicate Own(w: World, id: nat, counter: u16, command: byte, reply: Report) {
    || reply == CLEARED
    || (&& reply.lastCounter == counter && reply.lastCommand == command
        && (reply.resultA == RUNNING || (id in w.finals && w.finals[id] == reply)))
  }

  /** After a reset: a device that was idle shows nothing; any other runs its old task or shows its end. */
  predicate ResetHolds(w: World) {
    if w.idleAtReset then w.running.None? && w.report == CLEARED else w.running.Some? || w.report in w.finals.Values
  }

  /** What the polling client relies on if the device was idle at the reset. */
  predicate OnlyOwn(w: World, id: nat, counter: u16, command: byte) {
    && (w.running.None? || w.running == Some(id))
    && Own(w, id, counter, command, w.report)
    && (forall r :: r in w.replies ==> Own(w, id, counter, command, r))
  }

  predicate Launched(w: World, id: nat, counter: u16, command: byte) {
    command in LONG_COMMANDS && id < |w.tasks| && w.tasks[id] == Task(counter, command)
  }

  predicate ClientConsistent(w: World) {
    match w.client
    case Closed => true
    case Opened => w.counter == 0 && w.requests == [] && w.replies == {}
    case AwaitingReset =>
      && w.counter == 1
      && (|| (w.requests == [Reset] && w.replies == {})
          || (&& w.requests == []
              && (forall r, s :: r in w.replies && s in w.replies ==> r == s)
              && (CLEARED in w.replies ==> ResetHolds(w))))
    case Ready => w.counter == 1 && w.requests == [] && (forall r :: r in w.replies ==> r == CLEARED) && ResetHolds(w)
    case Polling(id, counter, command) =>
      && Launched(w, id, counter, command)
      && (forall r :: r in w.requests ==> r == Read || r == Start(id, counter, command))
      && (w.idleAtReset ==> OnlyOwn(w, id, counter, command))
    case Done(id, counter, command, report) =>
      && Launched(w, id, counter, command)
      && (forall r :: r in w.requests ==> r == Read || r == Start(id, counter, command))
      && (w.idleAtReset ==> id in w.finals && w.finals[id] == report)
      && report.resultA != RUNNING && report.lastCounter == counter && report.lastCommand == command
  }

  predicate Inv(w: World) {
    DeviceConsistent(w) && RequestsConsistent(w) && ClientConsistent(w) && TasksConsistent(w)
  }

  lemma FewerRequests(w: World, at: nat)
    requires RequestsConsistent(w) && at < |w.requests|
    ensures var rest := w.requests[..at] + w.requests[at + 1..];
            && RequestsConsistent(w.(requests := rest))
            && (forall r :: r in rest ==> r in w.requests)
            && (w.requests[at].Start? ==> NoStart(rest))
  {
    var rest := w.requests[..at] + w.requests[at + 1..];
    assert forall i :: 0 <= i < |rest| ==> rest[i] == w.requests[if i < at then i else i + 1];
  }

  lemma FirstRequest(w: World)
    requires RequestsConsistent(w) && w.requests != []
    ensures RequestsConsistent(w.(requests := w.requests[1..]))
    ensures forall r :: r in w.requests[1..] ==> r in w.requests
    ensures w.requests[0].Start? ==> NoStart(w.requests[1..])
    ensures w.requests[0] in w.requests
  {
    FewerRequests(w, 0);
    hide RequestsConsistent;
    assert w.requests[..0] + w.requests[1..] == w.requests[1..];
  }

  /** RequestsConsistent speaks of requests, running task, tasks and finals only. */
  lemma SameRequests(v: World, w: World)
    requires RequestsConsistent(v) && w.requests == v.requests && w.running == v.running && w.tasks == v.tasks && w.finals == v.finals
    ensures RequestsConsistent(w)
  {
  }

  lemma ReadKeepsInv(w: World, obeyed: bool, answered: bool)
    requires Inv(w) && w.requests != [] && w.requests[0].Read?
    ensures Inv(Handle(w, obeyed, answered))
  {
    FirstRequest(w);
    SameRequests(w.(requests := w.requests[1..]), Handle(w, obeyed, answered));
    hide RequestsConsistent, ResetHolds, Own;
  }

  /** Only an end that was not cleared away, or none, is shown with commands other than 0. */
  lemma ResetKeepsInv(w: World, obeyed: bool, answered: bool)
    requires Inv(w) && w.requests != [] && w.requests[0].Reset?
    ensures Inv(Handle(w, obeyed, answered))
  {
    FirstRequest(w);
    SameRequests(w.(requests := w.requests[1..]), Handle(w, obeyed, answered));
    hide RequestsConsistent, OnlyOwn;
  }

  lemma StartKeepsInv(w: World, obeyed: bool, answered: bool)
    requires Inv(w) && w.requests != [] && w.requests[0].Start?
    ensures Inv(Handle(w, obeyed, answered))
  {
    FirstRequest(w);
    hide ResetHolds;
  }

  lemma LoseKeepsInv(w: World, at: nat)
    requires Inv(w) && at < |w.requests|
    ensures Inv(Next(w, LoseRequest(at)))
  {
    FewerRequests(w, at);
    var rest := w.requests[..at] + w.requests[at + 1..];
    assert Next(w, LoseRequest(at)) == w.(requests := rest);
    assert |rest| == |w.requests| - 1;
    hide RequestsConsistent, ResetHolds, OnlyOwn;
  }

  lemma InvStep(w: World, e: Event)
    requires Inv(w) && Enabled(w, e, true)
    ensures Inv(Next(w, e))
  {
    hide Inv, Handle;
    match e
    case Process(obeyed, answered) =>
      if w.requests[0].Read? {
        ReadKeepsInv(w, obeyed, answered);
      } else if w.requests[0].Reset? {
        ResetKeepsInv(w, obeyed, answered);
      } else {
        StartKeepsInv(w, obeyed, answered);
      }
    case LoseRequest(at) => LoseKeepsInv(w, at);
    case Progress(b) => ProgressKeepsInv(w, b);
    case Finish(a, b) => FinishKeepsInv(w, a, b);
    case Deliver(reply, repeated) => DeliverKeepsInv(w, reply, repeated);
    case SendRead => SendReadKeepsInv(w);
    case Launch(command) => LaunchKeepsInv(w, command);
    case SendReset => SendResetKeepsInv(w);
    case Open => OpenKeepsInv(w);
    case Abandon => AbandonKeepsInv(w);
    case LoseReply(lost) => LoseReplyKeepsInv(w, lost);
    case SkipReset =>
  }

  lemma ProgressKeepsInv(w: World, b: u32)
    requires Inv(w) && Enabled(w, Progress(b), true)
    ensures Inv(Next(w, Progress(b)))
  {
    SameRequests(w, Next(w, Progress(b)));
    hide RequestsConsistent;
  }

  lemma FinishKeepsInv(w: World, a: u32, b: u32)
    requires Inv(w) && Enabled(w, Finish(a, b), true)
    ensures Inv(Next(w, Finish(a, b)))
  {
    var next, id := Next(w, Finish(a, b)), w.running.value;
    assert next.finals[id] == next.report;
    assert forall i :: i in w.finals ==> next.finals[i] == w.finals[i];
    FinishedIsNotPending(w, next);
    hide RequestsConsistent, ResetHolds;
  }

  lemma FinishedIsNotPending(w: World, next: World)
    requires RequestsConsistent(w) && w.running.Some? && next.running.None?
    requires next.requests == w.requests && next.tasks == w.tasks && next.finals.Keys == w.finals.Keys + {w.running.value}
    ensures RequestsConsistent(next)
  {
  }

  lemma CompleteMeans(report: Report, counter: u16, command: byte)
    ensures Judge(report, counter, command).Complete? ==>
      && Judge(report, counter, command).report == report
      && report.lastCounter == counter && report.lastCommand == command && report.resultA != RUNNING
  {
  }

  lemma DeliverKeepsInv(w: World, reply: Report, repeated: bool)
    requires Inv(w) && Enabled(w, Deliver(reply, repeated), true)
    ensures Inv(Next(w, Deliver(reply, repeated)))
  {
    var next := Next(w, Deliver(reply, repeated));
    SameRequests(w, next);
    if w.client.Polling? {
      DeliverToPolling(w, reply, repeated);
    } else {
      hide RequestsConsistent, OnlyOwn;
    }
  }

  lemma DeliverToPolling(w: World, reply: Report, repeated: bool)
    requires Inv(w) && Enabled(w, Deliver(reply, repeated), true) && w.client.Polling?
    ensures ClientConsistent(Next(w, Deliver(reply, repeated)))
  {
    CompleteMeans(reply, w.client.counter, w.client.command);
    hide Judge, RequestsConsistent, DeviceConsistent, TasksConsistent, ResetHolds;
  }

  lemma SendResetKeepsInv(w: World)
    requires Inv(w) && w.client.Opened?
    ensures Inv(Next(w, SendReset))
  {
  }

  lemma OpenKeepsInv(w: World)
    requires Inv(w)
    ensures Inv(Next(w, Open))
  {
  }

  lemma AbandonKeepsInv(w: World)
    requires Inv(w)
    ensures Inv(Next(w, Abandon))
  {
    SameRequests(w, Next(w, Abandon));
    hide RequestsConsistent;
  }

  lemma LoseReplyKeepsInv(w: World, lost: Report)
    requires Inv(w)
    ensures Inv(w.(replies := w.replies - {lost}))
  {
    SameRequests(w, w.(replies := w.replies - {lost}));
    hide RequestsConsistent;
  }

  lemma SendReadKeepsInv(w: World)
    requires Inv(w) && w.client.Polling?
    ensures Inv(Next(w, SendRead))
  {
    ReadIsNoStart(w, Next(w, SendRead));
    hide RequestsConsistent, ResetHolds, OnlyOwn, TasksConsistent, DeviceConsistent;
    SendReadSame(w);
  }

  lemma SendReadSame(w: World)
    requires w.client.Polling?
    ensures var next := Next(w, SendRead);
            && (DeviceConsistent(w) ==> DeviceConsistent(next)) && (TasksConsistent(w) ==> TasksConsistent(next))
            && (OnlyOwn(w, w.client.id, w.client.counter, w.client.command) ==>
                  OnlyOwn(next, w.client.id, w.client.counter, w.client.command))
  {
  }

  lemma ReadIsNoStart(w: World, next: World)
    requires RequestsConsistent(w) && next.requests == w.requests + [Read]
    requires next.running == w.running && next.tasks == w.tasks && next.finals == w.finals
    ensures RequestsConsistent(next)
  {
  }

  lemma LaunchKeepsInv(w: World, command: byte)
    requires Inv(w) && Enabled(w, Launch(command), true)
    ensures Inv(Next(w, Launch(command)))
  {
    var next := Next(w, Launch(command));
    assert next.requests == [Start(|w.tasks|, w.counter, command)];
    OneStart(next);
    hide RequestsConsistent;
    assert forall id: nat :: id < |w.tasks| ==> next.tasks[id] == w.tasks[id];
  }

  lemma OneStart(w: World)
    requires |w.tasks| > 0 && w.requests == [Start(|w.tasks| - 1, w.tasks[|w.tasks| - 1].counter, w.tasks[|w.tasks| - 1].command)]
    requires |w.tasks| - 1 !in w.finals && w.running != Some(|w.tasks| - 1)
    ensures RequestsConsistent(w)
  {
  }

  // ----- every run

  lemma {:induction false} InvRun(worlds: seq<World>, events: seq<Event>, k: nat)
    requires Run(worlds, events, true) && k < |worlds|
    ensures Inv(worlds[k])
  {
    if k > 0 {
      hide Next, Enabled, DeviceConsistent, RequestsConsistent, ClientConsistent, TasksConsistent;
      InvRun(worlds, events, k - 1);
      InvStep(worlds[k - 1], events[k - 1]);
    } else {
      hide Run;
    }
  }

  predicate WorksOn(c: Client, id: nat) {
    (c.Polling? || c.Done?) && c.id == id
  }

  /** A client comes to work on a task by launching it, and in no other way. */
  lemma WorkStep(w: World, e: Event, id: nat)
    requires Enabled(w, e, true) && WorksOn(Next(w, e).client, id)
    ensures var c := Next(w, e).client;
            || (e == Launch(c.command) && |w.tasks| == id && w.counter == c.counter)
            || (WorksOn(w.client, id) && w.client.command == c.command && w.client.counter == c.counter)
  {
  }

  /** Where the task the client works on was launched; the client has worked on it ever since. */
  lemma {:induction false} LaunchedAt(worlds: seq<World>, events: seq<Event>, k: nat, id: nat) returns (j: nat)
    requires Run(worlds, events, true) && k < |worlds| && WorksOn(worlds[k].client, id)
    ensures j < k && events[j] == Launch(worlds[k].client.command)
    ensures |worlds[j].tasks| == id && worlds[j].counter == worlds[k].client.counter
    ensures forall m :: j < m <= k ==> WorksOn(worlds[m].client, id)
  {
    hide Next, Enabled;
    assert !WorksOn(INITIAL.client, id);
    WorkStep(worlds[k - 1], events[k - 1], id);
    if WorksOn(worlds[k - 1].client, id) && worlds[k - 1].client.command == worlds[k].client.command
       && worlds[k - 1].client.counter == worlds[k].client.counter {
      j := LaunchedAt(worlds, events, k - 1, id);
    } else {
      j := k - 1;
    }
  }

  lemma FinalsStep(w: World, e: Event, id: nat)
    requires Inv(w) && Enabled(w, e, true) && id in Next(w, e).finals
    ensures var final := Next(w, e).finals[id];
            || (id in w.finals && w.finals[id] == final)
            || (e == Finish(final.resultA, final.resultB) && w.running == Some(id))
  {
  }

  /** Where a final report was set; it never changes afterwards. */
  lemma {:induction false} FinishedAt(worlds: seq<World>, events: seq<Event>, k: nat, id: nat) returns (f: nat)
    requires Run(worlds, events, true) && k < |worlds| && id in worlds[k].finals
    ensures f < k && worlds[f].running == Some(id)
    ensures events[f] == Finish(worlds[k].finals[id].resultA, worlds[k].finals[id].resultB)
  {
    hide Next, Enabled, Inv;
    var before := worlds[k - 1];
    InvRun(worlds, events, k - 1);
    FinalsStep(before, events[k - 1], id);
    if id in before.finals && before.finals[id] == worlds[k].finals[id] {
      f := FinishedAt(worlds, events, k - 1, id);
    } else {
      f := k - 1;
    }
  }

  lemma {:induction false} TasksGrow(worlds: seq<World>, events: seq<Event>, j: nat, k: nat)
    requires Run(worlds, events, true) && j <= k < |worlds|
    ensures |worlds[j].tasks| <= |worlds[k].tasks|
    decreases k - j
  {
    if j < k {
      TasksGrow(worlds, events, j + 1, k);
    }
  }

  // ----- the reset of a session

  predicate InSession(c: Client) {
    c.Ready? || c.Polling? || c.Done?
  }

  /** The device has answered the session's reset. */
  predicate Answered(w: World) {
    InSession(w.client) || (w.client.AwaitingReset? && w.requests == [] && w.replies != {})
  }

  lemma AnsweredStep(w: World, e: Event)
    requires Inv(w) && Enabled(w, e, true) && Answered(Next(w, e))
    ensures || (Answered(w) && Next(w, e).idleAtReset == w.idleAtReset)
            || (w.client.AwaitingReset? && w.requests == [Reset] && e.Process? && Next(w, e).idleAtReset == w.running.None?)
  {
    hide DeviceConsistent, RequestsConsistent, TasksConsistent, ResetHolds, OnlyOwn, Judge;
    if e.Process? {
      assert w.requests[0] in w.requests;
    }
  }

  /** Where the device took the reset of the session, which is open ever since. */
  lemma {:induction false} ResetAt(worlds: seq<World>, events: seq<Event>, k: nat) returns (r: nat)
    requires Run(worlds, events, true) && k < |worlds| && Answered(worlds[k])
    ensures r < k && events[r].Process? && worlds[r].client.AwaitingReset? && worlds[r].requests == [Reset]
    ensures worlds[k].idleAtReset == worlds[r].running.None?
    ensures forall m :: r < m <= k ==> Answered(worlds[m])
  {
    hide Next, Enabled, Inv;
    InvRun(worlds, events, 0);
    assert !Answered(INITIAL);
    InvRun(worlds, events, k - 1);
    AnsweredStep(worlds[k - 1], events[k - 1]);
    if Answered(worlds[k - 1]) && worlds[k].idleAtReset == worlds[k - 1].idleAtReset {
      r := ResetAt(worlds, events, k - 1);
    } else {
      r := k - 1;
    }
  }

  // ----- freshness

  /** A result the client has accepted is the end of the task it launched. */
  predicate Fresh(w: World) {
    w.client.Done? ==> w.client.id in w.finals && w.finals[w.client.id] == w.client.report
  }

  /**
   In every run: if no task was running when the device took the session's reset (r), a result the
   client accepts is the end of the very task it launched. The launch (j) belongs to the session that
   is still open, and the device set this report (f) after it. No report of an earlier session is taken
   for it, although it carries the same counter and command, and whatever the link does.
   */
  lemma ResultIsFresh(worlds: seq<World>, events: seq<Event>, k: nat) returns (r: nat, j: nat, f: nat)
    requires Run(worlds, events, true) && k < |worlds| && worlds[k].client.Done?
    ensures var c := worlds[k].client;
            && r < k && events[r].Process? && worlds[r].client.AwaitingReset? && worlds[r].requests == [Reset]
            && (forall m :: r < m <= k ==> Answered(worlds[m]))
            && j < k && events[j] == Launch(c.command) && worlds[j].counter == c.counter && |worlds[j].tasks| == c.id
            && (forall m :: j < m <= k ==> WorksOn(worlds[m].client, c.id))
            && c.report.lastCounter == c.counter && c.report.lastCommand == c.command && c.report.resultA != RUNNING
            && (worlds[r].running.None? ==>
                  && Fresh(worlds[k])
                  && j < f < k && events[f] == Finish(c.report.resultA, c.report.resultB) && worlds[f].running == Some(c.id))
  {
    hide Next, Enabled, DeviceConsistent, RequestsConsistent, TasksConsistent;
    var c := worlds[k].client;
    InvRun(worlds, events, k);
    r := ResetAt(worlds, events, k);
    j := LaunchedAt(worlds, events, k, c.id);
    f := k;
    if worlds[r].running.None? {
      f := FinishedAt(worlds, events, k, c.id);
      InvRun(worlds, events, f);
      RunningIsKnown(worlds[f]);
      if f <= j {
        TasksGrow(worlds, events, f, j);
      }
    }
  }

  lemma RunningIsKnown(w: World)
    requires Inv(w) && w.running.Some?
    ensures w.running.value < |w.tasks|
  {
  }

  // ----- the exact condition

  predicate NoOpen(events: seq<Event>) {
    forall e :: e in events ==> !e.Open?
  }

  lemma WithoutHandshake(w: World, e: Event, handshake: bool)
    requires Enabled(w, e, handshake)
    ensures Enabled(w, e, false)
  {
  }

  lemma Extend(worlds: seq<World>, events: seq<Event>, e: Event, handshake: bool) returns (ws: seq<World>, es: seq<Event>)
    requires Run(worlds, events, handshake) && Enabled(worlds[|events|], e, handshake)
    ensures Run(ws, es, handshake) && |ws| == |es| + 1 == |events| + 2 && ws[|es|] == Next(worlds[|events|], e)
    ensures ws == worlds + [ws[|es|]] && es == events + [e]
  {
    WithoutHandshake(worlds[|events|], e, handshake);
    hide Next, Enabled;
    ws, es := worlds + [Next(worlds[|events|], e)], events + [e];
  }

  /** The longer run goes on from the shorter one without a new session. */
  ghost predicate Continues(worlds: seq<World>, events: seq<Event>, ws: seq<World>, es: seq<Event>) {
    worlds <= ws && events <= es && NoOpen(es[|events|..])
  }

  lemma ContinuesOne(worlds: seq<World>, events: seq<Event>, vs: seq<World>, ds: seq<Event>, w: World, e: Event)
    requires Continues(worlds, events, vs, ds) && !e.Open?
    ensures Continues(worlds, events, vs + [w], ds + [e])
  {
    assert (ds + [e])[|events|..] == ds[|events|..] + [e];
  }

  /** A run goes on by one event within the session. */
  lemma GoOn(worlds: seq<World>, events: seq<Event>, vs: seq<World>, ds: seq<Event>, e: Event) returns (ws: seq<World>, es: seq<Event>)
    requires Continues(worlds, events, vs, ds) && Run(vs, ds, true) && Enabled(vs[|ds|], e, true) && !e.Open?
    ensures Run(ws, es, true) && Continues(worlds, events, ws, es) && ws[|es|] == Next(vs[|ds|], e)
  {
    hide Run, Continues;
    ws, es := Extend(vs, ds, e, true);
    ContinuesOne(worlds, events, vs, ds, ws[|es|], e);
  }

  /** A client whose device shows the awaited counter and command takes the report for its own. */
  lemma TakesReport(worlds: seq<World>, events: seq<Event>, vs: seq<World>, ds: seq<Event>, id: nat, d: Report)
    returns (ws: seq<World>, es: seq<Event>)
    requires Run(vs, ds, true) && Continues(worlds, events, vs, ds)
    requires vs[|ds|].client == Polling(id, d.lastCounter, d.lastCommand)
    requires vs[|ds|].requests == [] && vs[|ds|].report == d && d.resultA != RUNNING
    ensures Run(ws, es, true) && Continues(worlds, events, ws, es)
    ensures ws[|es|].client == Done(id, d.lastCounter, d.lastCommand, d) && ws[|es|].finals == vs[|ds|].finals
  {
    hide Run, Continues;
    ws, es := GoOn(worlds, events, vs, ds, SendRead);
    ws, es := GoOn(worlds, events, ws, es, Process(true, true));
    ws, es := GoOn(worlds, events, ws, es, Deliver(d, false));
  }

  /** The device still runs a task or shows the end of one: as a report that command c could have left. */
  lemma Leftover(w: World) returns (d: Report)
    requires Inv(w) && w.client.Ready? && !w.idleAtReset
    ensures d.lastCounter == 1 && d.lastCommand in LONG_COMMANDS && d.resultA != RUNNING
    ensures match w.running
            case Some(id) => id < |w.tasks| && d == ReportOn(w.tasks[id], 4000, 7)
            case None => d == w.report
    ensures forall id :: id in w.finals ==> id < |w.tasks|
    ensures w.requests == [] && w.counter == 1
  {
    match w.running {
      case Some(id) =>
        assert w.tasks[id] in w.tasks;
        d := ReportOn(w.tasks[id], 4000, 7);
      case None =>
        var past :| past in w.finals && w.finals[past] == w.report;
        assert w.tasks[past] in w.tasks;
        d := w.report;
    }
  }

  /** The world after a launch whose start is lost at once. */
  lemma LostLaunch(w: World, c: byte) returns (v: World)
    requires w.client.Ready? && w.requests == [] && w.counter == 1 && c in LONG_COMMANDS
    ensures var launched := Next(w, Launch(c));
            Enabled(launched, LoseRequest(0), false) && launched.requests != [] && v == Next(launched, LoseRequest(0))
    ensures v == w.(client := Polling(|w.tasks|, 1, c), counter := 2, tasks := w.tasks + [Task(1, c)])
  {
    v := Next(Next(w, Launch(c)), LoseRequest(0));
  }

  lemma FinishesLate(w: World)
    requires w.running.Some? && w.running.value < |w.tasks|
    ensures var v, d := Next(w, Finish(4000, 7)), ReportOn(w.tasks[w.running.value], 4000, 7);
            v == w.(running := None, report := d, finals := w.finals[w.running.value := d])
  {
  }

  /** A client ready for its task loses its start, and the device then shows the end of an older task. */
  lemma StaleStart(worlds: seq<World>, events: seq<Event>) returns (ws: seq<World>, es: seq<Event>, d: Report)
    requires Run(worlds, events, true) && worlds[|events|].client.Ready? && !worlds[|events|].idleAtReset
    ensures Run(ws, es, true) && Continues(worlds, events, ws, es)
    ensures var id := |worlds[|events|].tasks|;
            && ws[|es|].client == Polling(id, d.lastCounter, d.lastCommand) && id !in ws[|es|].finals
            && ws[|es|].requests == [] && ws[|es|].report == d && d.resultA != RUNNING
  {
    var w := worlds[|events|];
    InvRun(worlds, events, |events|);
    d := Leftover(w);
    assert Continues(worlds, events, worlds, events);
    hide Run, Inv, Next, Continues;
    ws, es := GoOn(worlds, events, worlds, events, Launch(d.lastCommand));
    var lost := LostLaunch(w, d.lastCommand);
    ws, es := GoOn(worlds, events, ws, es, LoseRequest(0));
    if w.running.Some? {
      FinishesLate(lost);
      ws, es := GoOn(worlds, events, ws, es, Finish(4000, 7));
    }
  }

  /** A client ready for its task after a reset that met a busy device can be given the end of the old task. */
  lemma StaleContinuation(worlds: seq<World>, events: seq<Event>) returns (ws: seq<World>, es: seq<Event>)
    requires Run(worlds, events, true) && worlds[|events|].client.Ready? && !worlds[|events|].idleAtReset
    ensures Run(ws, es, true) && Continues(worlds, events, ws, es) && !Fresh(ws[|es|])
  {
    var id := |worlds[|events|].tasks|;
    hide Run, Continues;
    var vs, ds, d := StaleStart(worlds, events);
    ws, es := TakesReport(worlds, events, vs, ds, id, d);
  }

  /**
   The exact condition. Take any run that ends with a client whose reset was just confirmed, and let r
   be where the device took that reset. Every result the session can accept from here on is fresh, in
   every continuation, exactly if no task was running at r.
   */
  lemma FreshIffIdleAtReset(worlds: seq<World>, events: seq<Event>) returns (r: nat)
    requires Run(worlds, events, true) && worlds[|events|].client.Ready?
    ensures r < |events| && events[r].Process? && worlds[r].client.AwaitingReset? && worlds[r].requests == [Reset]
    ensures forall m :: r < m <= |events| ==> Answered(worlds[m])
    ensures worlds[r].running.None? <==>
      forall ws, es :: Run(ws, es, true) && Continues(worlds, events, ws, es) ==> Fresh(ws[|es|])
  {
    r := ResetAt(worlds, events, |events|);
    if worlds[r].running.None? {
      forall ws, es | Run(ws, es, true) && Continues(worlds, events, ws, es)
        ensures Fresh(ws[|es|])
      {
        StaysFresh(ws, es, |events|, |es|);
      }
    } else {
      var ws, es := StaleContinuation(worlds, events);
      assert !Fresh(ws[|es|]);
    }
  }

  lemma SessionStep(w: World, e: Event)
    requires Inv(w) && Enabled(w, e, true) && !e.Open? && InSession(w.client)
    ensures InSession(Next(w, e).client) ==> Next(w, e).idleAtReset == w.idleAtReset
    ensures InSession(Next(w, e).client) || Next(w, e).client.Closed?
  {
    hide DeviceConsistent, RequestsConsistent, TasksConsistent, ResetHolds, OnlyOwn, Judge;
    if e.Process? {
      assert w.requests[0] in w.requests;
    }
  }

  lemma ClosedStep(w: World, e: Event)
    requires Enabled(w, e, true) && !e.Open? && w.client.Closed?
    ensures Next(w, e).client.Closed?
  {
  }

  /** Within one session the mark set by its reset stays. */
  lemma {:induction false} MarkStays(ws: seq<World>, es: seq<Event>, k: nat, m: nat)
    requires Run(ws, es, true) && k <= m < |ws| && NoOpen(es[k..]) && InSession(ws[k].client)
    ensures InSession(ws[m].client) || ws[m].client.Closed?
    ensures InSession(ws[m].client) ==> ws[m].idleAtReset == ws[k].idleAtReset
  {
    hide Next, Enabled, Inv;
    if k < m {
      MarkStays(ws, es, k, m - 1);
      InvRun(ws, es, m - 1);
      assert es[k..][m - 1 - k] in es[k..];
      if InSession(ws[m - 1].client) {
        SessionStep(ws[m - 1], es[m - 1]);
      } else {
        ClosedStep(ws[m - 1], es[m - 1]);
      }
    }
  }

  lemma StaysFresh(ws: seq<World>, es: seq<Event>, k: nat, m: nat)
    requires Run(ws, es, true) && k <= m < |ws| && NoOpen(es[k..]) && InSession(ws[k].client) && ws[k].idleAtReset
    ensures Fresh(ws[m])
  {
    hide Run, DeviceConsistent, RequestsConsistent, TasksConsistent;
    MarkStays(ws, es, k, m);
    InvRun(ws, es, m);
  }

  // ----- a client that waits its tasks out

  /** No session is given up, or replaced by a new one, while it polls for its task. */
  ghost predicate WaitsOut(worlds: seq<World>, events: seq<Event>) {
    forall i :: 0 <= i < |events| < |worlds| && (events[i].Open? || events[i].Abandon?) ==> !worlds[i].client.Polling?
  }

  /** Then no task outlives its session: nothing runs and no start is pending unless the client polls. */
  predicate Settled(w: World) {
    && (!w.client.Polling? ==> w.running.None? && NoStart(w.requests))
    && (Answered(w) ==> w.idleAtReset)
  }

  lemma SettledStep(w: World, e: Event)
    requires Inv(w) && Settled(w) && Enabled(w, e, true)
    requires (e.Open? || e.Abandon?) ==> !w.client.Polling?
    ensures Settled(Next(w, e))
  {
    hide TasksConsistent, ResetHolds;
    match e
    case Process(_, _) => FirstRequest(w);
    case LoseRequest(at) => FewerRequests(w, at);
    case Deliver(reply, repeated) => SettledDeliver(w, reply, repeated);
    case _ =>
  }

  lemma SettledDeliver(w: World, reply: Report, repeated: bool)
    requires Inv(w) && Settled(w) && Enabled(w, Deliver(reply, repeated), true)
    ensures Settled(Next(w, Deliver(reply, repeated)))
  {
    if w.client.Polling? {
      CompleteMeans(reply, w.client.counter, w.client.command);
      assert Own(w, w.client.id, w.client.counter, w.client.command, reply);
    }
    hide TasksConsistent, ResetHolds, Judge;
  }

  lemma {:induction false} SettledRun(worlds: seq<World>, events: seq<Event>, k: nat)
    requires Run(worlds, events, true) && WaitsOut(worlds, events) && k < |worlds|
    ensures Settled(worlds[k])
  {
    if k > 0 {
      hide Next, Enabled, Inv, Settled;
      SettledRun(worlds, events, k - 1);
      InvRun(worlds, events, k - 1);
      SettledStep(worlds[k - 1], events[k - 1]);
    }
  }

  /** What a client can see to itself: if no session is given up while it polls, every result is fresh. */
  lemma WaitingOutIsFresh(worlds: seq<World>, events: seq<Event>, k: nat)
    requires Run(worlds, events, true) && WaitsOut(worlds, events) && k < |worlds|
    ensures Fresh(worlds[k])
  {
    hide Run, DeviceConsistent, RequestsConsistent, TasksConsistent;
    SettledRun(worlds, events, k);
    InvRun(worlds, events, k);
  }

  // ----- concrete runs

  lemma InitialRun(handshake: bool)
    ensures Run([INITIAL], [], handshake)
  {
  }

  /** A client that opens, resets an idle or busy device and is told that the report is cleared. */
  lemma Handshake(worlds: seq<World>, events: seq<Event>) returns (ws: seq<World>, es: seq<Event>)
    requires Run(worlds, events, true)
    ensures Run(ws, es, true)
    ensures var w := worlds[|events|];
            ws[|es|] == World(Ready, 1, [], {}, w.running, CLEARED, w.running.None?, w.tasks, w.finals)
  {
    hide Run;
    ws, es := Extend(worlds, events, Open, true);
    ws, es := Extend(ws, es, SendReset, true);
    ws, es := Extend(ws, es, Process(true, true), true);
    ws, es := Extend(ws, es, Deliver(CLEARED, false), true);
  }

  const OLD := Report(1, 4, 4000, 7)

  /** With the handshake a result is reached, and it is fresh. */
  lemma FreshResultExists() returns (ws: seq<World>, es: seq<Event>)
    ensures Run(ws, es, true) && ws[|es|].client == Done(0, 1, 4, OLD) && Fresh(ws[|es|])
  {
    InitialRun(true);
    hide Run;
    ws, es := Handshake([INITIAL], []);
    ws, es := Extend(ws, es, Launch(4), true);
    ws, es := Extend(ws, es, Process(true, true), true);
    ws, es := Extend(ws, es, Finish(4000, 7), true);
    assert Continues(ws, es, ws, es);
    ws, es := TakesReport(ws, es, ws, es, 0, OLD);
  }

  /**
   The handshake alone is not enough, even over a link that loses nothing. The first session gives up
   while its task runs; the second resets the report, and its start is discarded because the device is
   busy. The first task then ends with the counter and command the second session waits for.
   */
  lemma StaleAfterBusyReset() returns (ws: seq<World>, es: seq<Event>)
    ensures Run(ws, es, true) && !Fresh(ws[|es|])
    ensures ws[|es|].client == Done(1, 1, 4, OLD) && ws[|es|].finals == map[0 := OLD]
  {
    InitialRun(true);
    hide Run;
    ws, es := Handshake([INITIAL], []);
    ws, es := Extend(ws, es, Launch(4), true);
    ws, es := Extend(ws, es, Process(true, true), true);
    ws, es := Extend(ws, es, Abandon, true);
    assert ws[|es|].running == Some(0) && ws[|es|].tasks == [Task(1, 4)] && ws[|es|].finals == map[];
    ws, es := Handshake(ws, es);
    ws, es := Extend(ws, es, Launch(4), true);
    ws, es := Extend(ws, es, Process(true, true), true);
    ws, es := Extend(ws, es, Finish(4000, 7), true);
    assert ws[|es|].client == Polling(1, 1, 4) && ws[|es|].requests == [] && ws[|es|].report == OLD;
    assert Continues(ws, es, ws, es);
    ws, es := TakesReport(ws, es, ws, es, 1, OLD);
  }

  const STALE := Report(0, 4, 4000, 7)

  /** A session without reset that runs command 4 to its end. */
  lemma EarlierSession() returns (ws: seq<World>, es: seq<Event>)
    ensures Run(ws, es, false)
    ensures ws[|es|] == World(Polling(0, 0, 4), 1, [], {}, None, STALE, true, [Task(0, 4)], map[0 := STALE])
  {
    InitialRun(false);
    hide Run;
    ws, es := [INITIAL], [];
    ws, es := Extend(ws, es, Open, false);
    ws, es := Extend(ws, es, SkipReset, false);
    ws, es := Extend(ws, es, Launch(4), false);
    assert ws[|es|] == World(Polling(0, 0, 4), 1, [Start(0, 0, 4)], {}, None, CLEARED, true, [Task(0, 4)], map[]);
    ws, es := Extend(ws, es, Process(true, false), false);
    ws, es := Extend(ws, es, Finish(4000, 7), false);
  }

  /**
   Without the reset there is a run in which the client accepts the result of an earlier session that
   has long ended: the second start is lost, and the report of the first task is still shown.
   */
  lemma StaleWithoutReset() returns (ws: seq<World>, es: seq<Event>)
    ensures Run(ws, es, false) && ws[|es|].client.Done? && !Fresh(ws[|es|])
  {
    ws, es := EarlierSession();
    hide Run;
    ws, es := Extend(ws, es, Open, false);
    ws, es := Extend(ws, es, SkipReset, false);
    ws, es := Extend(ws, es, Launch(4), false);
    ws, es := Extend(ws, es, LoseRequest(0), false);
    assert ws[|es|] == World(Polling(1, 0, 4), 1, [], {}, None, STALE, true, [Task(0, 4), Task(0, 4)], map[0 := STALE]);
    ws, es := Extend(ws, es, SendRead, false);
    ws, es := Extend(ws, es, Process(true, true), false);
    ws, es := Extend(ws, es, Deliver(STALE, false), false);
  }
}

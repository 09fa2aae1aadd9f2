/**
 Long tasks of the 3D laser radar: reset the query state, start the task, poll until it is final. The
 handler's sequence over the session, and what its success means in the runs of client and device.
 */
module LidaTaskProtocol {
  import opened Wrappers
  import opened Bytes
  import opened ReceiveLoop
  import opened LidaCodec
  import opened LidaSession
  import opened LidaTaskMachine
  import Crc32

  // ----- the handler's sequence

  /** Whether the reset was answered with a cleared state. */
  function ResetOutcome(x: Exchange): Outcome<Report> {
    match QueryOutcome(x)
    case Error(kind) => Error(kind)
    case Success(report) => if report == CLEARED then Success(report) else Error(Protocol)
  }

  ghost predicate LongTaskEnds(script: seq<Exchange>, counter: u16, command: byte, r: Outcome<Report>, polls: nat)
  {
    hide QueryOutcome, LaunchOutcome;
    var taskCounter := (counter + 1) % 0x1_0000;
    var reset, launch := ResetOutcome(At(script, 0)), LaunchOutcome(At(script, 1), taskCounter);
    if reset.Error? then r == Error(reset.kind)
    else if launch.Error? then r == Error(launch.kind)
    else polls <= |From(script, 2)| && WaitEnds(From(script, 2), polls, taskCounter, command, r)
  }

  /** The frames written: nothing after a reset that failed, no poll after a start that failed. */
  function LongTaskFrames(script: seq<Exchange>, counter: u16, command: byte, payload: seq<byte>, polls: nat): seq<seq<byte>> {
    hide QueryOutcome, LaunchOutcome, LidaCodec.EncodeFrame, Bytes.U32Bytes;
    var taskCounter := (counter + 1) % 0x1_0000;
    [EncodeFrame(counter, DEVICE_ADDR, QUERY, U32Bytes(OP_RESET))]
    + if ResetOutcome(At(script, 0)).Error? then []
      else [EncodeFrame(taskCounter, DEVICE_ADDR, command, payload)]
           + if LaunchOutcome(At(script, 1), taskCounter).Error? then []
             else PollFrames((counter + 2) % 0x1_0000, polls)
  }

  // ----- the same in terms of the wire

  /** The exchange brings the cleared report that confirms a reset. */
  ghost predicate ConfirmsReset(x: Exchange) {
    Carries(x, QUERY, QueryPayload(Report(0, 0, 0, 0)))
  }

  /**
   The reset is confirmed, the start is met with silence, the polls before poll k leave the question open
   and poll k brings this end of the task.
   */
  ghost predicate TaskAnswered(script: seq<Exchange>, counter: u16, command: byte, k: nat, report: Report) {
    && ConfirmsReset(At(script, 0)) && Silent(At(script, 1))
    && TaskEndsAt(From(script, 2), k, (counter + 1) % 0x1_0000, command, report)
  }

  lemma ResetOnWireIff(x: Exchange)
    ensures ResetOutcome(x).Success? <==> ConfirmsReset(x)
    ensures ResetOutcome(x).Error? ==> ResetOutcome(x) == Error(if Lost(x) then Transport else Protocol)
    ensures Lost(x) ==> ResetOutcome(x).Error?
  {
    hide QueryOutcome, Carries, QueryPayload, Lost;
    QueryOnWireIff(x, CLEARED);
    match QueryOutcome(x)
    case Success(report) =>
    case Error(kind) =>
      match kind
      case Transport =>
      case Protocol =>
  }

  /** The long task succeeds exactly if it is answered in this way, and with the report brought. */
  lemma TaskOnWireIff(script: seq<Exchange>, counter: u16, command: byte, r: Outcome<Report>, polls: nat)
    requires LongTaskEnds(script, counter, command, r, polls)
    ensures forall k: nat, report ::
      r == Success(report) && polls == k + 1 <==> TaskAnswered(script, counter, command, k, report)
    ensures r.Success? ==> polls > 0
    ensures !ConfirmsReset(At(script, 0)) ==> r == Error(if Lost(At(script, 0)) then Transport else Protocol)
    ensures ConfirmsReset(At(script, 0)) && At(script, 1).written && At(script, 1).chunks != [] ==> r == Error(Protocol)
    ensures ConfirmsReset(At(script, 0)) && Silent(At(script, 1)) && r.Error? ==> r.kind == Protocol
  {
    hide ResetOutcome, LaunchOutcome, ConfirmsReset, Silent, Lost, WaitEnds, TaskEndsAt;
    ResetOnWireIff(At(script, 0));
    LaunchIs(At(script, 1), (counter + 1) % 0x1_0000);
    ChunksAreSome(At(script, 1));
    var rest := From(script, 2);
    if ResetOutcome(At(script, 0)).Success? && LaunchOutcome(At(script, 1), (counter + 1) % 0x1_0000).Success? {
      WaitOnWire(rest, polls, (counter + 1) % 0x1_0000, command, r);
      WaitTakesPolls(rest, polls, (counter + 1) % 0x1_0000, command, r);
    }
  }

  lemma ChunksAreSome(x: Exchange)
    ensures x.chunks != [] <==> exists chunk :: chunk in x.chunks
  {
    if x.chunks != [] {
      assert x.chunks[0] in x.chunks;
    }
  }

  lemma WaitTakesPolls(script: seq<Exchange>, polls: nat, counter: u16, command: byte, r: Outcome<Report>)
    requires polls <= |script| && WaitEnds(script, polls, counter, command, r)
    ensures r.Success? ==> polls > 0
  {
    hide PollOf, AgainUntil;
  }

  /**
   The frames written: the reset; the start only if the reset was confirmed; and the polls, each a read
   of the query state, only if the start was met with silence.
   */
  lemma FramesOnWire(script: seq<Exchange>, counter: u16, command: byte, payload: seq<byte>, polls: nat)
    ensures var c := (counter + 1) % 0x1_0000;
            LongTaskFrames(script, counter, command, payload, polls) ==
              [EncodeFrame(counter, DEVICE_ADDR, QUERY, [0, 0, 0, 200])]
              + (if ConfirmsReset(At(script, 0)) then [EncodeFrame(c, DEVICE_ADDR, command, payload)] else [])
              + (if ConfirmsReset(At(script, 0)) && Silent(At(script, 1)) then PollFrames((counter + 2) % 0x1_0000, polls) else [])
  {
    hide ResetOutcome, LaunchOutcome, ConfirmsReset, Silent, EncodeFrame, PollFrames;
    ResetOnWireIff(At(script, 0));
    LaunchIs(At(script, 1), (counter + 1) % 0x1_0000);
    OperationBytes();
  }

  lemma OperationBytes()
    ensures U32Bytes(OP_RESET) == [0, 0, 0, 200] && U32Bytes(OP_READ) == [0, 0, 0, 100]
  {
  }

  /** Poll i is a read, and carries the i-th counter after the first. */
  lemma {:induction false} PollFrameAt(counter: u16, polls: nat, i: nat)
    requires i < polls
    ensures |PollFrames(counter, polls)| == polls
    ensures PollFrames(counter, polls)[i] == EncodeFrame((counter + i) % 0x1_0000, DEVICE_ADDR, 6, [0, 0, 0, 100])
    decreases polls
  {
    hide EncodeFrame;
    OperationBytes();
    if i < polls - 1 {
      PollFrameAt(counter, polls - 1, i);
    } else if polls > 1 {
      PollFrameAt(counter, polls - 1, 0);
    }
  }

  /** The bytes of a request up to its CRC: the first reset of a session, a poll and a segment request. */
  lemma RequestBytes()
    ensures EncodeFrame(0, DEVICE_ADDR, QUERY, [0, 0, 0, 200])[..14]
         == [0x4C, 0x49, 0x44, 0x41, 0, 12, 0, 0, 0, 6, 0, 0, 0, 200]
    ensures EncodeFrame(258, DEVICE_ADDR, QUERY, [0, 0, 0, 100])[..14]
         == [0x4C, 0x49, 0x44, 0x41, 0, 12, 1, 2, 0, 6, 0, 0, 0, 100]
    ensures EncodeFrame(258, DEVICE_ADDR, GET_DATA, [0, 0, 0, 7])[..14]
         == [0x4C, 0x49, 0x44, 0x41, 0, 12, 1, 2, 0, 12, 0, 0, 0, 7]
  {
    hide Crc32.Crc, WordBytes, U16Bytes;
    LengthBytes();
    BodyBytes(0, QUERY, [0, 0, 0, 200]);
    BodyBytes(258, QUERY, [0, 0, 0, 100]);
    BodyBytes(258, GET_DATA, [0, 0, 0, 7]);
  }

  lemma BodyBytes(counter: u16, command: byte, payload: seq<byte>)
    requires |payload| == 4
    ensures EncodeFrame(counter, DEVICE_ADDR, command, payload)[..14]
         == [0x4C, 0x49, 0x44, 0x41] + U16Bytes(12) + U16Bytes(counter) + [0, command] + payload
  {
    hide Crc32.Crc, WordBytes, U16Bytes;
  }

  lemma LengthBytes()
    ensures U16Bytes(12) == [0, 12] && U16Bytes(0) == [0, 0] && U16Bytes(258) == [1, 2]
  {
  }

  // ----- the sequence itself

  /**
   Reset, start, wait. The command is written only after the reset was confirmed, and polling starts
   only after the command was taken in silence.
   */
  method RunLongTask(session: LaserSession, command: byte, payload: seq<byte>) returns (r: Outcome<Report>, ghost polls: nat)
    modifies session`counter, session.transport
    ensures LongTaskEnds(old(session.transport.script), old(session.counter), command, r, polls)
    ensures var script, c := old(session.transport.script), old(session.counter);
            session.transport.sent == old(session.transport.sent) + LongTaskFrames(script, c, command, payload, polls)
  {
    hide LidaCodec.EncodeFrame, Bytes.U32Bytes, QueryOutcome, LaunchOutcome, WaitEnds, PollFrames;
    polls := 0;
    var resetReport := session.Query(OP_RESET);
    if resetReport.Error? {
      r := Error(resetReport.kind);
      return;
    }
    if resetReport.value != CLEARED {
      r := Error(Protocol);
      return;
    }
    var launched := session.SendExpectNoImmediateResponse(command, payload);
    if launched.Error? {
      r := Error(launched.kind);
      return;
    }
    LaunchKeepsCounter(At(old(session.transport.script), 1), (old(session.counter) + 1) % 0x1_0000);
    r, polls := session.WaitTaskCompleted(launched.value, command);
  }

  lemma LaunchKeepsCounter(x: Exchange, counter: u16)
    ensures LaunchOutcome(x, counter).Success? ==> LaunchOutcome(x, counter).value == counter
  {
  }

  // ----- the session as a part of the machine

  /** What a client does or sees in an event; nothing if the event is one of the device or the link. */
  function Seen(e: Event): seq<Event> {
    match e
    case Deliver(reply, _) => [Deliver(reply, false)]
    case Process(_, _) => []
    case LoseRequest(_) => []
    case Progress(_) => []
    case Finish(_, _) => []
    case LoseReply(_) => []
    case _ => [e]
  }

  function AllSeen(events: seq<Event>): seq<Event> {
    if events == [] then [] else AllSeen(events[..|events| - 1]) + Seen(events[|events| - 1])
  }

  /** The reply an answered query hands to the client; a failed one hands over nothing. */
  function Handed(x: Exchange): seq<Event> {
    match QueryOutcome(x)
    case Success(report) => [Deliver(report, false)]
    case Error(_) => []
  }

  function PollsSeen(script: seq<Exchange>, polls: nat): seq<Event> {
    if polls == 0 then [] else PollsSeen(script, polls - 1) + [SendRead] + Handed(At(script, polls - 1))
  }

  /** What the client does and sees in a long task over this script, from the opening on. */
  function TaskSeen(script: seq<Exchange>, command: byte, polls: nat): seq<Event> {
    [Open, SendReset] + Handed(At(script, 0)) + [Launch(command)] + PollsSeen(From(script, 2), polls)
  }

  /** The client's part of the world: its state and the number its next task will get. */
  datatype View = View(client: Client, counter: u16, next: nat)

  function ViewOf(w: World): View {
    View(w.client, w.counter, |w.tasks|)
  }

  /** One event of the client, without the rest of the world. */
  function Act(v: View, e: Event): View {
    match e
    case Open => v.(client := Opened, counter := 0)
    case Abandon => v.(client := Closed)
    case SendReset => v.(client := AwaitingReset, counter := (v.counter + 1) % 0x1_0000)
    case SkipReset => v.(client := Ready)
    case Launch(command) => View(Polling(v.next, v.counter, command), (v.counter + 1) % 0x1_0000, v.next + 1)
    case SendRead => v.(counter := (v.counter + 1) % 0x1_0000)
    case Deliver(reply, _) => v.(client := Take(v.client, reply))
    case _ => v
  }

  function Play(v: View, seen: seq<Event>): View {
    if seen == [] then v else Act(Play(v, seen[..|seen| - 1]), seen[|seen| - 1])
  }

  lemma {:induction false} PlayOn(v: View, a: seq<Event>, b: seq<Event>)
    ensures Play(v, a + b) == Play(Play(v, a), b)
    decreases |b|
  {
    hide Act;
    if b == [] {
      assert a + b == a;
    } else {
      assert (a + b)[..|a + b| - 1] == a + b[..|b| - 1];
      PlayOn(v, a, b[..|b| - 1]);
    }
  }

  lemma PlayOne(v: View, e: Event)
    ensures Play(v, [e]) == Act(v, e)
  {
    assert [e][..0] == [];
    assert Play(v, [e][..0]) == v;
  }

  /** The client's part of the world depends only on what the client does and sees. */
  lemma ViewStep(w: World, e: Event)
    requires Enabled(w, e, false)
    ensures ViewOf(Next(w, e)) == Play(ViewOf(w), Seen(e))
  {
    if Seen(e) != [] {
      PlayOne(ViewOf(w), Seen(e)[0]);
    }
    hide Play, Take;
  }

  lemma PlayNone(v: View)
    ensures AllSeen([]) == [] && Play(v, []) == v
  {
  }

  lemma AllSeenLast(events: seq<Event>, start: nat, k: nat)
    requires start < k <= |events|
    ensures AllSeen(events[start..k]) == AllSeen(events[start..k - 1]) + Seen(events[k - 1])
  {
    hide Seen;
    assert events[start..k][..k - start - 1] == events[start..k - 1];
  }

  lemma ViewNext(worlds: seq<World>, events: seq<Event>, k: nat)
    requires Run(worlds, events, true) && k < |events| < |worlds|
    ensures ViewOf(worlds[k + 1]) == Play(ViewOf(worlds[k]), Seen(events[k]))
  {
    hide Next, Enabled, Act, ViewOf, Play, Seen;
    WithoutHandshake(worlds[k], events[k], true);
    ViewStep(worlds[k], events[k]);
  }

  lemma {:induction false} ViewRun(worlds: seq<World>, events: seq<Event>, start: nat, k: nat)
    requires Run(worlds, events, true) && start <= k <= |events| < |worlds|
    ensures ViewOf(worlds[k]) == Play(ViewOf(worlds[start]), AllSeen(events[start..k]))
  {
    PlayNone(ViewOf(worlds[start]));
    hide *;
    if start == k {
      assert events[start..k] == [];
    } else {
      var v, a, b := ViewOf(worlds[start]), AllSeen(events[start..k - 1]), Seen(events[k - 1]);
      ViewRun(worlds, events, start, k - 1);
      assert ViewOf(worlds[k - 1]) == Play(v, a);
      ViewNext(worlds, events, k - 1);
      assert ViewOf(worlds[k]) == Play(Play(v, a), b);
      AllSeenLast(events, start, k);
      PlayOn(v, a, b);
    }
  }

  /** An inconclusive poll leaves the client polling for the same task; a conclusive one ends it. */
  lemma PollPlayed(v: View, x: Exchange)
    requires v.client.Polling?
    ensures var p, c := PollOf(x, v.client.counter, v.client.command), Play(v, [SendRead] + Handed(x)).client;
            match p
            case Again => c == v.client
            case Complete(report) => c == Done(v.client.id, v.client.counter, v.client.command, report)
            case Abort(_) => true
  {
    hide QueryOutcome;
    PlayOn(v, [SendRead], Handed(x));
    PlayOne(v, SendRead);
    if QueryOutcome(x).Success? {
      PlayOne(Act(v, SendRead), Handed(x)[0]);
    }
  }

  lemma {:induction false} PollsPlayed(v: View, script: seq<Exchange>, polls: nat)
    requires v.client.Polling? && polls <= |script| && AgainUntil(script, polls, v.client.counter, v.client.command)
    ensures Play(v, PollsSeen(script, polls)).client == v.client
  {
    hide PollOf, Handed, Act;
    if polls > 0 {
      PollsPlayed(v, script, polls - 1);
      PlayOn(v, PollsSeen(script, polls - 1), [SendRead] + Handed(script[polls - 1]));
      assert PollsSeen(script, polls) == PollsSeen(script, polls - 1) + ([SendRead] + Handed(script[polls - 1]));
      PollPlayed(Play(v, PollsSeen(script, polls - 1)), script[polls - 1]);
    }
  }

  lemma PlayNext(v: View, a: seq<Event>, e: Event)
    ensures Play(v, a + [e]) == Act(Play(v, a), e)
  {
    hide Act;
    PlayOn(v, a, [e]);
    PlayOne(Play(v, a), e);
  }

  /** What precedes the polls takes the client from anywhere to polling for its task, with counter 1. */
  lemma LaunchPlayed(v: View, x: Exchange, command: byte)
    requires Handed(x) == [Deliver(CLEARED, false)]
    ensures Play(v, [Open, SendReset] + Handed(x) + [Launch(command)]).client == Polling(v.next, 1, command)
  {
    hide Play, Handed;
    PlayOne(v, Open);
    PlayNext(v, [Open], SendReset);
    assert [Open] + [SendReset] == [Open, SendReset];
    PlayNext(v, [Open, SendReset], Deliver(CLEARED, false));
    PlayNext(v, [Open, SendReset] + [Deliver(CLEARED, false)], Launch(command));
  }

  /** What a successful long task says about its exchanges. */
  lemma SuccessMeans(script: seq<Exchange>, command: byte, report: Report, polls: nat)
    requires LongTaskEnds(script, 0, command, Success(report), polls)
    ensures Handed(At(script, 0)) == [Deliver(CLEARED, false)] && 0 < polls <= |From(script, 2)|
    ensures AgainUntil(From(script, 2), polls - 1, 1, command)
    ensures PollOf(From(script, 2)[polls - 1], 1, command) == Complete(report)
  {
    hide QueryOutcome, LaunchOutcome, PollOf;
  }

  /** The polls of a task end with the first conclusive one. */
  lemma WaitPlayed(v: View, script: seq<Exchange>, last: nat, report: Report)
    requires v.client.Polling? && last < |script| && AgainUntil(script, last, v.client.counter, v.client.command)
    requires PollOf(script[last], v.client.counter, v.client.command) == Complete(report)
    ensures Play(v, PollsSeen(script, last + 1)).client == Done(v.client.id, v.client.counter, v.client.command, report)
  {
    hide AgainUntil, PollOf, Act, Handed, Play;
    PollsPlayed(v, script, last);
    var step := [SendRead] + Handed(script[last]);
    assert PollsSeen(script, last + 1) == PollsSeen(script, last) + step;
    PlayOn(v, PollsSeen(script, last), step);
    PollPlayed(Play(v, PollsSeen(script, last)), script[last]);
  }

  /** A long task that succeeds leaves the client with that report. */
  lemma SuccessPlayed(v: View, script: seq<Exchange>, command: byte, report: Report, polls: nat)
    requires LongTaskEnds(script, 0, command, Success(report), polls)
    ensures Play(v, TaskSeen(script, command, polls)).client == Done(v.next, 1, command, report)
  {
    SuccessMeans(script, command, report, polls);
    hide LongTaskEnds, AgainUntil, PollOf, Act, Handed, Play, PollsSeen;
    var head := [Open, SendReset] + Handed(At(script, 0)) + [Launch(command)];
    LaunchPlayed(v, At(script, 0), command);
    PlayOn(v, head, PollsSeen(From(script, 2), polls));
    WaitPlayed(Play(v, head), From(script, 2), polls - 1, report);
  }

  /**
   The report that RunLongTask returns over a new session is the end of the task it launched. Take any
   run of the machine whose last part (from `start` on) is, to the client, what the handler did and was
   given over the script, while device and link do anything. If the device was idle when it took the
   reset (r), it set this very report (f) after the launch (j).
   */
  lemma SuccessIsFresh(worlds: seq<World>, events: seq<Event>, start: nat,
                       script: seq<Exchange>, command: byte, report: Report, polls: nat) returns (r: nat, j: nat, f: nat)
    requires Run(worlds, events, true) && start <= |events|
    requires AllSeen(events[start..]) == TaskSeen(script, command, polls)
    requires LongTaskEnds(script, 0, command, Success(report), polls)
    ensures worlds[|events|].client == Done(|worlds[start].tasks|, 1, command, report)
    ensures r < |events| && j < |events| && events[r].Process? && worlds[r].requests == [Reset] && worlds[r].client.AwaitingReset?
    ensures events[j] == Launch(command) && |worlds[j].tasks| == |worlds[start].tasks|
    ensures worlds[r].running.None? ==>
      && j < f < |events| && events[f] == Finish(report.resultA, report.resultB)
      && worlds[f].running == Some(|worlds[start].tasks|)
  {
    hide Next, Enabled, LongTaskEnds, TaskSeen, Play, AllSeen, Answered, WorksOn, Fresh;
    assert events[start..|events|] == events[start..];
    ViewRun(worlds, events, start, |events|);
    SuccessPlayed(ViewOf(worlds[start]), script, command, report, polls);
    r, j, f := ResultIsFresh(worlds, events, |events|);
  }
}

/**
 Streaming a child process: two reader tasks and a supervisor share one unbounded channel.
 Every event is one uninterrupted stretch of one task; events that are not enabled change
 nothing.

 Main results: with a live receiver, the streams a finished run delivers are exactly the
 order-preserving shuffles of a prefix of each output followed by the one terminal message
 that the child's fate calls for, and an output is complete exactly when its reader did not
 fail with lines still to read (`FinishedStream`, `EveryShuffleHappens`); what the last message
 says (`LastMessage`); and at no point, receiver or not, is there anything after a terminal
 message (`TerminalIsLast`).
 */
module Streaming {
  import opened Wrappers

  datatype Message =
    | Line(content: string, isStderr: bool)
    | End(exitCode: int, timedOut: bool)
    | Error(text: string)

  /** How waiting for the child ends. */
  datatype Fate = Exited(code: Option<int>) | TimedOut | WaitFailed(reason: string)

  /** The lines a reader has still to send, whether it has ended, and whether on a read error. */
  datatype Reader = Reader(pending: seq<string>, done: bool, failed: bool)

  datatype Phase = Starting | Running | Finished

  datatype Stream = Stream(
    stdout: Reader, stderr: Reader, fate: Option<Fate>, phase: Phase, received: seq<Message>, receiverAlive: bool)

  datatype Event =
    | SpawnFails(reason: string)
    | Spawn
    | Read(isStderr: bool)
    | EndOfOutput(isStderr: bool)
    | ReadFails(isStderr: bool)  // an I/O error, or bytes that are not UTF-8
    | ChildEnds(fate: Fate)
    | Finish
    | DropReceiver

  function Terminal(fate: Fate): Message {
    match fate
    case Exited(code) => End(if code.Some? then code.value else -1, false)
    case TimedOut => End(-1, true)
    case WaitFailed(reason) => Error("Process error: " + reason)
  }

  function Send(s: Stream, m: Message): Stream {
    if s.receiverAlive then s.(received := s.received + [m]) else s
  }

  function ReaderOf(s: Stream, isStderr: bool): Reader {
    if isStderr then s.stderr else s.stdout
  }

  function WithReader(s: Stream, isStderr: bool, r: Reader): Stream {
    if isStderr then s.(stderr := r) else s.(stdout := r)
  }

  function Step(s: Stream, e: Event): Stream {
    match e
    case SpawnFails(reason) =>
      if s.phase.Starting? then Send(s, Error(reason)).(phase := Finished) else s
    case Spawn =>
      if s.phase.Starting? then s.(phase := Running) else s
    case Read(isStderr) =>
      var r := ReaderOf(s, isStderr);
      if !s.phase.Running? || r.done || r.pending == [] then s
      else if s.receiverAlive then
        WithReader(Send(s, Line(r.pending[0], isStderr)), isStderr, r.(pending := r.pending[1..]))
      else WithReader(s, isStderr, r.(done := true))
    case EndOfOutput(isStderr) =>
      var r := ReaderOf(s, isStderr);
      if s.phase.Running? && r.pending == [] then WithReader(s, isStderr, r.(done := true)) else s
    case ReadFails(isStderr) =>
      var r := ReaderOf(s, isStderr);
      if s.phase.Running? && !r.done then WithReader(s, isStderr, r.(done := true, failed := true)) else s
    case ChildEnds(fate) =>
      if s.phase.Running? && s.fate.None? then s.(fate := Some(fate)) else s
    case Finish =>
      if s.phase.Running? && s.stdout.done && s.stderr.done && s.fate.Some?
      then Send(s, Terminal(s.fate.value)).(phase := Finished) else s
    case DropReceiver => s.(receiverAlive := false)
  }

  function Start(out: seq<string>, err: seq<string>): Stream {
    Stream(Reader(out, false, false), Reader(err, false, false), None, Starting, [], true)
  }

  function Run(out: seq<string>, err: seq<string>, events: seq<Event>): Stream {
    if events == [] then Start(out, err)
    else Step(Run(out, err, events[..|events| - 1]), events[|events| - 1])
  }

  // ------------------------------------------------------------------------------- invariant

  /** The contents of the lines of one kind, in order. */
  function Project(ms: seq<Message>, isStderr: bool): seq<string> {
    if ms == [] then []
    else
      var m := ms[|ms| - 1];
      Project(ms[..|ms| - 1], isStderr) + (if m.Line? && m.isStderr == isStderr then [m.content] else [])
  }

  ghost predicate AllLines(ms: seq<Message>) {
    forall i :: 0 <= i < |ms| ==> ms[i].Line?
  }

  /** One reader and what it was given to send. */
  ghost predicate ReaderInv(s: Stream, isStderr: bool, lines: seq<string>) {
    var r := ReaderOf(s, isStderr);
    && Project(s.received, isStderr) + r.pending == lines
    && (s.receiverAlive && r.done && !r.failed ==> r.pending == [])
    && (r.failed ==> r.done)
    && (s.phase.Starting? ==> Project(s.received, isStderr) == [])
  }

  ghost predicate StreamInv(s: Stream) {
    match s.phase
    case Starting => s.received == []
    case Running => AllLines(s.received)
    case Finished =>
      if s.receiverAlive then
        && s.received != []
        && AllLines(s.received[..|s.received| - 1]) && !s.received[|s.received| - 1].Line?
        && (s.fate.None? ==> |s.received| == 1 && s.received[0].Error?)
        && (s.fate.Some? ==> s.stdout.done && s.stderr.done && s.received[|s.received| - 1] == Terminal(s.fate.value))
      else AllLines(s.received) || (s.received != [] && AllLines(s.received[..|s.received| - 1]))
  }

  ghost predicate Inv(s: Stream, out: seq<string>, err: seq<string>) {
    ReaderInv(s, false, out) && ReaderInv(s, true, err) && StreamInv(s)
  }

  lemma ProjectSnoc(ms: seq<Message>, m: Message, isStderr: bool)
    ensures Project(ms + [m], isStderr) ==
            Project(ms, isStderr) + (if m.Line? && m.isStderr == isStderr then [m.content] else [])
  {
    assert (ms + [m])[..|ms|] == ms;
  }

  /** What one read does to either reader. */
  lemma ReadReaderKeeps(s: Stream, isStderr: bool, which: bool, lines: seq<string>)
    requires ReaderInv(s, which, lines) && s.phase.Running? && s.receiverAlive
    requires !ReaderOf(s, isStderr).done && ReaderOf(s, isStderr).pending != []
    ensures ReaderInv(Step(s, Read(isStderr)), which, lines)
  {
    var pending := ReaderOf(s, isStderr).pending;
    ProjectSnoc(s.received, Line(pending[0], isStderr), which);
    var sent := Project(s.received, isStderr);
    assert sent + pending == sent + [pending[0]] + pending[1..];
  }

  lemma {:induction false} ReadKeeps(s: Stream, isStderr: bool, out: seq<string>, err: seq<string>)
    requires Inv(s, out, err) && s.phase.Running? && s.receiverAlive
    requires !ReaderOf(s, isStderr).done && ReaderOf(s, isStderr).pending != []
    ensures Inv(Step(s, Read(isStderr)), out, err)
  {
    ReadReaderKeeps(s, isStderr, false, out);
    ReadReaderKeeps(s, isStderr, true, err);
  }

  lemma TerminalKeeps(s: Stream, m: Message, out: seq<string>, err: seq<string>)
    requires Inv(s, out, err) && !m.Line? && s.phase != Finished
    requires s.phase.Starting? ==> m.Error? && s.fate.None?
    requires s.phase.Running? ==> s.stdout.done && s.stderr.done && s.fate.Some? && m == Terminal(s.fate.value)
    ensures Inv(Send(s, m).(phase := Finished), out, err)
  {
    ProjectSnoc(s.received, m, false);
    ProjectSnoc(s.received, m, true);
    assert (s.received + [m])[..|s.received|] == s.received;
  }

  /** Events that send nothing. */
  predicate Quiet(s: Stream, e: Event) {
    e.Spawn? || e.EndOfOutput? || e.ReadFails? || e.ChildEnds? || e.DropReceiver? || (e.Read? && !s.receiverAlive)
  }

  lemma QuietReaderKeeps(s: Stream, e: Event, which: bool, lines: seq<string>)
    requires Quiet(s, e) && ReaderInv(s, which, lines)
    ensures ReaderInv(Step(s, e), which, lines)
  {
    assert Step(s, e).received == s.received;
    assert ReaderOf(Step(s, e), which).pending == ReaderOf(s, which).pending;
  }

  lemma QuietStreamKeeps(s: Stream, e: Event)
    requires Quiet(s, e) && StreamInv(s)
    ensures StreamInv(Step(s, e))
  {
    assert Step(s, e).received == s.received;
  }

  lemma QuietKeeps(s: Stream, e: Event, out: seq<string>, err: seq<string>)
    requires Quiet(s, e) && Inv(s, out, err)
    ensures Inv(Step(s, e), out, err)
  {
    QuietReaderKeeps(s, e, false, out);
    QuietReaderKeeps(s, e, true, err);
    QuietStreamKeeps(s, e);
  }

  /** Only a running stream learns the fate of its child. */
  lemma FateWaits(s: Stream, e: Event)
    requires s.phase.Starting? ==> s.fate.None?
    ensures Step(s, e).phase.Starting? ==> Step(s, e).fate.None?
  {
  }

  lemma {:induction false} StepKeeps(s: Stream, e: Event, out: seq<string>, err: seq<string>)
    requires Inv(s, out, err) && (s.phase.Starting? ==> s.fate.None?)
    ensures Inv(Step(s, e), out, err) && (Step(s, e).phase.Starting? ==> Step(s, e).fate.None?)
  {
    FateWaits(s, e);
    if Step(s, e) == s {
    } else if Quiet(s, e) {
      QuietKeeps(s, e, out, err);
    } else if e.Read? {
      ReadKeeps(s, e.isStderr, out, err);
    } else if e.SpawnFails? {
      TerminalKeeps(s, Error(e.reason), out, err);
    } else {
      TerminalKeeps(s, Terminal(s.fate.value), out, err);
    }
  }

  lemma {:induction false} RunKeeps(out: seq<string>, err: seq<string>, events: seq<Event>)
    ensures Inv(Run(out, err, events), out, err)
    ensures Run(out, err, events).phase.Starting? ==> Run(out, err, events).fate.None?
  {
    if events == [] {
    } else {
      RunKeeps(out, err, events[..|events| - 1]);
      StepKeeps(Run(out, err, events[..|events| - 1]), events[|events| - 1], out, err);
    }
  }

  // ------------------------------------------------------------------------------- theorems

  /** Event `e` is a read error of a reader that still has lines to read. */
  ghost predicate LosesLines(s: Stream, e: Event, isStderr: bool) {
    && e == ReadFails(isStderr) && s.phase.Running?
    && !ReaderOf(s, isStderr).done && ReaderOf(s, isStderr).pending != []
  }

  /** At some point of the run the reader fails with lines still to read. */
  ghost predicate FailsEarly(out: seq<string>, err: seq<string>, events: seq<Event>, isStderr: bool) {
    events != [] &&
    var (front, e) := (events[..|events| - 1], events[|events| - 1]);
    FailsEarly(out, err, front, isStderr) || LosesLines(Run(out, err, front), e, isStderr)
  }

  predicate Lost(r: Reader) {
    r.failed && r.pending != []
  }

  lemma StepLoses(s: Stream, e: Event, isStderr: bool)
    requires ReaderOf(s, isStderr).failed ==> ReaderOf(s, isStderr).done
    ensures Lost(ReaderOf(Step(s, e), isStderr)) <==> Lost(ReaderOf(s, isStderr)) || LosesLines(s, e, isStderr)
  {
  }

  /** The flags of a reader record exactly whether it failed with lines still to read. */
  lemma {:induction false} FailureRecorded(out: seq<string>, err: seq<string>, events: seq<Event>, isStderr: bool)
    ensures Lost(ReaderOf(Run(out, err, events), isStderr)) <==> FailsEarly(out, err, events, isStderr)
  {
    if events == [] {
    } else {
      var (front, e) := (events[..|events| - 1], events[|events| - 1]);
      FailureRecorded(out, err, front, isStderr);
      RunKeeps(out, err, front);
      StepLoses(Run(out, err, front), e, isStderr);
    }
  }

  /** What a finished run has received: a shuffle of a prefix of each output, then the terminal message. */
  ghost predicate Delivered(s: Stream, out: seq<string>, err: seq<string>, ms: seq<Message>) {
    && s.fate.Some? && s.received == ms + [Terminal(s.fate.value)]
    && AllLines(ms) && Project(ms, false) <= out && Project(ms, true) <= err
  }

  /**
   With a live receiver, a finished run delivered a shuffle of a prefix of each output and
   then exactly the terminal message of the child's fate, or a single error if nothing was
   spawned. An output is complete if and only if its reader did not fail with lines to read.
   */
  lemma {:induction false} FinishedStream(out: seq<string>, err: seq<string>, events: seq<Event>)
    requires Run(out, err, events).phase.Finished? && Run(out, err, events).receiverAlive
    ensures Run(out, err, events).received != []
    ensures Run(out, err, events).fate.None? ==> exists reason :: Run(out, err, events).received == [Error(reason)]
    ensures Run(out, err, events).fate.Some? ==>
      var s := Run(out, err, events);
      var ms := s.received[..|s.received| - 1];
      && Delivered(s, out, err, ms)
      && (Project(ms, false) == out <==> !FailsEarly(out, err, events, false))
      && (Project(ms, true) == err <==> !FailsEarly(out, err, events, true))
  {
    var s := Run(out, err, events);
    RunKeeps(out, err, events);
    var n := |s.received| - 1;
    if s.fate.None? {
      assert s.received == [Error(s.received[0].text)];
    } else {
      assert s.received == s.received[..n] + [s.received[n]];
      ProjectSnoc(s.received[..n], s.received[n], false);
      ProjectSnoc(s.received[..n], s.received[n], true);
      FailureRecorded(out, err, events, false);
      FailureRecorded(out, err, events, true);
    }
  }

  // ----------------------------------------------------------------------- the last message

  /** The first attempt to start the child. */
  ghost function Opening(events: seq<Event>): Option<Event> {
    if events == [] then None
    else
      var (front, e) := (events[..|events| - 1], events[|events| - 1]);
      if Opening(front).Some? then Opening(front)
      else if e.Spawn? || e.SpawnFails? then Some(e) else None
  }

  /** How waiting for the child ended the first time it did, once the child had been started. */
  ghost function Ending(events: seq<Event>): Option<Fate> {
    if events == [] then None
    else
      var (front, e) := (events[..|events| - 1], events[|events| - 1]);
      if Ending(front).Some? then Ending(front)
      else if e.ChildEnds? && Opening(front) == Some(Spawn) then Some(e.fate) else None
  }

  /** The state and the opening of the run go together. */
  ghost predicate Opened(s: Stream, opening: Option<Event>, ending: Option<Fate>) {
    && s.fate == ending
    && match opening
       case None => s.phase.Starting? && ending.None?
       case Some(e) =>
         if e.SpawnFails? then
           s.phase.Finished? && ending.None? && (s.receiverAlive ==> s.received == [Error(e.reason)])
         else e.Spawn? && !s.phase.Starting?
  }

  lemma StepOpens(s: Stream, e: Event, opening: Option<Event>, ending: Option<Fate>)
    requires Opened(s, opening, ending) && (s.phase.Finished? && ending.None? ==> opening != Some(Spawn))
    requires s.phase.Starting? ==> s.received == []
    ensures var opening' := if opening.None? && (e.Spawn? || e.SpawnFails?) then Some(e) else opening;
      var ending' := if ending.None? && e.ChildEnds? && opening == Some(Spawn) then Some(e.fate) else ending;
      && Opened(Step(s, e), opening', ending')
      && (Step(s, e).phase.Finished? && ending'.None? ==> opening' != Some(Spawn))
  {
  }

  lemma {:induction false} RunOpens(out: seq<string>, err: seq<string>, events: seq<Event>)
    ensures Opened(Run(out, err, events), Opening(events), Ending(events))
    ensures Run(out, err, events).phase.Finished? && Ending(events).None? ==> Opening(events) != Some(Spawn)
  {
    if events == [] {
    } else {
      var (front, e) := (events[..|events| - 1], events[|events| - 1]);
      RunOpens(out, err, front);
      RunKeeps(out, err, front);
      StepOpens(Run(out, err, front), e, Opening(front), Ending(front));
    }
  }

  /**
   With a live receiver, a finished run whose child could not be started delivered that error
   and nothing else; otherwise its last message gives the exit code (-1 for a child killed by a
   signal), the timeout, or the error of waiting, whichever came first.
   */
  lemma {:induction false} LastMessage(out: seq<string>, err: seq<string>, events: seq<Event>)
    requires Run(out, err, events).phase.Finished? && Run(out, err, events).receiverAlive
    ensures Run(out, err, events).received != [] && Opening(events).Some?
    ensures Opening(events).value.SpawnFails? ==>
      Run(out, err, events).received == [Error(Opening(events).value.reason)]
    ensures !Opening(events).value.SpawnFails? ==> Ending(events).Some?
    ensures !Opening(events).value.SpawnFails? ==>
      var last := Run(out, err, events).received[|Run(out, err, events).received| - 1];
      match Ending(events).value
      case Exited(Some(code)) => last == End(code, false)
      case Exited(None) => last == End(-1, false)
      case TimedOut => last == End(-1, true)
      case WaitFailed(reason) => last == Error("Process error: " + reason)
  {
    RunKeeps(out, err, events);
    RunOpens(out, err, events);
  }

  /** Once the receiver is gone nothing arrives any more, and a reader stops at its next line. */
  lemma {:induction false} NothingAfterDrop(out: seq<string>, err: seq<string>, before: seq<Event>, after: seq<Event>)
    ensures !Run(out, err, before + [DropReceiver] + after).receiverAlive
    ensures Run(out, err, before + [DropReceiver] + after).received == Run(out, err, before).received
  {
    if after == [] {
      assert before + [DropReceiver] + after == before + [DropReceiver];
      RunSnoc(out, err, before, DropReceiver);
    } else {
      var (front, e) := (after[..|after| - 1], after[|after| - 1]);
      NothingAfterDrop(out, err, before, front);
      assert before + [DropReceiver] + after == before + [DropReceiver] + front + [e];
      RunSnoc(out, err, before + [DropReceiver] + front, e);
    }
  }

  lemma ReaderStopsUnheard(out: seq<string>, err: seq<string>, events: seq<Event>, isStderr: bool)
    requires Run(out, err, events).phase.Running? && !Run(out, err, events).receiverAlive
    ensures ReaderOf(Run(out, err, events), isStderr).pending != [] ==>
      ReaderOf(Run(out, err, events + [Read(isStderr)]), isStderr).done
    ensures ReaderOf(Run(out, err, events), isStderr).pending == [] ==>
      ReaderOf(Run(out, err, events + [EndOfOutput(isStderr)]), isStderr).done
  {
    RunSnoc(out, err, events, Read(isStderr));
    RunSnoc(out, err, events, EndOfOutput(isStderr));
  }

  /** In every interleaving, with the receiver alive or gone, nothing follows a terminal message. */
  lemma {:induction false} TerminalIsLast(out: seq<string>, err: seq<string>, events: seq<Event>, i: nat)
    requires i < |Run(out, err, events).received| && !Run(out, err, events).received[i].Line?
    ensures i == |Run(out, err, events).received| - 1 && Run(out, err, events).phase.Finished?
  {
    RunKeeps(out, err, events);
    TerminalOfStream(Run(out, err, events), i);
  }

  lemma TerminalOfStream(s: Stream, i: nat)
    requires StreamInv(s) && i < |s.received| && !s.received[i].Line?
    ensures i == |s.received| - 1 && s.phase.Finished?
  {
  }

  /** And what has arrived is always, per output, a prefix in order. */
  lemma {:induction false} PrefixAlways(out: seq<string>, err: seq<string>, events: seq<Event>)
    ensures Project(Run(out, err, events).received, false) <= out
    ensures Project(Run(out, err, events).received, true) <= err
  {
    RunKeeps(out, err, events);
  }

  /** The reads that deliver `ms`. */
  function Reads(ms: seq<Message>): seq<Event> {
    seq(|ms|, i requires 0 <= i < |ms| => Read(ms[i].Line? && ms[i].isStderr))
  }

  lemma RunSnoc(out: seq<string>, err: seq<string>, events: seq<Event>, e: Event)
    ensures Run(out, err, events + [e]) == Step(Run(out, err, events), e)
  {
    assert (events + [e])[..|events|] == events;
  }

  /** Running, with `ms` delivered and everything else still to be read. */
  function MidRun(out: seq<string>, err: seq<string>, ms: seq<Message>): Stream
    requires Project(ms, false) <= out && Project(ms, true) <= err
  {
    Stream(Reader(out[|Project(ms, false)|..], false, false), Reader(err[|Project(ms, true)|..], false, false),
           None, Running, ms, true)
  }

  lemma ReadDelivers(out: seq<string>, err: seq<string>, ms: seq<Message>, m: Message)
    requires m.Line? && Project(ms + [m], false) <= out && Project(ms + [m], true) <= err
    ensures Project(ms, false) <= out && Project(ms, true) <= err
    ensures Step(MidRun(out, err, ms), Read(m.isStderr)) == MidRun(out, err, ms + [m])
  {
    ProjectSnoc(ms, m, false);
    ProjectSnoc(ms, m, true);
    var lines := if m.isStderr then err else out;
    var k := |Project(ms, m.isStderr)|;
    assert Project(ms + [m], m.isStderr)[k] == m.content;
    assert lines[k..][0] == m.content && lines[k..][1..] == lines[k + 1..];
  }

  lemma ReadsSnoc(ms: seq<Message>, m: Message)
    requires m.Line?
    ensures [Spawn] + Reads(ms + [m]) == [Spawn] + Reads(ms) + [Read(m.isStderr)]
  {
  }

  lemma ReadsDeliverNext(out: seq<string>, err: seq<string>, events: seq<Event>, ms: seq<Message>, m: Message)
    requires m.Line? && Project(ms + [m], false) <= out && Project(ms + [m], true) <= err
    requires Project(ms, false) <= out && Project(ms, true) <= err && Run(out, err, events) == MidRun(out, err, ms)
    ensures Run(out, err, events + [Read(m.isStderr)]) == MidRun(out, err, ms + [m])
  {
    ReadDelivers(out, err, ms, m);
    RunSnoc(out, err, events, Read(m.isStderr));
  }

  lemma {:induction false} ReadsDeliver(out: seq<string>, err: seq<string>, ms: seq<Message>)
    requires AllLines(ms) && Project(ms, false) <= out && Project(ms, true) <= err
    ensures Run(out, err, [Spawn] + Reads(ms)) == MidRun(out, err, ms)
  {
    if ms == [] {
      RunSnoc(out, err, [], Spawn);
      assert [Spawn] + Reads(ms) == [] + [Spawn];
    } else {
      var (front, m) := (ms[..|ms| - 1], ms[|ms| - 1]);
      assert ms == front + [m];
      ReadDelivers(out, err, front, m);
      ReadsDeliver(out, err, front);
      ReadsSnoc(front, m);
      ReadsDeliverNext(out, err, [Spawn] + Reads(front), front, m);
    }
  }

  /** How a reader that has delivered `sent` of `lines` stops. */
  function Stops(sent: seq<string>, lines: seq<string>, isStderr: bool): Event {
    if sent == lines then EndOfOutput(isStderr) else ReadFails(isStderr)
  }

  /** Every shuffle of every two prefixes, with every fate, can happen. */
  lemma EveryShuffleHappens(out: seq<string>, err: seq<string>, ms: seq<Message>, fate: Fate)
    returns (events: seq<Event>)
    requires AllLines(ms) && Project(ms, false) <= out && Project(ms, true) <= err
    ensures Run(out, err, events).phase.Finished? && Run(out, err, events).receiverAlive
    ensures Run(out, err, events).received == ms + [Terminal(fate)]
  {
    ReadsDeliver(out, err, ms);
    events := StopBoth(out, err, [Spawn] + Reads(ms), ms);
    RunSnoc(out, err, events, ChildEnds(fate));
    RunSnoc(out, err, events + [ChildEnds(fate)], Finish);
    events := events + [ChildEnds(fate)] + [Finish];
  }

  lemma StopBoth(out: seq<string>, err: seq<string>, before: seq<Event>, ms: seq<Message>)
    returns (events: seq<Event>)
    requires Project(ms, false) <= out && Project(ms, true) <= err && Run(out, err, before) == MidRun(out, err, ms)
    ensures var s := Run(out, err, events);
      s.phase.Running? && s.fate.None? && s.receiverAlive && s.stdout.done && s.stderr.done && s.received == ms
  {
    var (stopOut, stopErr) := (Stops(Project(ms, false), out, false), Stops(Project(ms, true), err, true));
    RunSnoc(out, err, before, stopOut);
    RunSnoc(out, err, before + [stopOut], stopErr);
    events := before + [stopOut] + [stopErr];
  }
}

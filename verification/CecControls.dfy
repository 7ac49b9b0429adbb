/** The CEC messages of src/cec_controls.c as a transition system: the receiving thread enqueues,
    the main thread polls; each critical section, and each message processed between two of them,
    is one step. What the camera is asked for depends on the messages alone, not on the schedule. */
module CecControls {
  import opened CTypes

  const CONTRAST: uint8 := 0x20
  const LUMINOSITY: uint8 := 0x21
  const PIVOT: uint8 := 0x1f
  const SATURATION: uint8 := 0x1e
  const SHUTTER_SPEED: uint8 := 0x57
  const WHITE_BALANCE_TEMP: uint8 := 0x54

  /** A message as received: its bytes, zero past its length. */
  datatype CecMsg = CecMsg(msg: seq<uint8>, len: nat)

  datatype Message = Message(code: uint8, data1: uint8, data2: uint8, hasData2: bool)

  function Received(m: CecMsg): Message
    requires |m.msg| == 16
  {
    Message(m.msg[1], m.msg[2], m.msg[3], m.len >= 4)
  }

  /** A call of `apply_value`. */
  datatype Request = Request(name: string, min: int, max: int, val: int)

  /** A camera answers a request with 1 if it has an integer control of that name. */
  datatype VideoDevice = VideoDevice(integerControls: set<string>)

  /** The last explicit high byte of each control with two bytes. */
  datatype Latches = Latches(contrast: uint8, saturation: uint8, pivot: uint8, luma: uint8, shutter: uint8)

  datatype Pc = Idle | Looking | Holding(held: Message)

  /** What has happened so far; no step depends on it. `answers` are those of the present poll. */
  datatype Log = Log(enqueued: seq<Message>, processed: seq<Message>, requests: seq<Request>, answers: seq<bool>)

  datatype State = State(queue: seq<Message>, pc: Pc, latches: Latches, changed: bool, log: Log)

  datatype Action = Enqueue(msg: Message) | BeginPoll | Dequeue | Process(vd: VideoDevice)

  predicate Enabled(s: State, a: Action) {
    match a
    case Enqueue(_) => true
    case BeginPoll => s.pc.Idle?
    case Dequeue => s.pc.Looking?
    case Process(_) => s.pc.Holding?
  }

  function InitialState(): State {
    State([], Idle, Latches(0, 0, 0, 0, 0), false, Log([], [], [], []))
  }

  // ---------- Steps ----------

  function Joined(high: uint8, low: uint8): int {
    var h: int := high;
    0x100 * h + low
  }

  function Latched(latch: uint8, m: Message): uint8 {
    if m.hasData2 then m.data2 else latch
  }

  /** The `switch` on a message's code: the latches after it, and the calls it makes. */
  function Processed(l: Latches, m: Message): (Latches, seq<Request>) {
    if m.code == CONTRAST then
      var l' := l.(contrast := Latched(l.contrast, m));
      (l', [Request("Contrast", 0, 4096, Joined(l'.contrast, m.data1))])
    else if m.code == LUMINOSITY then
      var l' := l.(luma := Latched(l.luma, m));
      (l', [Request("Gamma", 0, 2048, Joined(l'.luma, m.data1))])
    else if m.code == PIVOT then
      var l' := l.(pivot := Latched(l.pivot, m));
      (l', [Request("Bright", 0, 2048, Joined(l'.pivot, m.data1))])
    else if m.code == SATURATION then
      var l' := l.(saturation := Latched(l.saturation, m));
      (l', [Request("Saturation", 0, 4096, Joined(l'.saturation, m.data1))])
    else if m.code == SHUTTER_SPEED then
      var l' := l.(shutter := Latched(l.shutter, m));
      (l', [Request("Gain", 41667, 500, Joined(l'.shutter, m.data1))])
    else if m.code == WHITE_BALANCE_TEMP then
      (l, [Request("White Balance Temperature", 0, 0, (m.data1 - 50) * 50 + 2500)])
    else (l, [])
  }

  function Answer(vd: VideoDevice, rs: seq<Request>): bool {
    rs != [] && rs[0].name in vd.integerControls
  }

  function StepProcess(s: State, vd: VideoDevice): State
    requires s.pc.Holding?
  {
    var (l, rs) := Processed(s.latches, s.pc.held);
    s.(pc := Looking, latches := l, changed := s.changed || Answer(vd, rs),
       log := s.log.(processed := s.log.processed + [s.pc.held], requests := s.log.requests + rs,
                     answers := s.log.answers + [Answer(vd, rs)]))
  }

  function Step(s: State, a: Action): State
    requires Enabled(s, a)
  {
    match a
    case Enqueue(m) => s.(queue := s.queue + [m], log := s.log.(enqueued := s.log.enqueued + [m]))
    case BeginPoll => s.(pc := Looking, changed := false, log := s.log.(answers := []))
    case Dequeue => if s.queue == [] then s.(pc := Idle) else s.(queue := s.queue[1..], pc := Holding(s.queue[0]))
    case Process(vd) => StepProcess(s, vd)
  }

  predicate IsRun(run: seq<State>, acts: seq<Action>) {
    && |run| == |acts| + 1 && run[0] == InitialState()
    && forall i | 0 <= i < |acts| :: Enabled(run[i], acts[i]) && run[i + 1] == Step(run[i], acts[i])
  }

  // ---------- What the messages ask for, by control ----------

  /** The most recent explicit high byte for a control in a history, 0 if there is none. */
  function LastHigh(ms: seq<Message>, code: uint8): uint8 {
    if ms == [] then 0
    else
      var m := ms[|ms| - 1];
      if m.code == code && m.hasData2 then m.data2 else LastHigh(ms[..|ms| - 1], code)
  }

  lemma {:induction false} LastHighIs(ms: seq<Message>, code: uint8, k: nat)
    requires k < |ms| && ms[k].code == code && ms[k].hasData2
    requires forall i | k < i < |ms| :: ms[i].code != code || !ms[i].hasData2
    ensures LastHigh(ms, code) == ms[k].data2
    decreases |ms|
  {
    if k == |ms| - 1 {
    } else {
      LastHighIs(ms[..|ms| - 1], code, k);
    }
  }

  lemma {:induction false} LastHighNone(ms: seq<Message>, code: uint8)
    requires forall i | 0 <= i < |ms| :: ms[i].code != code || !ms[i].hasData2
    ensures LastHigh(ms, code) == 0
    decreases |ms|
  {
    if ms == [] {
    } else {
      LastHighNone(ms[..|ms| - 1], code);
    }
  }

  /** The camera control a code is for, with the range its values are given in. */
  function ControlOf(code: uint8): Option<(string, int, int)> {
    if code == CONTRAST then Some(("Contrast", 0, 4096))
    else if code == SATURATION then Some(("Saturation", 0, 4096))
    else if code == PIVOT then Some(("Bright", 0, 2048))
    else if code == LUMINOSITY then Some(("Gamma", 0, 2048))
    else if code == SHUTTER_SPEED then Some(("Gain", 41667, 500))
    else None
  }

  /** The requests a history of messages comes to. */
  function Wanted(ms: seq<Message>): seq<Request> {
    if ms == [] then []
    else
      var m := ms[|ms| - 1];
      Wanted(ms[..|ms| - 1])
      + match ControlOf(m.code)
        case Some((name, min, max)) => [Request(name, min, max, 0x100 * LastHigh(ms, m.code) + m.data1)]
        case None =>
          if m.code == WHITE_BALANCE_TEMP then [Request("White Balance Temperature", 0, 0, 50 * m.data1)] else []
  }

  function LatchesFor(ms: seq<Message>): Latches {
    Latches(LastHigh(ms, CONTRAST), LastHigh(ms, SATURATION), LastHigh(ms, PIVOT), LastHigh(ms, LUMINOSITY),
            LastHigh(ms, SHUTTER_SPEED))
  }

  lemma LastHighAppend(ms: seq<Message>, m: Message, code: uint8)
    ensures LastHigh(ms + [m], code) == if m.code == code && m.hasData2 then m.data2 else LastHigh(ms, code)
  {
    assert (ms + [m])[..|ms|] == ms;
  }

  /** Processing one more message keeps the latches at the last high bytes, and makes the request. */
  lemma ProcessedFollows(ms: seq<Message>, m: Message)
    ensures Processed(LatchesFor(ms), m).0 == LatchesFor(ms + [m])
    ensures Wanted(ms + [m]) == Wanted(ms) + Processed(LatchesFor(ms), m).1
  {
    hide LastHigh;
    LastHighAppend(ms, m, CONTRAST);
    LastHighAppend(ms, m, SATURATION);
    LastHighAppend(ms, m, PIVOT);
    LastHighAppend(ms, m, LUMINOSITY);
    LastHighAppend(ms, m, SHUTTER_SPEED);
    assert (ms + [m])[..|ms|] == ms;
  }

  // ---------- The same, in received bytes ----------

  predicate Full(ms: seq<CecMsg>) {
    forall i | 0 <= i < |ms| :: |ms[i].msg| == 16
  }

  function ReceivedAll(ms: seq<CecMsg>): seq<Message>
    requires Full(ms)
  {
    seq(|ms|, i requires 0 <= i < |ms| => Received(ms[i]))
  }

  /** Byte 3 of the last message with this code that is at least four bytes long, 0 if there is none. */
  ghost predicate IsHighByte(ms: seq<CecMsg>, code: uint8, high: uint8)
    requires Full(ms)
  {
    || (exists k :: 0 <= k < |ms| && ms[k].msg[1] == code && ms[k].len >= 4 && ms[k].msg[3] == high
                    && forall i | k < i < |ms| :: ms[i].msg[1] != code || ms[i].len < 4)
    || (high == 0 && forall i | 0 <= i < |ms| :: ms[i].msg[1] != code || ms[i].len < 4)
  }

  lemma HighByteIs(ms: seq<CecMsg>, code: uint8, high: uint8)
    requires Full(ms) && IsHighByte(ms, code, high)
    ensures LastHigh(ReceivedAll(ms), code) == high
  {
    var all := ReceivedAll(ms);
    assert forall i | 0 <= i < |ms| :: all[i] == Message(ms[i].msg[1], ms[i].msg[2], ms[i].msg[3], ms[i].len >= 4);
    if forall i | 0 <= i < |ms| :: ms[i].msg[1] != code || ms[i].len < 4 {
      LastHighNone(all, code);
    } else {
      var k :| 0 <= k < |ms| && ms[k].msg[1] == code && ms[k].len >= 4 && ms[k].msg[3] == high
               && forall i | k < i < |ms| :: ms[i].msg[1] != code || ms[i].len < 4;
      LastHighIs(all, code, k);
    }
  }

  /** What one more message asks for: byte 1 is the control, byte 2 the low byte of its value, and
      byte 3, if the message has it, the high byte, else the last one that the control was sent. */
  lemma RequestInBytes(ms: seq<CecMsg>, m: CecMsg, high: uint8)
    requires Full(ms) && |m.msg| == 16
    requires if m.len >= 4 then high == m.msg[3] else IsHighByte(ms, m.msg[1], high)
    ensures var value := 256 * high + m.msg[2];
            Wanted(ReceivedAll(ms + [m])) ==
            Wanted(ReceivedAll(ms)) +
            if m.msg[1] == 0x20 then [Request("Contrast", 0, 4096, value)]
            else if m.msg[1] == 0x1e then [Request("Saturation", 0, 4096, value)]
            else if m.msg[1] == 0x1f then [Request("Bright", 0, 2048, value)]
            else if m.msg[1] == 0x21 then [Request("Gamma", 0, 2048, value)]
            else if m.msg[1] == 0x57 then [Request("Gain", 41667, 500, value)]
            else if m.msg[1] == 0x54 then [Request("White Balance Temperature", 0, 0, 50 * (m.msg[2] as int))]
            else []
  {
    hide Wanted, LastHigh;
    var before := ReceivedAll(ms);
    assert ReceivedAll(ms + [m]) == before + [Received(m)];
    if m.len < 4 {
      HighByteIs(ms, m.msg[1], high);
    }
    LastHighAppend(before, Received(m), m.msg[1]);
    WantedAppend(before, Received(m));
  }

  lemma WantedAppend(ms: seq<Message>, m: Message)
    ensures Wanted(ms + [m]) == Wanted(ms) + Processed(LatchesFor(ms), m).1
    ensures ControlOf(m.code).Some? ==>
              var (name, min, max) := ControlOf(m.code).value;
              Processed(LatchesFor(ms), m).1 == [Request(name, min, max, 0x100 * LastHigh(ms + [m], m.code) + m.data1)]
    ensures ControlOf(m.code).None? && m.code == WHITE_BALANCE_TEMP ==>
              Processed(LatchesFor(ms), m).1 == [Request("White Balance Temperature", 0, 0, 50 * m.data1)]
    ensures ControlOf(m.code).None? && m.code != WHITE_BALANCE_TEMP ==> Processed(LatchesFor(ms), m).1 == []
  {
    ProcessedFollows(ms, m);
    LastHighAppend(ms, m, m.code);
    hide Wanted, LastHigh;
  }

  // ---------- Every run ----------

  function Held(pc: Pc): seq<Message> {
    match pc case Holding(m) => [m] case _ => []
  }

  /** No message is lost, doubled or reordered, and what was processed fixes everything else. */
  predicate Inv(s: State) {
    && s.log.enqueued == s.log.processed + Held(s.pc) + s.queue
    && s.latches == LatchesFor(s.log.processed)
    && s.log.requests == Wanted(s.log.processed)
    && (s.changed <==> true in s.log.answers)
  }

  lemma StepKeepsInv(s: State, a: Action)
    requires Inv(s) && Enabled(s, a)
    ensures Inv(Step(s, a))
  {
    hide LatchesFor, Wanted, Processed;
    if a.Process? {
      ProcessedFollows(s.log.processed, s.pc.held);
    }
  }

  lemma {:induction false} RunKeepsInv(run: seq<State>, acts: seq<Action>, i: nat)
    requires IsRun(run, acts) && i < |run|
    ensures Inv(run[i])
  {
    if i == 0 {
    } else {
      RunKeepsInv(run, acts, i - 1);
      StepKeepsInv(run[i - 1], acts[i - 1]);
    }
  }

  /** The messages a schedule enqueues. */
  function EnqueuedBy(acts: seq<Action>): seq<Message> {
    if acts == [] then []
    else EnqueuedBy(acts[..|acts| - 1]) + match acts[|acts| - 1] case Enqueue(m) => [m] case _ => []
  }

  lemma {:induction false} RunEnqueues(run: seq<State>, acts: seq<Action>, i: nat)
    requires IsRun(run, acts) && i < |run|
    ensures run[i].log.enqueued == EnqueuedBy(acts[..i])
  {
    if i == 0 {
    } else {
      RunEnqueues(run, acts, i - 1);
      assert acts[..i][..i - 1] == acts[..i - 1];
    }
  }

  /** In every run the requests made so far are those of the messages enqueued first, as many as
      were processed: enqueued == processed + held + queued. */
  lemma RequestsFollowMessages(run: seq<State>, acts: seq<Action>, i: nat)
    requires IsRun(run, acts) && i < |run|
    ensures var s, sent := run[i], EnqueuedBy(acts[..i]);
            && sent == s.log.processed + Held(s.pc) + s.queue
            && s.log.requests == Wanted(sent[..|s.log.processed|])
  {
    RunKeepsInv(run, acts, i);
    RunEnqueues(run, acts, i);
    var s := run[i];
    assert (s.log.processed + Held(s.pc) + s.queue)[..|s.log.processed|] == s.log.processed;
  }

  /** When a poll ends, every message enqueued by then has been processed. */
  lemma EndedPollHasDrained(run: seq<State>, acts: seq<Action>, i: nat)
    requires IsRun(run, acts) && i < |acts| && acts[i].Dequeue? && run[i + 1].pc.Idle?
    ensures run[i + 1].log.processed == EnqueuedBy(acts[..i + 1])
    ensures run[i + 1].log.requests == Wanted(EnqueuedBy(acts[..i + 1]))
  {
    RequestsFollowMessages(run, acts, i + 1);
    RunKeepsInv(run, acts, i + 1);
  }

  /** Two schedules that have processed as many of the same messages have asked for the same. */
  lemma ScheduleDoesNotMatter(run: seq<State>, acts: seq<Action>, i: nat, run': seq<State>, acts': seq<Action>, i': nat)
    requires IsRun(run, acts) && i < |run| && IsRun(run', acts') && i' < |run'|
    requires EnqueuedBy(acts[..i]) == EnqueuedBy(acts'[..i']) && |run[i].log.processed| == |run'[i'].log.processed|
    ensures run[i].log.requests == run'[i'].log.requests && run[i].latches == run'[i'].latches
  {
    RequestsFollowMessages(run, acts, i);
    RequestsFollowMessages(run', acts', i');
    RunKeepsInv(run, acts, i);
    RunKeepsInv(run', acts', i');
    assert run[i].log.processed == EnqueuedBy(acts[..i])[..|run[i].log.processed|];
    assert run'[i'].log.processed == EnqueuedBy(acts'[..i'])[..|run'[i'].log.processed|];
  }

  // ---------- A poll that is not interleaved ----------

  function Drained(s: State, vd: VideoDevice): State
    requires s.pc.Looking?
    decreases |s.queue|
  {
    if s.queue == [] then Step(s, Dequeue) else Drained(Step(Step(s, Dequeue), Process(vd)), vd)
  }

  lemma {:induction false} PollDrains(s: State, vd: VideoDevice)
    requires Inv(s) && s.pc.Looking?
    ensures var r := Drained(s, vd);
            Inv(r) && r.pc.Idle? && r.queue == [] && r.log.processed == r.log.enqueued == s.log.enqueued
    decreases |s.queue|
  {
    hide Inv;
    StepKeepsInv(s, Dequeue);
    if s.queue != [] {
      StepKeepsInv(Step(s, Dequeue), Process(vd));
      PollDrains(Step(Step(s, Dequeue), Process(vd)), vd);
    } else {
      InvProcesses(s);
    }
  }

  lemma InvProcesses(s: State)
    requires Inv(s)
    ensures s.log.enqueued == s.log.processed + Held(s.pc) + s.queue
  {
  }

  /** Some request from number n on is for a control the camera has. */
  predicate SomeApplied(requests: seq<Request>, n: nat, vd: VideoDevice) {
    exists k :: n <= k < |requests| && requests[k].name in vd.integerControls
  }

  lemma ProcessAnswers(s: State, vd: VideoDevice)
    requires s.pc.Holding?
    ensures var r, n := StepProcess(s, vd), |s.log.requests|;
            && s.log.requests <= r.log.requests && |r.log.requests| <= n + 1
            && (r.changed <==> s.changed || (|r.log.requests| > n && r.log.requests[n].name in vd.integerControls))
  {
  }

  /** A poll reports a change exactly when the camera has the control of some request it made. */
  lemma {:induction false} PollAnswers(s: State, vd: VideoDevice)
    requires s.pc.Looking?
    ensures var r := Drained(s, vd);
            && s.log.requests <= r.log.requests
            && (r.changed <==> s.changed || SomeApplied(r.log.requests, |s.log.requests|, vd))
    decreases |s.queue|
  {
    if s.queue == [] {
    } else {
      var held := Step(s, Dequeue);
      var next := Step(held, Process(vd));
      ProcessAnswers(held, vd);
      PollAnswers(next, vd);
      hide StepProcess, Drained;
      var n, m, all := |s.log.requests|, |next.log.requests|, Drained(next, vd).log.requests;
      assert forall k | n <= k < m :: all[k] == next.log.requests[k];
      if m > n && next.log.requests[n].name in vd.integerControls {
        assert all[n].name in vd.integerControls;
      }
    }
  }
}

/** The hand-off of three frame buffers between the decoding thread and the display thread
    (src/display.c, called from src/jpeg_dec_main.c).

    Every access to the two queues happens under one mutex, so each critical section, up to
    its unlock or its condition wait, is one atomic step. Waking from a wait is a step of its
    own: the thread may be woken by a signal or, where the scheduler allows it, spuriously. */
module TripleBuffer {
  import opened CTypes

  // ---------- The three-slot queues ----------

  /** A `buffer_t`: three buffer numbers, 0 marking an empty slot. */
  datatype Slots = Slots(first: uint8, second: uint8, third: uint8)

  function Forwarded(q: Slots): Slots {
    Slots(q.second, q.third, 0)
  }

  function WithPut(q: Slots, data: uint8): Slots {
    if q.first == 0 then q.(first := data)
    else if q.second == 0 then q.(second := data)
    else if q.third == 0 then q.(third := data)
    else q
  }

  /** No empty slot stands before an occupied one. */
  predicate Packed(q: Slots) {
    (q.first == 0 ==> q.second == 0) && (q.second == 0 ==> q.third == 0)
  }

  /** The queue a packed slot array stands for. */
  function Queued(q: Slots): seq<uint8> {
    if q.first == 0 then []
    else if q.second == 0 then [q.first]
    else if q.third == 0 then [q.first, q.second]
    else [q.first, q.second, q.third]
  }

  /** `forward` dequeues the head; on an empty queue it changes nothing. */
  lemma ForwardDequeues(q: Slots)
    requires Packed(q)
    ensures Packed(Forwarded(q))
    ensures q.first == 0 ==> Forwarded(q) == q
    ensures q.first != 0 ==> Queued(q) == [q.first] + Queued(Forwarded(q))
  {
  }

  /** `put` appends a buffer while a slot is empty, and drops it exactly when the queue is full. */
  lemma PutEnqueues(q: Slots, data: uint8)
    requires Packed(q)
    ensures Packed(WithPut(q, data))
    ensures data == 0 ==> WithPut(q, data) == q
    ensures data != 0 ==> (Queued(WithPut(q, data)) == Queued(q) + [data] <==> q.third == 0)
  {
    if data != 0 && q.third != 0 {
      assert |Queued(WithPut(q, data))| == 3;
    }
  }

  // ---------- The transition system ----------

  /** Where the decoding thread is: before `get_buffer_number`, blocked in its wait, or holding
      the buffer it was handed, until `put_buffer`. */
  datatype WriterPc = Ready | AwaitBuffer(signalled: bool) | Decoding(buffer: uint8)

  /** Where the display thread is in its loop: at the top, blocked in its wait, before the two
      plane switches, or before the release of the replaced buffer. */
  datatype DisplayPc = LoopTop | AwaitFrame(signalled: bool) | SwitchHdmi | SwitchComposite | ReleasePrevious

  /** Which of the two planes the hardware offers. */
  datatype Outputs = Outputs(hdmi: bool, composite: bool)

  datatype State = State(
    displaySlots: Slots,
    availableSlots: Slots,
    writer: WriterPc,
    display: DisplayPc,
    displayBuffer: uint8,
    prevDisplayBuffer: uint8,
    hdmiPlane: uint8,
    compositePlane: uint8)

  datatype Action =
    | GetBuffer | WakeWriter | SpuriousWriter | PutBuffer
    | TakeFrame | WakeDisplay | SpuriousDisplay
    | ShowHdmi | ShowComposite | Release

  /** The queues as `init_display` leaves them, both threads at their first step. */
  function InitialState(): State {
    State(Slots(1, 0, 0), Slots(2, 3, 0), Ready, LoopTop, 0, 0, 0, 0)
  }

  predicate Enabled(s: State, a: Action) {
    match a
    case GetBuffer => s.writer == Ready
    case WakeWriter => s.writer == AwaitBuffer(true)
    case SpuriousWriter => s.writer == AwaitBuffer(false)
    case PutBuffer => s.writer.Decoding?
    case TakeFrame => s.display == LoopTop
    case WakeDisplay => s.display == AwaitFrame(true)
    case SpuriousDisplay => s.display == AwaitFrame(false)
    case ShowHdmi => s.display == SwitchHdmi
    case ShowComposite => s.display == SwitchComposite
    case Release => s.display == ReleasePrevious
  }

  /** The tail of `get_buffer_number`: hand out the head of the available queue, whatever it is. */
  function HandOut(s: State): State {
    s.(availableSlots := Forwarded(s.availableSlots), writer := Decoding(s.availableSlots.first))
  }

  function StepGet(s: State): State {
    if s.availableSlots.first != 0 then HandOut(s)
    else if s.displaySlots.first != 0 then s.(writer := AwaitBuffer(false))
    else s.(writer := Decoding(0))
  }

  function StepPut(s: State): State
    requires s.writer.Decoding?
  {
    s.(displaySlots := WithPut(s.displaySlots, s.writer.buffer),
       writer := Ready,
       display := if s.display.AwaitFrame? then AwaitFrame(true) else s.display)
  }

  /** The display thread's critical section after the wait: take a frame if there is one. */
  function TakeIfAny(s: State): State {
    if s.displaySlots.first != 0 then
      s.(prevDisplayBuffer := s.displayBuffer,
         displayBuffer := s.displaySlots.first,
         displaySlots := Forwarded(s.displaySlots),
         display := SwitchHdmi)
    else
      s.(display := ReleasePrevious)
  }

  function StepTake(s: State): State {
    if s.displaySlots.first == 0 then s.(display := AwaitFrame(false)) else TakeIfAny(s)
  }

  function StepRelease(s: State): State {
    if s.prevDisplayBuffer == 0 then s.(display := LoopTop)
    else s.(availableSlots := WithPut(s.availableSlots, s.prevDisplayBuffer),
            writer := if s.writer.AwaitBuffer? then AwaitBuffer(true) else s.writer,
            prevDisplayBuffer := 0,
            display := LoopTop)
  }

  function Step(o: Outputs, s: State, a: Action): State
    requires Enabled(s, a)
  {
    match a
    case GetBuffer => StepGet(s)
    case WakeWriter => HandOut(s)
    case SpuriousWriter => HandOut(s)
    case PutBuffer => StepPut(s)
    case TakeFrame => StepTake(s)
    case WakeDisplay => TakeIfAny(s)
    case SpuriousDisplay => TakeIfAny(s)
    case ShowHdmi => s.(hdmiPlane := if o.hdmi then s.displayBuffer else s.hdmiPlane, display := SwitchComposite)
    case ShowComposite =>
      s.(compositePlane := if o.composite then s.displayBuffer else s.compositePlane, display := ReleasePrevious)
    case Release => StepRelease(s)
  }

  function Present(b: uint8): seq<uint8> {
    if b == 0 then [] else [b]
  }

  /** What `get_buffer_number` has returned so far, and the buffers handed over at each of the four
      hand-offs, oldest first. */
  datatype History = History(
    results: seq<uint8>, gets: seq<uint8>, puts: seq<uint8>, shown: seq<uint8>, released: seq<uint8>)

  /** The number a step returns from `get_buffer_number`, 0 included, if it returns. */
  function Returned(s: State, a: Action): seq<uint8>
    requires Enabled(s, a)
  {
    match a
    case GetBuffer =>
      if s.availableSlots.first != 0 || s.displaySlots.first == 0 then [s.availableSlots.first] else []
    case WakeWriter => [s.availableSlots.first]
    case SpuriousWriter => [s.availableSlots.first]
    case _ => []
  }

  function Record(s: State, a: Action, h: History): History
    requires Enabled(s, a)
  {
    match a
    case GetBuffer => h.(results := h.results + Returned(s, a), gets := h.gets + Present(s.availableSlots.first))
    case WakeWriter => h.(results := h.results + Returned(s, a), gets := h.gets + Present(s.availableSlots.first))
    case SpuriousWriter => h.(results := h.results + Returned(s, a), gets := h.gets + Present(s.availableSlots.first))
    case PutBuffer => h.(puts := h.puts + Present(s.writer.buffer))
    case TakeFrame => h.(shown := h.shown + Present(s.displaySlots.first))
    case WakeDisplay => h.(shown := h.shown + Present(s.displaySlots.first))
    case SpuriousDisplay => h.(shown := h.shown + Present(s.displaySlots.first))
    case ShowHdmi => h
    case ShowComposite => h
    case Release => h.(released := h.released + Present(s.prevDisplayBuffer))
  }

  datatype System = System(state: State, log: History)

  function InitialSystem(): System {
    System(InitialState(), History([], [], [], [], []))
  }

  function Next(o: Outputs, y: System, a: Action): System
    requires Enabled(y.state, a)
  {
    System(Step(o, y.state, a), Record(y.state, a, y.log))
  }

  /** `run` is an interleaving of the two threads taking the actions `acts`. */
  ghost predicate IsRun(o: Outputs, run: seq<System>, acts: seq<Action>) {
    && |run| == |acts| + 1
    && run[0] == InitialSystem()
    && forall i | 0 <= i < |acts| :: Enabled(run[i].state, acts[i]) && run[i + 1] == Next(o, run[i], acts[i])
  }

  predicate IsSpurious(a: Action) {
    a == SpuriousWriter || a == SpuriousDisplay
  }

  ghost predicate NoSpuriousWakeUps(acts: seq<Action>) {
    forall i | 0 <= i < |acts| :: !IsSpurious(acts[i])
  }

  // ---------- The line of buffers, under any wake-ups ----------

  function Held(s: State): uint8 {
    if s.writer.Decoding? then s.writer.buffer else 0
  }

  /** The buffers that the writer does not hold. */
  function Front(s: State): seq<uint8> {
    Queued(s.availableSlots) + Present(s.prevDisplayBuffer) + Present(s.displayBuffer) + Queued(s.displaySlots)
  }

  /** All buffers, in the order in which the writer will be handed them: the available queue,
      the buffer about to be released, the one on screen, the display queue, the held one. */
  function Line(s: State): seq<uint8> {
    Front(s) + Present(Held(s))
  }

  /** The n-th buffer of the endless sequence 2, 3, 1, 2, 3, 1, ... */
  function Turn(n: nat): uint8 {
    if n % 3 == 0 then 2 else if n % 3 == 1 then 3 else 1
  }

  predicate Owned(s: State, n: nat) {
    && Packed(s.displaySlots)
    && Packed(s.availableSlots)
    && Line(s) == [Turn(n), Turn(n + 1), Turn(n + 2)]
  }

  lemma TurnComesRound(n: nat)
    ensures Turn(n + 3) == Turn(n)
  {
  }

  /** Handing out a buffer moves the head of the line to its end. */
  lemma HandOutTurnsLine(s: State, n: nat)
    requires Owned(s, n) && Held(s) == 0
    ensures Owned(HandOut(s), if s.availableSlots.first == 0 then n else n + 1)
    ensures s.availableSlots.first != 0 ==> s.availableSlots.first == Turn(n)
  {
    hide Turn, Packed;
    ForwardDequeues(s.availableSlots);
    if s.availableSlots.first != 0 {
      TurnComesRound(n);
      var rest := Queued(Forwarded(s.availableSlots)) + Present(s.prevDisplayBuffer)
                  + Present(s.displayBuffer) + Queued(s.displaySlots);
      assert Line(s) == [s.availableSlots.first] + rest;
      assert s.availableSlots.first == Line(s)[0] && rest == Line(s)[1..];
      assert Line(HandOut(s)) == rest + [s.availableSlots.first];
    }
  }

  lemma PutKeepsLine(s: State, n: nat)
    requires Owned(s, n) && s.writer.Decoding?
    ensures Held(s) != 0 ==> s.displaySlots.third == 0
    ensures Owned(StepPut(s), n)
  {
    PutEnqueues(s.displaySlots, Held(s));
    if Held(s) != 0 {
      assert |Line(s)| == 3;
      assert Line(StepPut(s)) == Line(s);
    }
  }

  lemma TakeKeepsLine(s: State, n: nat)
    requires Owned(s, n) && s.prevDisplayBuffer == 0
    ensures Owned(TakeIfAny(s), n)
  {
    ForwardDequeues(s.displaySlots);
    if s.displaySlots.first != 0 {
      assert Line(TakeIfAny(s)) == Line(s);
    }
  }

  lemma ReleaseKeepsLine(s: State, n: nat)
    requires Owned(s, n)
    ensures s.prevDisplayBuffer != 0 ==> s.availableSlots.third == 0
    ensures Owned(StepRelease(s), n)
  {
    PutEnqueues(s.availableSlots, s.prevDisplayBuffer);
    if s.prevDisplayBuffer != 0 {
      assert |Line(s)| == 3;
      var available := Queued(s.availableSlots) + Present(s.prevDisplayBuffer);
      assert Queued(StepRelease(s).availableSlots) == available;
      assert available + [] == available;
    }
  }

  /** What each plane shows, at each point of the display loop. */
  predicate PlanesFollow(o: Outputs, s: State) {
    && s.hdmiPlane == (if !o.hdmi then 0 else if s.display == SwitchHdmi then s.prevDisplayBuffer else s.displayBuffer)
    && s.compositePlane == (if !o.composite then 0
                            else if s.display == SwitchHdmi || s.display == SwitchComposite then s.prevDisplayBuffer
                            else s.displayBuffer)
  }

  /** The control part of the invariant: who may be where, and what a wait or a signal implies. */
  predicate ControlInv(s: State) {
    && (s.prevDisplayBuffer != 0 ==> s.display.SwitchHdmi? || s.display.SwitchComposite? || s.display.ReleasePrevious?)
    && (s.displayBuffer == 0 ==> s.display == LoopTop && s.displaySlots.first != 0 && s.prevDisplayBuffer == 0)
    && (s.writer.AwaitBuffer? ==> (s.writer.signalled <==> s.availableSlots.first != 0))
    && (s.display == AwaitFrame(false) ==> s.displaySlots.first == 0)
  }

  /** The inductive invariant of every run, spurious wake-ups included. */
  predicate Inv(o: Outputs, y: System) {
    && Owned(y.state, |y.log.gets|)
    && PlanesFollow(o, y.state)
    && ControlInv(y.state)
  }

  /** Waiting, waking and switching planes leave every buffer where it is. */
  lemma SameLine(s: State, t: State, n: nat)
    requires Owned(s, n) && t.displaySlots == s.displaySlots && t.availableSlots == s.availableSlots
    requires t.displayBuffer == s.displayBuffer && t.prevDisplayBuffer == s.prevDisplayBuffer && Held(t) == Held(s)
    ensures Owned(t, n)
  {
  }

  lemma StepKeepsLine(o: Outputs, s: State, h: History, a: Action)
    requires Owned(s, |h.gets|) && ControlInv(s) && Enabled(s, a)
    ensures Owned(Step(o, s, a), |Record(s, a, h).gets|)
  {
    hide Owned;
    match a {
      case GetBuffer =>
        HandOutTurnsLine(s, |h.gets|);
        if s.availableSlots.first == 0 {
          SameLine(s, Step(o, s, a), |h.gets|);
        }
      case WakeWriter => HandOutTurnsLine(s, |h.gets|);
      case SpuriousWriter => HandOutTurnsLine(s, |h.gets|);
      case PutBuffer => PutKeepsLine(s, |h.gets|);
      case TakeFrame =>
        TakeKeepsLine(s, |h.gets|);
        if s.displaySlots.first == 0 {
          SameLine(s, Step(o, s, a), |h.gets|);
        }
      case WakeDisplay => TakeKeepsLine(s, |h.gets|);
      case SpuriousDisplay => TakeKeepsLine(s, |h.gets|);
      case ShowHdmi => SameLine(s, Step(o, s, a), |h.gets|);
      case ShowComposite => SameLine(s, Step(o, s, a), |h.gets|);
      case Release => ReleaseKeepsLine(s, |h.gets|);
    }
  }

  lemma StepKeepsControl(o: Outputs, s: State, a: Action)
    requires ControlInv(s) && PlanesFollow(o, s) && Enabled(s, a)
    requires a == Release && s.prevDisplayBuffer != 0 ==> s.availableSlots.third == 0
    ensures ControlInv(Step(o, s, a)) && PlanesFollow(o, Step(o, s, a))
  {
    match a {
      case GetBuffer =>
      case WakeWriter =>
      case SpuriousWriter =>
      case PutBuffer =>
      case TakeFrame =>
      case WakeDisplay =>
      case SpuriousDisplay =>
      case ShowHdmi =>
      case ShowComposite =>
      case Release =>
    }
  }

  lemma StepKeepsInv(o: Outputs, y: System, a: Action)
    requires Inv(o, y) && Enabled(y.state, a)
    ensures Inv(o, Next(o, y, a))
  {
    if a == Release {
      ReleaseKeepsLine(y.state, |y.log.gets|);
    }
    StepKeepsLine(o, y.state, y.log, a);
    StepKeepsControl(o, y.state, a);
  }

  lemma {:induction false} RunKeepsInv(o: Outputs, run: seq<System>, acts: seq<Action>, i: nat)
    requires IsRun(o, run, acts) && i < |run|
    ensures Inv(o, run[i])
  {
    if i == 0 {
    } else {
      RunKeepsInv(o, run, acts, i - 1);
      StepKeepsInv(o, run[i - 1], acts[i - 1]);
    }
  }

  // ---------- Ownership ----------

  /** In every reachable state, spurious wake-ups or not, the two queues, the buffer on screen,
      the one about to be released and the held one are together a permutation of 1, 2, 3. */
  lemma BuffersArePermutation(o: Outputs, run: seq<System>, acts: seq<Action>, i: nat)
    requires IsRun(o, run, acts) && i < |run|
    ensures multiset(Line(run[i].state)) == multiset{1, 2, 3}
  {
    RunKeepsInv(o, run, acts, i);
    TurnBag(|run[i].log.gets|);
  }

  lemma TurnBag(n: nat)
    ensures multiset([Turn(n), Turn(n + 1), Turn(n + 2)]) == multiset{1, 2, 3}
  {
    RotationBags();
    assert [Turn(n), Turn(n + 1), Turn(n + 2)]
           == if n % 3 == 0 then [2, 3, 1] else if n % 3 == 1 then [3, 1, 2] else [1, 2, 3];
  }

  lemma RotationBags()
    ensures multiset([2, 3, 1]) == multiset{1, 2, 3}
    ensures multiset([3, 1, 2]) == multiset{1, 2, 3}
    ensures multiset([1, 2, 3]) == multiset{1, 2, 3}
  {
  }

  /** `put` never drops a buffer: both queues receive what is put into them, in order. */
  lemma PutNeverDrops(o: Outputs, run: seq<System>, acts: seq<Action>, i: nat)
    requires IsRun(o, run, acts) && i < |acts|
    ensures acts[i] == PutBuffer ==>
              Queued(run[i + 1].state.displaySlots) == Queued(run[i].state.displaySlots) + Present(Held(run[i].state))
    ensures acts[i] == Release ==>
              Queued(run[i + 1].state.availableSlots)
              == Queued(run[i].state.availableSlots) + Present(run[i].state.prevDisplayBuffer)
  {
    RunKeepsInv(o, run, acts, i);
    var s := run[i].state;
    if acts[i] == PutBuffer {
      PutKeepsLine(s, |run[i].log.gets|);
      PutEnqueues(s.displaySlots, Held(s));
    } else if acts[i] == Release {
      ReleaseKeepsLine(s, |run[i].log.gets|);
      PutEnqueues(s.availableSlots, s.prevDisplayBuffer);
    }
  }

  // ---------- Progress, under any wake-ups ----------

  /** A buffer is always available, queued for display or held. */
  lemma SomethingToDo(s: State, n: nat)
    requires Owned(s, n) && (s.prevDisplayBuffer == 0 || s.displayBuffer != 0)
    ensures s.availableSlots.first != 0 || s.displaySlots.first != 0 || Held(s) != 0
  {
    assert |Line(s)| == 3;
  }

  /** A writer that finds no available buffer always finds one queued for display, so the
      "Failed to dequeue" branch is dead; and the two threads never both wait unsignalled. */
  lemma NoFailureNoDeadlock(o: Outputs, run: seq<System>, acts: seq<Action>, i: nat)
    requires IsRun(o, run, acts) && i < |run|
    ensures run[i].state.writer == Ready ==>
              run[i].state.availableSlots.first != 0 || run[i].state.displaySlots.first != 0
    ensures exists a :: Enabled(run[i].state, a) && !IsSpurious(a)
  {
    RunKeepsInv(o, run, acts, i);
    var s := run[i].state;
    SomethingToDo(s, |run[i].log.gets|);
    match s.writer {
      case Ready => assert Enabled(s, GetBuffer);
      case Decoding(_) => assert Enabled(s, PutBuffer);
      case AwaitBuffer(w) =>
        if w {
          assert Enabled(s, WakeWriter);
        } else {
          DisplayCanMove(s);
        }
    }
  }

  /** While frames are queued, the display thread has a step to take. */
  lemma DisplayCanMove(s: State)
    requires ControlInv(s) && s.displaySlots.first != 0
    ensures exists a :: Enabled(s, a) && !IsSpurious(a)
  {
    match s.display {
      case LoopTop => assert Enabled(s, TakeFrame);
      case AwaitFrame(f) => assert Enabled(s, WakeDisplay);
      case SwitchHdmi => assert Enabled(s, ShowHdmi);
      case SwitchComposite => assert Enabled(s, ShowComposite);
      case ReleasePrevious => assert Enabled(s, Release);
    }
  }

  // ---------- Exclusion ----------

  /** The buffer whose addresses `get_buffer` selects for a handed-out number. */
  function Target(writeBuffer: uint8): uint8 {
    if writeBuffer == 2 then 2 else if writeBuffer == 3 then 3 else 1
  }

  /** Buffer `b` is not on a plane, not about to be shown, not queued for display, and not
      still to be given back by the display thread. */
  predicate Excluded(s: State, b: uint8) {
    && b != s.displaySlots.first && b != s.displaySlots.second && b != s.displaySlots.third
    && b != s.displayBuffer && b != s.prevDisplayBuffer
    && b != s.hdmiPlane && b != s.compositePlane
  }

  /** Where a buffer stands in the line tells who has it. */
  lemma LineIsDistinct(s: State, n: nat)
    requires Owned(s, n)
    ensures forall j, k | 0 <= j < k < 3 :: Line(s)[j] != Line(s)[k]
    ensures forall j | 0 <= j < 3 :: 1 <= Line(s)[j] <= 3
  {
    hide Line, Packed;
    if n % 3 == 0 {
      assert Line(s) == [2, 3, 1];
    } else if n % 3 == 1 {
      assert Line(s) == [3, 1, 2];
    } else {
      assert Line(s) == [1, 2, 3];
    }
  }

  lemma HeldIsExcluded(o: Outputs, y: System)
    requires Inv(o, y) && Held(y.state) != 0
    ensures Target(Held(y.state)) == Held(y.state) && Excluded(y.state, Held(y.state))
  {
    var s := y.state;
    LineIsDistinct(s, |y.log.gets|);
    var front := Front(s);
    assert Line(s) == front + [Held(s)];
    assert |front| == 2 && Line(s)[2] == Held(s);
    assert front == [Line(s)[0], Line(s)[1]];
    NotInFront(s, front, Held(s));
  }

  lemma NotInFront(s: State, front: seq<uint8>, b: uint8)
    requires Packed(s.displaySlots) && b != 0 && b !in front
    requires front == Front(s)
    ensures b != s.displaySlots.first && b != s.displaySlots.second && b != s.displaySlots.third
    ensures b != s.displayBuffer && b != s.prevDisplayBuffer
  {
    assert b !in Queued(s.displaySlots) && b !in Present(s.displayBuffer) && b !in Present(s.prevDisplayBuffer);
  }

  /** A writer that was handed a buffer decodes into one the display side does not touch. */
  lemma DecodingIsExcluded(o: Outputs, run: seq<System>, acts: seq<Action>, i: nat)
    requires IsRun(o, run, acts) && i < |run|
    requires Held(run[i].state) != 0
    ensures Excluded(run[i].state, Target(Held(run[i].state)))
  {
    RunKeepsInv(o, run, acts, i);
    HeldIsExcluded(o, run[i]);
  }

  /** With nothing available and nothing held, the display side has all three buffers. */
  lemma DisplaySideHasAll(s: State, n: nat)
    requires Owned(s, n) && s.availableSlots.first == 0 && Held(s) == 0
    ensures !Excluded(s, 1)
  {
    assert 1 in Line(s) by {
      assert Line(s)[0] == 1 || Line(s)[1] == 1 || Line(s)[2] == 1;
    }
    assert Line(s) == Present(s.prevDisplayBuffer) + Present(s.displayBuffer) + Queued(s.displaySlots);
  }

  /** Handing out a buffer respects exclusion exactly when the available queue is not empty at
      that moment, which re-checking it after the wait would have ensured. */
  lemma HandOutExcludedIff(o: Outputs, run: seq<System>, acts: seq<Action>, i: nat)
    requires IsRun(o, run, acts) && i < |acts|
    requires run[i + 1].state.writer.Decoding? && !run[i].state.writer.Decoding?
    ensures Excluded(run[i + 1].state, Target(Held(run[i + 1].state))) <==> run[i].state.availableSlots.first != 0
  {
    RunKeepsInv(o, run, acts, i);
    RunKeepsInv(o, run, acts, i + 1);
    HandOutExclusion(o, run[i], acts[i], run[i + 1]);
  }

  lemma HandOutExclusion(o: Outputs, y: System, a: Action, z: System)
    requires Inv(o, y) && Enabled(y.state, a) && z == Next(o, y, a) && Inv(o, z)
    requires z.state.writer.Decoding? && !y.state.writer.Decoding?
    ensures Excluded(z.state, Target(Held(z.state))) <==> y.state.availableSlots.first != 0
  {
    assert Held(z.state) == y.state.availableSlots.first;
    ForwardDequeues(y.state.availableSlots);
    if Held(z.state) != 0 {
      HeldIsExcluded(o, z);
    } else {
      DisplaySideHasAll(z.state, |z.log.gets|);
    }
  }

  /** A replaced buffer is given back only once neither plane shows it. */
  lemma ReleasedIsOffScreen(o: Outputs, run: seq<System>, acts: seq<Action>, i: nat)
    requires IsRun(o, run, acts) && i < |acts| && acts[i] == Release && run[i].state.prevDisplayBuffer != 0
    ensures run[i].state.prevDisplayBuffer != run[i + 1].state.hdmiPlane
    ensures run[i].state.prevDisplayBuffer != run[i + 1].state.compositePlane
    ensures run[i].state.prevDisplayBuffer in Queued(run[i + 1].state.availableSlots)
  {
    RunKeepsInv(o, run, acts, i);
    var s := run[i].state;
    PutNeverDrops(o, run, acts, i);
    LineIsDistinct(s, |run[i].log.gets|);
    ReplacedDiffers(s, |run[i].log.gets|);
  }

  lemma ReplacedDiffers(s: State, n: nat)
    requires Owned(s, n) && s.prevDisplayBuffer != 0 && s.displayBuffer != 0
    ensures s.prevDisplayBuffer != s.displayBuffer
  {
    var k := |Queued(s.availableSlots)|;
    assert Line(s)[k] == s.prevDisplayBuffer && Line(s)[k + 1] == s.displayBuffer;
  }

  // ---------- Order: first in first out, and the rotation ----------

  /** The histories account for the queues: both are first-in first-out, with their initial
      contents, and nothing is lost between one hand-off and the next. */
  predicate Coupled(y: System) {
    && y.log.shown + Queued(y.state.displaySlots) == [1] + y.log.puts
    && y.log.gets + Queued(y.state.availableSlots) == [2, 3] + y.log.released
    && y.log.puts + Present(Held(y.state)) == y.log.gets
    && y.log.released + Present(y.state.prevDisplayBuffer) + Present(y.state.displayBuffer) == y.log.shown
  }

  lemma HandOutKeepsCoupling(y: System)
    requires Packed(y.state.availableSlots) && Coupled(y) && Held(y.state) == 0
    ensures Coupled(System(HandOut(y.state), y.log.(gets := y.log.gets + Present(y.state.availableSlots.first))))
  {
    ForwardDequeues(y.state.availableSlots);
  }

  lemma PutKeepsCoupling(y: System)
    requires Packed(y.state.displaySlots) && Coupled(y) && y.state.writer.Decoding?
    requires Held(y.state) != 0 ==> y.state.displaySlots.third == 0
    ensures Coupled(System(StepPut(y.state), y.log.(puts := y.log.puts + Present(Held(y.state)))))
  {
    var q, h := y.state.displaySlots, Held(y.state);
    PutEnqueues(q, h);
    assert y.log.shown + (Queued(q) + Present(h)) == (y.log.shown + Queued(q)) + Present(h);
  }

  lemma TakeKeepsCoupling(y: System)
    requires Packed(y.state.displaySlots) && Coupled(y) && y.state.prevDisplayBuffer == 0
    ensures Coupled(System(TakeIfAny(y.state), y.log.(shown := y.log.shown + Present(y.state.displaySlots.first))))
  {
    ForwardDequeues(y.state.displaySlots);
  }

  lemma ReleaseKeepsCoupling(y: System)
    requires Packed(y.state.availableSlots) && Coupled(y)
    requires y.state.prevDisplayBuffer != 0 ==> y.state.availableSlots.third == 0
    ensures Coupled(System(StepRelease(y.state),
                           y.log.(released := y.log.released + Present(y.state.prevDisplayBuffer))))
  {
    var q, p := y.state.availableSlots, y.state.prevDisplayBuffer;
    PutEnqueues(q, p);
    assert y.log.gets + (Queued(q) + Present(p)) == (y.log.gets + Queued(q)) + Present(p);
  }

  lemma StepKeepsCoupling(o: Outputs, y: System, a: Action)
    requires Inv(o, y) && Coupled(y) && Enabled(y.state, a)
    ensures Coupled(Next(o, y, a))
  {
    match a {
      case GetBuffer => HandOutKeepsCoupling(y);
      case WakeWriter => HandOutKeepsCoupling(y);
      case SpuriousWriter => HandOutKeepsCoupling(y);
      case PutBuffer =>
        PutKeepsLine(y.state, |y.log.gets|);
        PutKeepsCoupling(y);
      case TakeFrame => TakeKeepsCoupling(y);
      case WakeDisplay => TakeKeepsCoupling(y);
      case SpuriousDisplay => TakeKeepsCoupling(y);
      case ShowHdmi =>
      case ShowComposite =>
      case Release =>
        ReleaseKeepsLine(y.state, |y.log.gets|);
        ReleaseKeepsCoupling(y);
    }
  }

  lemma {:induction false} RunIsCoupled(o: Outputs, run: seq<System>, acts: seq<Action>, i: nat)
    requires IsRun(o, run, acts) && i < |run|
    ensures Coupled(run[i])
  {
    if i == 0 {
    } else {
      RunIsCoupled(o, run, acts, i - 1);
      RunKeepsInv(o, run, acts, i - 1);
      StepKeepsCoupling(o, run[i - 1], acts[i - 1]);
    }
  }

  /** What is handed out next was handed out, shown and released three hand-outs before. */
  lemma GetsLag(y: System, n: nat)
    requires Coupled(y) && n < |y.log.gets|
    ensures n == 0 ==> y.log.gets[n] == 2
    ensures n == 1 ==> y.log.gets[n] == 3
    ensures n == 2 ==> y.log.gets[n] == 1
    ensures n >= 3 ==> y.log.gets[n] == y.log.gets[n - 3]
  {
    var h := y.log;
    assert h.gets[n] == ([2, 3] + h.released)[n];
    if n >= 2 {
      assert h.released[n - 2] == h.shown[n - 2];
      ShownLag(y, n - 2);
    }
  }

  lemma ShownLag(y: System, n: nat)
    requires Coupled(y) && n < |y.log.shown|
    ensures n == 0 ==> y.log.shown[n] == 1
    ensures n >= 1 ==> n - 1 < |y.log.gets| && y.log.shown[n] == y.log.gets[n - 1]
  {
    var h := y.log;
    assert h.shown[n] == ([1] + h.puts)[n];
    if n >= 1 {
      assert h.puts[n - 1] == (h.puts + Present(Held(y.state)))[n - 1];
    }
  }

  lemma {:induction false} GetsTurn(y: System, n: nat)
    requires Coupled(y) && n < |y.log.gets|
    ensures y.log.gets[n] == Turn(n)
  {
    GetsLag(y, n);
    if n < 3 {
    } else {
      GetsTurn(y, n - 3);
    }
  }

  lemma ShownTurn(y: System, n: nat)
    requires Coupled(y) && n < |y.log.shown|
    ensures y.log.shown[n] == Turn(n + 2)
  {
    ShownLag(y, n);
    if n > 0 {
      GetsTurn(y, n - 1);
    }
  }

  lemma CoupledRotates(y: System)
    requires Coupled(y)
    ensures forall n | 0 <= n < |y.log.gets| :: y.log.gets[n] == (n + 1) % 3 + 1
    ensures forall n | 0 <= n < |y.log.shown| :: y.log.shown[n] == n % 3 + 1
  {
    forall n | 0 <= n < |y.log.gets| ensures y.log.gets[n] == (n + 1) % 3 + 1 {
      GetsTurn(y, n);
    }
    forall n | 0 <= n < |y.log.shown| ensures y.log.shown[n] == n % 3 + 1 {
      ShownTurn(y, n);
    }
  }

  /** The frame of number n counted from the end of a sequence, 0 if there are not so many. */
  function FromEnd(frames: seq<uint8>, n: nat): uint8 {
    if n < |frames| then frames[|frames| - 1 - n] else 0
  }

  /** Every plane that the hardware offers shows the frame last taken from the display queue once it
      is switched, and the one before until then. */
  lemma PlanesShowLatest(o: Outputs, run: seq<System>, acts: seq<Action>, i: nat)
    requires IsRun(o, run, acts) && i < |run|
    ensures var s, shown := run[i].state, run[i].log.shown;
            && s.displayBuffer == FromEnd(shown, 0)
            && (o.hdmi ==> s.hdmiPlane == FromEnd(shown, if s.display == SwitchHdmi then 1 else 0))
            && (o.composite ==>
                  s.compositePlane
                  == FromEnd(shown, if s.display == SwitchHdmi || s.display == SwitchComposite then 1 else 0))
            && (!o.hdmi ==> s.hdmiPlane == 0) && (!o.composite ==> s.compositePlane == 0)
  {
    RunKeepsInv(o, run, acts, i);
    RunShows(o, run, acts, i);
  }

  lemma {:induction false} RunShows(o: Outputs, run: seq<System>, acts: seq<Action>, i: nat)
    requires IsRun(o, run, acts) && i < |run|
    ensures Shows(run[i])
  {
    if i == 0 {
    } else {
      hide Shows, Record, Step;
      RunShows(o, run, acts, i - 1);
      StepShows(o, run[i - 1], acts[i - 1]);
    }
  }

  /** The display thread's two locals are the ends of what it took. */
  predicate Shows(y: System) {
    && y.state.displayBuffer == FromEnd(y.log.shown, 0)
    && (y.state.display == SwitchHdmi || y.state.display == SwitchComposite ==>
          y.state.prevDisplayBuffer == FromEnd(y.log.shown, 1))
  }

  lemma StepShows(o: Outputs, y: System, a: Action)
    requires Shows(y) && Enabled(y.state, a)
    ensures Shows(Next(o, y, a))
  {
  }

  // ---------- Runs without spurious wake-ups ----------

  /** Every decode is into a real buffer, and every signal to the display thread announces a frame. */
  predicate Quiet(s: State) {
    && (s.writer.Decoding? ==> s.writer.buffer != 0)
    && (s.display == AwaitFrame(true) ==> s.displaySlots.first != 0)
  }

  lemma StepKeepsQuiet(o: Outputs, y: System, a: Action)
    requires Inv(o, y) && Quiet(y.state) && Enabled(y.state, a) && !IsSpurious(a)
    ensures Quiet(Step(o, y.state, a))
  {
    SomethingToDo(y.state, |y.log.gets|);
  }

  lemma {:induction false} QuietRun(o: Outputs, run: seq<System>, acts: seq<Action>, i: nat)
    requires IsRun(o, run, acts) && NoSpuriousWakeUps(acts) && i < |run|
    ensures Quiet(run[i].state)
  {
    if i == 0 {
    } else {
      QuietRun(o, run, acts, i - 1);
      RunKeepsInv(o, run, acts, i - 1);
      StepKeepsQuiet(o, run[i - 1], acts[i - 1]);
    }
  }

  /** Without spurious wake-ups every hand-out is of a real buffer, so decoding never touches
      a buffer of the display side, and a woken display thread always finds a frame. */
  lemma ExclusionHolds(o: Outputs, run: seq<System>, acts: seq<Action>, i: nat)
    requires IsRun(o, run, acts) && NoSpuriousWakeUps(acts) && i < |run|
    ensures run[i].state.writer.Decoding? ==> Excluded(run[i].state, Target(run[i].state.writer.buffer))
    ensures run[i].state.display == AwaitFrame(true) ==> run[i].state.displaySlots.first != 0
  {
    QuietRun(o, run, acts, i);
    if run[i].state.writer.Decoding? {
      DecodingIsExcluded(o, run, acts, i);
    }
  }

  // ---------- What the writer is handed ----------

  /** The results that are buffers. */
  function Real(results: seq<uint8>): seq<uint8> {
    if results == [] then [] else Real(results[..|results| - 1]) + Present(results[|results| - 1])
  }

  lemma RealAppend(results: seq<uint8>, r: uint8)
    ensures Real(results + [r]) == Real(results) + Present(r)
  {
    assert (results + [r])[..|results|] == results;
  }

  lemma StepReturns(o: Outputs, y: System, a: Action)
    requires Inv(o, y) && Enabled(y.state, a) && Real(y.log.results) == y.log.gets
    ensures var h := Record(y.state, a, y.log);
            Real(h.results) == h.gets && (y.log.results == y.log.gets && !IsSpurious(a) ==> h.results == h.gets)
  {
    SomethingToDo(y.state, |y.log.gets|);
    hide Owned, PlanesFollow, Real;
    match a
    case GetBuffer =>
      RealAppend(y.log.results, y.state.availableSlots.first);
      assert y.log.results + [] == y.log.results && y.log.gets + [] == y.log.gets;
    case WakeWriter => RealAppend(y.log.results, y.state.availableSlots.first);
    case SpuriousWriter => RealAppend(y.log.results, y.state.availableSlots.first);
    case _ =>
  }

  /** The buffers handed over are the results other than 0; a result of 0 takes a spurious wake-up. */
  lemma {:induction false} RunResults(o: Outputs, run: seq<System>, acts: seq<Action>, i: nat)
    requires IsRun(o, run, acts) && i < |run|
    ensures Real(run[i].log.results) == run[i].log.gets
    ensures NoSpuriousWakeUps(acts) ==> run[i].log.results == run[i].log.gets
  {
    if i == 0 {
    } else {
      hide Inv, Record, Step, Enabled, Real;
      RunResults(o, run, acts, i - 1);
      RunKeepsInv(o, run, acts, i - 1);
      StepReturns(o, run[i - 1], acts[i - 1]);
    }
  }

  /** Whatever the schedule and the wake-ups, the buffers handed to the writer are
      2, 3, 1, 2, 3, 1, ... and the screen shows 1, 2, 3, 1, 2, 3, ... Without spurious wake-ups
      these buffers are all that `get_buffer_number` returns. */
  lemma Rotation(o: Outputs, run: seq<System>, acts: seq<Action>, i: nat)
    requires IsRun(o, run, acts) && i < |run|
    ensures var buffers := Real(run[i].log.results);
            forall n | 0 <= n < |buffers| :: buffers[n] == (n + 1) % 3 + 1
    ensures forall n | 0 <= n < |run[i].log.shown| :: run[i].log.shown[n] == n % 3 + 1
    ensures NoSpuriousWakeUps(acts) ==>
              forall n | 0 <= n < |run[i].log.results| :: run[i].log.results[n] == (n + 1) % 3 + 1
  {
    hide Coupled, IsRun;
    RunIsCoupled(o, run, acts, i);
    CoupledRotates(run[i]);
    RunResults(o, run, acts, i);
  }

  // ---------- Bounded wait ----------

  /** How many more frames the display thread must take before it releases one. */
  function TakesLeft(s: State): nat {
    if s.prevDisplayBuffer != 0 then 0 else if s.displayBuffer != 0 then 1 else 2
  }

  /** How many more display steps there are before the writer is signalled. */
  function StepsLeft(s: State): nat {
    4 * TakesLeft(s) + match s.display {
      case LoopTop => 0
      case AwaitFrame(_) => 0
      case SwitchHdmi => 3
      case SwitchComposite => 2
      case ReleasePrevious => 1
    }
  }

  predicate IsTake(a: Action) {
    a == TakeFrame || a == WakeDisplay
  }

  /** The number of frames taken by the actions from i up to j. */
  function Takes(acts: seq<Action>, i: nat, j: nat): nat
    requires i <= j <= |acts|
  {
    if i == j then 0 else Takes(acts, i, j - 1) + if IsTake(acts[j - 1]) then 1 else 0
  }

  lemma WaitingStep(o: Outputs, y: System, a: Action, t: State)
    requires Inv(o, y) && Enabled(y.state, a) && !IsSpurious(a) && t == Step(o, y.state, a)
    requires y.state.writer == AwaitBuffer(false) && t.writer == AwaitBuffer(false)
    ensures StepsLeft(t) == StepsLeft(y.state) - 1
    ensures TakesLeft(t) == TakesLeft(y.state) - if IsTake(a) then 1 else 0
  {
    SomethingToDo(y.state, |y.log.gets|);
  }

  lemma WaitingBounds(o: Outputs, y: System)
    requires Inv(o, y) && y.state.writer == AwaitBuffer(false)
    ensures 1 <= StepsLeft(y.state) <= 8 && y.state.displaySlots.first != 0
  {
    SomethingToDo(y.state, |y.log.gets|);
  }

  lemma {:induction false} WaitingStretch(o: Outputs, run: seq<System>, acts: seq<Action>, i: nat, j: nat)
    requires IsRun(o, run, acts) && NoSpuriousWakeUps(acts) && i <= j < |run|
    requires forall k | i <= k <= j :: run[k].state.writer == AwaitBuffer(false)
    ensures StepsLeft(run[j].state) == StepsLeft(run[i].state) - (j - i)
    ensures TakesLeft(run[j].state) == TakesLeft(run[i].state) - Takes(acts, i, j)
  {
    hide Inv, Record, Step, Enabled, StepsLeft, TakesLeft;
    if i == j {
    } else {
      WaitingStretch(o, run, acts, i, j - 1);
      RunKeepsInv(o, run, acts, j - 1);
      WaitingStep(o, run[j - 1], acts[j - 1], run[j].state);
    }
  }

  /** A stretch of a run, from i to j, in which the writer waits unsignalled is at most seven
      steps long and holds at most two dequeues by the display thread, two only before the
      first frame is taken; and the display thread can always continue it. */
  lemma BoundedWait(o: Outputs, run: seq<System>, acts: seq<Action>, i: nat, j: nat)
    requires IsRun(o, run, acts) && NoSpuriousWakeUps(acts) && i <= j < |run|
    requires forall k | i <= k <= j :: run[k].state.writer == AwaitBuffer(false)
    ensures j - i <= 7 && Takes(acts, i, j) <= if run[i].state.displayBuffer == 0 then 2 else 1
    ensures exists a :: Enabled(run[j].state, a) && !IsSpurious(a)
  {
    WaitingStretch(o, run, acts, i, j);
    RunKeepsInv(o, run, acts, i);
    RunKeepsInv(o, run, acts, j);
    WaitingBounds(o, run[i]);
    WaitingBounds(o, run[j]);
    DisplayCanMove(run[j].state);
  }

  // ---------- What a spurious wake-up breaks ----------

  /** A concrete run: two frames decoded before the first is taken, then a wait that ends
      without a signal. The writer is handed no buffer, so it decodes into buffer 1, which is
      queued for display and then shown while the writer is still decoding into it. */
  lemma SpuriousWakeUpBreaksExclusion(o: Outputs) returns (run: seq<System>, acts: seq<Action>)
    requires o.hdmi
    ensures IsRun(o, run, acts)
    ensures var s := run[|run| - 1].state;
            s.writer.Decoding? && Target(s.writer.buffer) == s.hdmiPlane
  {
    acts := [GetBuffer, PutBuffer, GetBuffer, PutBuffer, GetBuffer, SpuriousWriter, TakeFrame, ShowHdmi];
    var y0 := InitialSystem();
    var y1 := Next(o, y0, acts[0]);
    var y2 := Next(o, y1, acts[1]);
    var y3 := Next(o, y2, acts[2]);
    var y4 := Next(o, y3, acts[3]);
    var y5 := Next(o, y4, acts[4]);
    var y6 := Next(o, y5, acts[5]);
    var y7 := Next(o, y6, acts[6]);
    run := [y0, y1, y2, y3, y4, y5, y6, y7, Next(o, y7, acts[7])];
  }
}

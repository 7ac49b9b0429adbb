/** Setting the picture parameters while the display thread may still be bringing the display up
    (src/display.c: `set_drm_fcc`, `set_drm_bws`, `set_drm_lti` against the tail of
    `display_thread_loop`).

    Neither side takes a lock. Every access to a shared flag, every byte of a `memcpy` and every
    `ioctl` is one atomic step, and the steps of the two threads interleave in any sequentially
    consistent order. */
module DeferredControls {
  import opened CTypes

  datatype Param = Fcc | Bws | Lti

  /** One value of each parameter structure, as bytes. */
  datatype Params = Params(fcc: seq<uint8>, bws: seq<uint8>, lti: seq<uint8>) {
    function Get(p: Param): seq<uint8> {
      match p
      case Fcc => fcc
      case Bws => bws
      case Lti => lti
    }

    function With(p: Param, value: seq<uint8>): Params {
      match p
      case Fcc => this.(fcc := value)
      case Bws => this.(bws := value)
      case Lti => this.(lti := value)
    }
  }

  /** A setter: not in a call, copying byte i, about to read `display_initialized`, about to
      apply the parameter itself, or about to set `pending_controls_apply`. */
  datatype SetterPc =
    | Idle
    | Copying(p: Param, value: seq<uint8>, i: nat)
    | Checking(p: Param)
    | Applying(p: Param)
    | Deferring(p: Param)

  /** The display thread after a plane switch: about to set `display_initialized`, to look at
      `pending_controls_apply`, to apply each parameter, to clear the flag; or elsewhere. */
  datatype TailPc = Elsewhere | SettingInitialized | Looking | ApplyingAll(next: Param) | Clearing

  datatype State = State(
    stored: Params,
    hardware: Params,
    initialized: bool,
    pending: bool,
    setter: SetterPc,
    tail: TailPc)

  datatype Action = Call(p: Param, value: seq<uint8>) | SetterStep | FrameShown | TailStep

  predicate Enabled(s: State, a: Action) {
    match a
    case Call(p, value) => s.setter == Idle && |value| == |s.stored.Get(p)|
    case SetterStep => s.setter != Idle
    case FrameShown => s.tail == Elsewhere
    case TailStep => s.tail != Elsewhere
  }

  /** Entering a setter: a value equal to the stored one is not stored again. */
  function StepCall(s: State, p: Param, value: seq<uint8>): State {
    if value == s.stored.Get(p) then s else s.(setter := Copying(p, value, 0))
  }

  function StepSetter(s: State): State {
    match s.setter
    case Idle => s
    case Copying(p, value, i) =>
      if i < |value| && i < |s.stored.Get(p)| then
        s.(stored := s.stored.With(p, s.stored.Get(p)[i := value[i]]), setter := Copying(p, value, i + 1))
      else
        s.(setter := Checking(p))
    case Checking(p) => s.(setter := if s.initialized then Applying(p) else Deferring(p))
    case Applying(p) => s.(hardware := s.hardware.With(p, s.stored.Get(p)), setter := Idle)
    case Deferring(p) => s.(pending := true, setter := Idle)
  }

  function StepTail(s: State): State {
    match s.tail
    case Elsewhere => s
    case SettingInitialized => s.(initialized := true, tail := Looking)
    case Looking => s.(tail := if s.pending then ApplyingAll(Fcc) else Elsewhere)
    case ApplyingAll(p) =>
      s.(hardware := s.hardware.With(p, s.stored.Get(p)),
         tail := match p case Fcc => ApplyingAll(Bws) case Bws => ApplyingAll(Lti) case Lti => Clearing)
    case Clearing => s.(pending := false, tail := Elsewhere)
  }

  function Step(s: State, a: Action): State
    requires Enabled(s, a)
  {
    match a
    case Call(p, value) => StepCall(s, p, value)
    case SetterStep => StepSetter(s)
    case FrameShown => s.(tail := SettingInitialized)
    case TailStep => StepTail(s)
  }

  function InitialState(params: Params): State {
    State(params, params, false, false, Idle, Elsewhere)
  }

  ghost predicate IsRun(params: Params, run: seq<State>, acts: seq<Action>) {
    && |run| == |acts| + 1
    && run[0] == InitialState(params)
    && forall i | 0 <= i < |acts| :: Enabled(run[i], acts[i]) && run[i + 1] == Step(run[i], acts[i])
  }

  // ---------- The invariant ----------

  /** The setter is in a call on `p` and has not yet handed its new value on. */
  predicate SetterOwns(s: State, p: Param) {
    match s.setter
    case Copying(q, _, _) => p == q
    case Checking(q) => p == q
    case Applying(q) => p == q
    case _ => false
  }

  /** The display thread has applied `p` in its present round but not yet cleared the flag. */
  predicate TailIsPast(s: State, p: Param) {
    match s.tail
    case ApplyingAll(Fcc) => false
    case ApplyingAll(Bws) => p == Fcc
    case ApplyingAll(Lti) => p == Fcc || p == Bws
    case Clearing => true
    case _ => false
  }

  /** Every stored parameter is in the hardware, or somebody is still bound to put it there: the
      setter in its call, or a display round that will see the flag and has not reached it. */
  predicate Accounted(s: State, p: Param) {
    || s.hardware.Get(p) == s.stored.Get(p)
    || SetterOwns(s, p)
    || ((s.pending || s.setter == Deferring(p)) && !TailIsPast(s, p))
  }

  predicate Inv(s: State) {
    && Accounted(s, Fcc) && Accounted(s, Bws) && Accounted(s, Lti)
    && (s.tail.ApplyingAll? || s.tail.Clearing? || s.tail.Looking? ==> s.initialized)
    && (s.setter.Copying? ==> |s.setter.value| == |s.stored.Get(s.setter.p)| && s.setter.i <= |s.setter.value|)
  }

  lemma StepKeepsInv(s: State, a: Action)
    requires Inv(s) && Enabled(s, a)
    ensures Inv(Step(s, a))
  {
    match a {
      case Call(p, value) =>
      case SetterStep => SetterKeepsInv(s);
      case FrameShown =>
      case TailStep => TailKeepsInv(s);
    }
  }

  /** Reading `display_initialized` as clear means the display thread has yet to look. */
  lemma SetterKeepsInv(s: State)
    requires Inv(s)
    ensures Inv(StepSetter(s))
  {
    match s.setter {
      case Idle =>
      case Copying(p, value, i) =>
      case Checking(p) =>
        assert !s.initialized ==> !TailIsPast(s, p);
      case Applying(p) =>
      case Deferring(p) =>
    }
  }

  lemma TailKeepsInv(s: State)
    requires Inv(s)
    ensures Inv(StepTail(s))
  {
    match s.tail {
      case Elsewhere =>
      case SettingInitialized =>
      case Looking =>
      case ApplyingAll(p) =>
      case Clearing => assert TailIsPast(s, Fcc) && TailIsPast(s, Bws) && TailIsPast(s, Lti);
    }
  }

  lemma {:induction false} RunKeepsInv(params: Params, run: seq<State>, acts: seq<Action>, i: nat)
    requires IsRun(params, run, acts) && i < |run|
    ensures Inv(run[i])
  {
    if i == 0 {
    } else {
      RunKeepsInv(params, run, acts, i - 1);
      StepKeepsInv(run[i - 1], acts[i - 1]);
    }
  }

  // ---------- What was asked for ----------

  /** The value last asked for `p` by the calls among `acts`, or the initial one. */
  function Requested(params: Params, acts: seq<Action>, p: Param): seq<uint8> {
    if acts == [] then params.Get(p)
    else
      match acts[|acts| - 1]
      case Call(q, value) => if p == q then value else Requested(params, acts[..|acts| - 1], p)
      case _ => Requested(params, acts[..|acts| - 1], p)
  }

  /** The stored value of `p` is the requested one, but for the bytes still to be copied. */
  predicate StoresRequested(s: State, requested: seq<uint8>, p: Param) {
    if s.setter.Copying? && s.setter.p == p then
      s.setter.value == requested && |requested| == |s.stored.Get(p)| && s.setter.i <= |requested|
      && s.stored.Get(p)[..s.setter.i] == requested[..s.setter.i]
    else
      s.stored.Get(p) == requested
  }

  lemma CopyStoresRequested(s: State, requested: seq<uint8>, p: Param)
    requires StoresRequested(s, requested, p)
    ensures StoresRequested(StepSetter(s), requested, p)
  {
    if s.setter.Copying? && s.setter.p == p {
      var i := s.setter.i;
      if i < |requested| {
        assert StepSetter(s).stored.Get(p)[..i + 1] == requested[..i + 1];
      } else {
        assert s.stored.Get(p) == s.stored.Get(p)[..i] == requested;
      }
    }
  }

  lemma {:induction false} RunStoresRequested(params: Params, run: seq<State>, acts: seq<Action>, i: nat, p: Param)
    requires IsRun(params, run, acts) && i < |run|
    ensures StoresRequested(run[i], Requested(params, acts[..i], p), p)
  {
    if i == 0 {
    } else {
      RunStoresRequested(params, run, acts, i - 1, p);
      assert acts[..i][..i - 1] == acts[..i - 1];
      if acts[i - 1] == SetterStep {
        CopyStoresRequested(run[i - 1], Requested(params, acts[..i - 1], p), p);
      }
    }
  }

  // ---------- Nothing is lost ----------

  /** In every interleaving, when neither thread is in the middle of its steps and the pending
      flag is clear, the hardware has for every parameter the value last asked for. */
  lemma NothingIsLost(params: Params, run: seq<State>, acts: seq<Action>, i: nat, p: Param)
    requires IsRun(params, run, acts) && i < |run|
    requires run[i].setter == Idle && run[i].tail == Elsewhere && !run[i].pending
    ensures run[i].hardware.Get(p) == run[i].stored.Get(p) == Requested(params, acts[..i], p)
  {
    RunKeepsInv(params, run, acts, i);
    RunStoresRequested(params, run, acts, i, p);
  }

  /** Before the first frame is shown the hardware is left alone, whatever is asked for. */
  lemma {:induction false} NothingBeforeFirstFrame(params: Params, run: seq<State>, acts: seq<Action>, i: nat)
    requires IsRun(params, run, acts) && i < |run| && !run[i].initialized
    ensures run[i].hardware == params && !run[i].setter.Applying?
  {
    if i == 0 {
    } else {
      RunKeepsInv(params, run, acts, i - 1);
      if !run[i - 1].initialized {
        NothingBeforeFirstFrame(params, run, acts, i - 1);
      }
      hide Accounted;
      StepBeforeFirstFrame(run[i - 1], acts[i - 1]);
    }
  }

  lemma StepBeforeFirstFrame(s: State, a: Action)
    requires Enabled(s, a) && (s.tail.ApplyingAll? || s.tail.Clearing? || s.tail.Looking? ==> s.initialized)
    ensures s.initialized ==> Step(s, a).initialized
    ensures !s.initialized && !s.setter.Applying? ==>
              Step(s, a).hardware == s.hardware && (Step(s, a).setter.Applying? ==> Step(s, a).initialized)
  {
  }

  /** One display round, uninterrupted. */
  function DisplayRound(s: State): State
    requires s.tail == Elsewhere
  {
    FinishTail(s.(tail := SettingInitialized))
  }

  function FinishTail(s: State): State
    decreases match s.tail
              case Elsewhere => 0
              case Clearing => 1
              case ApplyingAll(p) => (match p case Lti => 2 case Bws => 3 case Fcc => 4)
              case Looking => 5
              case SettingInitialized => 6
  {
    if s.tail == Elsewhere then s else FinishTail(StepTail(s))
  }

  /** Once the setter is idle, the next display round that runs undisturbed puts every
      requested value in the hardware, whatever came before. */
  lemma NextRoundApplies(params: Params, run: seq<State>, acts: seq<Action>, i: nat, p: Param)
    requires IsRun(params, run, acts) && i < |run|
    requires run[i].setter == Idle && run[i].tail == Elsewhere
    ensures var t := DisplayRound(run[i]);
            t.hardware.Get(p) == Requested(params, acts[..i], p) && t.initialized && !t.pending
  {
    RunKeepsInv(params, run, acts, i);
    RunStoresRequested(params, run, acts, i, p);
    RoundFromIdle(run[i]);
  }

  lemma RoundFromIdle(s: State)
    requires s.tail == Elsewhere
    ensures DisplayRound(s)
            == s.(initialized := true, pending := false, hardware := if s.pending then s.stored else s.hardware)
  {
    var s1 := StepTail(s.(tail := SettingInitialized));
    var s2 := StepTail(s1);
    assert FinishTail(s.(tail := SettingInitialized)) == FinishTail(s2);
    if s.pending {
      var s3 := StepTail(s2);
      var s4 := StepTail(s3);
      var s5 := StepTail(s4);
      assert FinishTail(s2) == FinishTail(s3) == FinishTail(s4) == FinishTail(s5);
      assert FinishTail(s5) == FinishTail(StepTail(s5)) == StepTail(s5);
    } else {
      assert FinishTail(s2) == s2;
    }
  }

  // ---------- The source's own form ----------

  /** The rest of a setter's call, uninterrupted. */
  function FinishSetter(s: State): State
    decreases match s.setter
              case Idle => 0
              case Applying(_) => 1
              case Deferring(_) => 1
              case Checking(_) => 2
              case Copying(_, value, i) => 3 + if i < |value| then |value| - i else 0
  {
    if s.setter == Idle then s else FinishSetter(StepSetter(s))
  }

  lemma WithGet(ps: Params, p: Param, a: seq<uint8>, b: seq<uint8>)
    ensures ps.With(p, a).Get(p) == a && ps.With(p, a).With(p, b) == ps.With(p, b) && ps.With(p, ps.Get(p)) == ps
  {
  }

  /** Copying to its end stores the value, whatever has been copied so far. */
  lemma {:induction false} CopyFinishes(s: State, p: Param, value: seq<uint8>, i: nat)
    requires s.setter == Copying(p, value, i) && i <= |value| == |s.stored.Get(p)| && s.stored.Get(p)[..i] == value[..i]
    ensures FinishSetter(s) == FinishSetter(s.(stored := s.stored.With(p, value), setter := Checking(p)))
    decreases |value| - i
  {
    if i == |value| {
      assert s.stored.Get(p) == s.stored.Get(p)[..i] == value[..i] == value;
      WithGet(s.stored, p, value, value);
    } else {
      var stored := s.stored.Get(p)[i := value[i]];
      var t := s.(stored := s.stored.With(p, stored), setter := Copying(p, value, i + 1));
      WithGet(s.stored, p, stored, value);
      assert StepSetter(s) == t;
      assert stored[..i + 1] == value[..i + 1];
      CopyFinishes(t, p, value, i + 1);
    }
  }

  lemma CheckFinishes(s: State, p: Param)
    requires s.setter == Checking(p)
    ensures FinishSetter(s) ==
            if s.initialized then s.(hardware := s.hardware.With(p, s.stored.Get(p)), setter := Idle)
            else s.(pending := true, setter := Idle)
  {
    var t := StepSetter(s);
    assert FinishSetter(s) == FinishSetter(t) == FinishSetter(StepSetter(t)) == StepSetter(t);
  }

  /** An undisturbed call: a new value is stored, and goes to the hardware if the display has shown a
      frame, and otherwise leaves only the flag for it. */
  lemma CallFinishes(s: State, p: Param, value: seq<uint8>)
    requires s.setter == Idle && |value| == |s.stored.Get(p)|
    ensures FinishSetter(StepCall(s, p, value)) ==
            if value == s.stored.Get(p) then s
            else if s.initialized then s.(stored := s.stored.With(p, value), hardware := s.hardware.With(p, value))
            else s.(stored := s.stored.With(p, value), pending := true)
  {
    if value != s.stored.Get(p) {
      WithGet(s.stored, p, value, value);
      CopyFinishes(StepCall(s, p, value), p, value, 0);
      CheckFinishes(s.(stored := s.stored.With(p, value), setter := Checking(p)), p);
    }
  }

  // ---------- What the steps are ----------

  /** Taking the steps `acts` one after the other, each of them enabled, leads from s to t. */
  ghost predicate Leads(s: State, acts: seq<Action>, t: State)
    decreases |acts|
  {
    if acts == [] then s == t else Enabled(s, acts[0]) && Leads(Step(s, acts[0]), acts[1..], t)
  }

  lemma LeadsOne(s: State, a: Action, acts: seq<Action>, t: State)
    requires Enabled(s, a) && Leads(Step(s, a), acts, t)
    ensures Leads(s, [a] + acts, t)
  {
    assert ([a] + acts)[1..] == acts;
  }

  function Times(a: Action, n: nat): seq<Action> {
    if n == 0 then [] else [a] + Times(a, n - 1)
  }

  /** The steps left of a display round: set the one flag, look at the other, and, if that is set,
      apply the three parameters and clear it. */
  function TailLeft(s: State): nat {
    match s.tail
    case Elsewhere => 0
    case Clearing => 1
    case ApplyingAll(Lti) => 2
    case ApplyingAll(Bws) => 3
    case ApplyingAll(Fcc) => 4
    case Looking => if s.pending then 5 else 1
    case SettingInitialized => if s.pending then 6 else 2
  }

  lemma {:induction false} TailIsSteps(s: State)
    ensures Leads(s, Times(TailStep, TailLeft(s)), FinishTail(s))
    decreases TailLeft(s)
  {
    if s.tail == Elsewhere {
    } else {
      hide Leads;
      TailIsSteps(StepTail(s));
      LeadsOne(s, TailStep, Times(TailStep, TailLeft(StepTail(s))), FinishTail(s));
    }
  }

  /** The steps left of a setter's call: a byte each, leaving the loop, the look at
      `display_initialized`, and applying or deferring. */
  function SetterLeft(s: State): nat {
    match s.setter
    case Idle => 0
    case Applying(_) => 1
    case Deferring(_) => 1
    case Checking(_) => 2
    case Copying(_, value, i) => 3 + if i < |value| then |value| - i else 0
  }

  lemma {:induction false} SetterIsSteps(s: State)
    requires s.setter.Copying? ==> |s.setter.value| == |s.stored.Get(s.setter.p)|
    ensures Leads(s, Times(SetterStep, SetterLeft(s)), FinishSetter(s))
    decreases SetterLeft(s)
  {
    if s.setter == Idle {
    } else {
      hide Leads;
      SetterIsSteps(StepSetter(s));
      LeadsOne(s, SetterStep, Times(SetterStep, SetterLeft(StepSetter(s))), FinishSetter(s));
    }
  }

  /** A display round and a setter's call, undisturbed, are runs of enabled steps: from the end of a
      plane switch two, or six with the flag set; from a call with a new value three and one a byte. */
  lemma RoundAndCallAreSteps(s: State, p: Param, value: seq<uint8>)
    ensures s.tail == Elsewhere ==>
              Leads(s, [FrameShown] + Times(TailStep, if s.pending then 6 else 2), DisplayRound(s))
    ensures s.setter == Idle && |value| == |s.stored.Get(p)| && value != s.stored.Get(p) ==>
              Leads(s, [Call(p, value)] + Times(SetterStep, |value| + 3), FinishSetter(StepCall(s, p, value)))
  {
    hide Leads, Times, FinishTail, FinishSetter;
    if s.tail == Elsewhere {
      var t := Step(s, FrameShown);
      TailIsSteps(t);
      LeadsOne(s, FrameShown, Times(TailStep, TailLeft(t)), FinishTail(t));
    }
    if s.setter == Idle && |value| == |s.stored.Get(p)| && value != s.stored.Get(p) {
      var t := StepCall(s, p, value);
      SetterIsSteps(t);
      LeadsOne(s, Call(p, value), Times(SetterStep, SetterLeft(t)), FinishSetter(t));
    }
  }

  /** The static parameters and flags of src/display.c, and the hardware they are applied to. */
  class PictureControls {
    var stored: Params
    var hardware: Params
    var displayInitialized: bool
    var pendingControlsApply: bool

    ghost function View(): State
      reads this
    {
      State(stored, hardware, displayInitialized, pendingControlsApply, Idle, Elsewhere)
    }

    constructor (params: Params)
      ensures View() == InitialState(params)
      ensures stored == hardware == params && !displayInitialized && !pendingControlsApply
    {
      stored, hardware := params, params;
      displayInitialized, pendingControlsApply := false, false;
    }

    /** `memcpy` into a stored parameter. */
    method CopyParam(p: Param, value: seq<uint8>)
      requires |value| == |stored.Get(p)|
      modifies this`stored
      ensures stored == old(stored).With(p, value)
    {
      WithGet(stored, p, value, value);
      var i := 0;
      while i < |value|
        invariant i <= |value| == |stored.Get(p)|
        invariant stored.Get(p)[..i] == value[..i]
        invariant stored == old(stored).With(p, stored.Get(p))
      {
        stored := stored.With(p, stored.Get(p)[i := value[i]]);
        i := i + 1;
      }
      assert stored.Get(p) == value;
    }

    /** `set_drm_fcc`, `set_drm_bws` or `set_drm_lti`: an undisturbed call performs exactly the
        setter's steps, and reports whether the value differed from the stored one. */
    method SetDrm(p: Param, value: seq<uint8>) returns (changed: bool)
      requires |value| == |stored.Get(p)|
      modifies this`stored, this`hardware, this`pendingControlsApply
      ensures View() == FinishSetter(StepCall(old(View()), p, value))
      ensures changed <==> value != old(stored.Get(p))
      ensures stored == old(stored).With(p, value)
      ensures stored.Get(p) == value && forall q | q != p :: stored.Get(q) == old(stored).Get(q)
      ensures !changed ==> hardware == old(hardware) && pendingControlsApply == old(pendingControlsApply)
      ensures changed && !old(displayInitialized) ==> pendingControlsApply && hardware == old(hardware)
      ensures changed && old(displayInitialized) ==>
                hardware == old(hardware).With(p, value) && pendingControlsApply == old(pendingControlsApply)
    {
      CallFinishes(View(), p, value);
      if value == stored.Get(p) {
        return false;
      }
      hide FinishSetter, StepCall;
      CopyParam(p, value);
      WithGet(old(stored), p, value, value);
      if displayInitialized {
        hardware := hardware.With(p, stored.Get(p));
      } else {
        pendingControlsApply := true;
      }
      return true;
    }

    /** The display thread's steps after a plane switch. */
    method FrameWasShown()
      modifies this`hardware, this`displayInitialized, this`pendingControlsApply
      ensures View() == DisplayRound(old(View()))
      ensures displayInitialized && !pendingControlsApply
      ensures hardware == if old(pendingControlsApply) then old(stored) else old(hardware)
    {
      RoundFromIdle(View());
      displayInitialized := true;
      if pendingControlsApply {
        hardware := hardware.With(Fcc, stored.fcc);
        hardware := hardware.With(Bws, stored.bws);
        hardware := hardware.With(Lti, stored.lti);
        pendingControlsApply := false;
      }
    }
  }
}

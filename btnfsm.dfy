/**
  The per-button state machine of z_btnmgr.c as functions on the fields of one
  z_btn_t. `BtnProc` is one call of z_btnmgr_btnProc at tick `now`; the four
  handlers are __btnReleasingProc, __btnPressingProc, __btnLongPressingProc and
  __btnPressedOrClickedProc. A handler returns the state it computes (the caller
  stores it) and the signal it hands to __btnCallEventProc, if any; `Deliver`
  is the gate in __btnCallEventProc.
*/
module BtnFsm {
  import opened Ticks
  import opened BtnTypes

  /** The fields of a z_btn_t that the core reads or writes. */
  datatype BtnView = BtnView(
    reader: bool,        // ClickAction is not null
    event: Callback,     // Event
    startPress: u32,     // StartPresseTime, 0 = unset
    pressBuf: u32,       // PressTimeBuf, tick of the last Pressing notification
    startRelease: u32,   // StartReleaseTime, 0 = unset
    state: BtnState,     // State
    preState: BtnState,  // PreState, latched for wasPressed
    noResp: bool)        // Flags.NoResp

  /** A zero-filled z_btn_t. */
  const Zeroed: BtnView := BtnView(false, Null, 0, 0, 0, None, None, false)

  /**
    What the read callback returns during one step: `first` at its first call,
    `second` at its second call (only __btnReleasingProc calls it twice).
    Non-zero means pressed.
  */
  datatype Sample = Sample(first: u8, second: u8)

  const PressedSample: Sample := Sample(1, 1)
  const ReleasedSample: Sample := Sample(0, 0)

  /** The state a handler passes to __btnCallEventProc, or none. */
  datatype Signal = Quiet | Fire(state: BtnState)

  /** A handler's effect: the updated fields, the state it returns, its signal. */
  datatype Handled = Handled(btn: BtnView, res: BtnState, signal: Signal)

  /** One z_btnmgr_btnProc call: the new fields (State included) and its signal. */
  datatype Stepped = Stepped(btn: BtnView, signal: Signal)

  /** An event as the event callback receives it: which callback, which state. */
  datatype Notice = Notice(handler: nat, state: BtnState)

  /** The states z_btnmgr_btnProc handles; every other one is reset to Releasing. */
  predicate Handles(s: BtnState)
  {
    s == Releasing || s == Pressing || s == LongPressing || s == Clicked || s == Pressed
  }

  // ---------------------------------------------------------------- handlers

  /** __btnReleasingProc */
  function ReleasingProc(b: BtnView, now: u32, s: Sample): Handled
  {
    if s.first == 0 then Handled(b, Releasing, Quiet)
    else
      var b1 := StartedAt(b, now);
      if Add32(b1.startPress, SHORT) > Add32(now, 1) then Handled(b1, Releasing, Quiet)
      else if s.second == 1 then
        Handled(b1.(startRelease := 0, pressBuf := now), Pressing, Fire(Pressing))
      else Handled(b1, Releasing, Quiet)
  }

  /** The release confirmation shared by __btnPressingProc and __btnLongPressingProc. */
  predicate ReleaseConfirmed(b: BtnView, now: u32, s: Sample)
  {
    s.first == 0 && b.startRelease != 0 && Add32(b.startRelease, SHORT) < Add32(now, 1)
  }

  /** The release timer update of those two handlers when the release is not confirmed. */
  function ReleaseTimer(b: BtnView, now: u32, s: Sample): BtnView
  {
    if s.first == 0 then
      (if b.startRelease == 0 then b.(startRelease := now) else b)
    else if Add32(b.startRelease, SHORT) < Add32(now, 1) then b.(startRelease := 0)
    else b
  }

  /** `StartPresseTime` after "if it is 0, set it to now". */
  function StartedAt(b: BtnView, now: u32): BtnView
  {
    if b.startPress == 0 then b.(startPress := now) else b
  }

  /** __btnPressingProc */
  function PressingProc(b: BtnView, now: u32, s: Sample): Handled
  {
    if ReleaseConfirmed(b, now, s) then
      Handled(b.(startRelease := 0), Clicked, Fire(Clicked))
    else
      var b2 := StartedAt(ReleaseTimer(b, now, s), now);
      if Add32(b2.startPress, LONG) < Add32(now, 1) then
        Handled(b2.(startRelease := 0), LongPressing, Fire(LongPressing))
      else if Sub32(now, b2.pressBuf) > SHORT + 1 then
        Handled(b2.(pressBuf := now), Pressing, Fire(Pressing))
      else Handled(b2, Pressing, Quiet)
  }

  /** The repeat test of __btnLongPressingProc, in uint32_t arithmetic. */
  predicate RepeatDue(startPress: u32, now: u32)
  {
    Sub32(Sub32(now, startPress), LONG) % PEER == 0
  }

  /** __btnLongPressingProc */
  function LongPressingProc(b: BtnView, now: u32, s: Sample): Handled
  {
    if ReleaseConfirmed(b, now, s) then
      Handled(b.(startRelease := 0), Pressed, Fire(Pressed))
    else
      var b1 := ReleaseTimer(b, now, s);
      if b1.startPress == 0 then Handled(b1.(startPress := now), LongPressing, Quiet)
      else if RepeatDue(b1.startPress, now) then Handled(b1, LongPressing, Fire(LongPressedRepeat))
      else Handled(b1, LongPressing, Quiet)
  }

  /** __btnPressedOrClickedProc */
  function PressedOrClickedProc(b: BtnView): Handled
  {
    Handled(b.(startRelease := 0, startPress := 0, preState := Pressed), Releasing, Fire(Releasing))
  }

  /** z_btnmgr_btnProc: the switch on State; the handler's result becomes the new State. */
  function BtnProc(b: BtnView, now: u32, s: Sample): (r: Stepped)
    // a step never touches the callbacks or the suppression flag
    ensures r.btn.reader == b.reader && r.btn.event == b.event && r.btn.noResp == b.noResp
    // a button with a read callback always lands in a state the switch handles
    ensures b.reader ==> Handles(r.btn.state)
    // a button without one is inert
    ensures !b.reader ==> r == Stepped(b, Quiet)
    // only the handled states make a notification
    ensures r.signal.Fire? ==> b.reader && Handles(b.state)
  {
    if !b.reader then Stepped(b, Quiet)
    else
      match b.state
      case Releasing => Commit(ReleasingProc(b, now, s))
      case Pressing => Commit(PressingProc(b, now, s))
      case LongPressing => Commit(LongPressingProc(b, now, s))
      case Clicked => Commit(PressedOrClickedProc(b))
      case Pressed => Commit(PressedOrClickedProc(b))
      case _ => Stepped(b.(state := Releasing), Quiet)
  }

  function Commit(h: Handled): Stepped
  {
    Stepped(h.btn.(state := h.res), h.signal)
  }

  /** __btnCallEventProc: a signal reaches the callback only if there is one and NoResp is clear. */
  function Deliver(b: BtnView, sig: Signal): (n: seq<Notice>)
    ensures |n| <= 1
    ensures |n| == 1 <==> sig.Fire? && b.event.Fn? && !b.noResp
    ensures |n| == 1 ==> n[0] == Notice(b.event.id, sig.state)
  {
    if sig.Fire? && b.event.Fn? && !b.noResp then [Notice(b.event.id, sig.state)] else []
  }

  // ---------------------------------------------------------------- queries

  /** z_btnmgr_isPressing */
  predicate IsPressing(b: BtnView)
  {
    b.state == Pressing || b.state == LongPressing
  }

  /** z_btnmgr_isReleasing */
  predicate IsReleasing(b: BtnView)
  {
    b.state == Releasing
  }

  /** The answer of z_btnmgr_wasPressed and the fields it leaves behind. */
  datatype Query = Query(answer: bool, btn: BtnView)

  /** z_btnmgr_wasPressed: reports a latched Pressed once and clears the latch. */
  function WasPressed(b: BtnView): (q: Query)
    ensures q.answer <==> b.preState == Pressed
    ensures q.btn.preState != Pressed
    ensures q.answer ==> q.btn.preState == None
    ensures q.btn == b.(preState := q.btn.preState)
    ensures !q.answer ==> q.btn == b
  {
    if b.preState == Pressed then Query(true, b.(preState := None)) else Query(false, b)
  }

  // ---------------------------------------------------------------- one-step properties

  /** Without a read callback nothing changes and nothing is signalled. */
  lemma NoReaderIsInert(b: BtnView, now: u32, s: Sample)
    requires !b.reader
    ensures BtnProc(b, now, s) == Stepped(b, Quiet)
  {
  }

  /** Any state the switch does not handle, `None` included, becomes Releasing silently. */
  lemma UnhandledStateResets(b: BtnView, now: u32, s: Sample)
    requires b.reader && !Handles(b.state)
    ensures BtnProc(b, now, s) == Stepped(b.(state := Releasing), Quiet)
  {
  }

  /** Releasing, released sample: nothing changes (StartPresseTime is not reset). */
  lemma ReleasingIgnoresRelease(b: BtnView, now: u32, s: Sample)
    requires b.reader && b.state == Releasing && s.first == 0
    ensures BtnProc(b, now, s) == Stepped(b, Quiet)
  {
  }

  /** The press confirmation condition of the Releasing state, in uint32_t arithmetic. */
  predicate PressConfirmed(b: BtnView, now: u32, s: Sample)
  {
    var sp := if b.startPress == 0 then now else b.startPress;
    s.first != 0 && Add32(sp, SHORT) <= Add32(now, 1) && s.second == 1
  }

  /**
    Releasing, pressed sample: StartPresseTime is set if it was 0; the button
    moves to Pressing, with StartReleaseTime := 0, PressTimeBuf := now and one
    Pressing signal, exactly when the press is confirmed.
  */
  lemma ReleasingOnPress(b: BtnView, now: u32, s: Sample)
    requires b.reader && b.state == Releasing && s.first != 0
    ensures var r := BtnProc(b, now, s);
      var sp := if b.startPress == 0 then now else b.startPress;
      && (r.btn.state == Pressing <==> PressConfirmed(b, now, s))
      && (PressConfirmed(b, now, s) ==>
            r == Stepped(b.(startPress := sp, startRelease := 0, pressBuf := now, state := Pressing), Fire(Pressing)))
      && (!PressConfirmed(b, now, s) ==> r == Stepped(b.(startPress := sp), Quiet))
  {
  }

  /**
    Pressing or LongPressing: a confirmed release (released sample, release timer
    set and more than SHORT old) ends the press with Clicked or Pressed, clears the
    release timer and signals once; nothing else changes.
  */
  lemma ReleaseEndsPress(b: BtnView, now: u32, s: Sample)
    requires b.reader && (b.state == Pressing || b.state == LongPressing)
    ensures var r := BtnProc(b, now, s);
      var ended := if b.state == Pressing then Clicked else Pressed;
      && (r.btn.state == ended <==> ReleaseConfirmed(b, now, s))
      && (ReleaseConfirmed(b, now, s) ==> r == Stepped(b.(startRelease := 0, state := ended), Fire(ended)))
  {
  }

  /** Pressing or LongPressing: the first released sample starts the release timer. */
  lemma FirstReleaseStartsTimer(b: BtnView, now: u32, s: Sample)
    requires b.reader && (b.state == Pressing || b.state == LongPressing)
    requires s.first == 0 && b.startRelease == 0
    ensures var r := BtnProc(b, now, s);
      r.btn.state != Clicked && r.btn.state != Pressed
      && (r.btn.state == b.state ==> r.btn.startRelease == now)
  {
  }

  /** The long-press test of __btnPressingProc. */
  predicate LongReached(b: BtnView, now: u32)
  {
    var sp := if b.startPress == 0 then now else b.startPress;
    Add32(sp, LONG) < Add32(now, 1)
  }

  /**
    Pressing without a confirmed release: LongPressing with StartReleaseTime := 0
    and one LongPressing signal iff LONG has elapsed; otherwise still Pressing,
    with a heartbeat Pressing signal and PressTimeBuf := now exactly when more
    than SHORT + 1 ticks passed since PressTimeBuf.
  */
  lemma PressingHeld(b: BtnView, now: u32, s: Sample)
    requires b.reader && b.state == Pressing && !ReleaseConfirmed(b, now, s)
    ensures var r := BtnProc(b, now, s);
      var b2 := StartedAt(ReleaseTimer(b, now, s), now);
      && (r.btn.state == LongPressing <==> LongReached(b, now))
      && (LongReached(b, now) ==> r == Stepped(b2.(startRelease := 0, state := LongPressing), Fire(LongPressing)))
      && (!LongReached(b, now) ==>
            r.btn.state == Pressing
            && (r.signal == Fire(Pressing) <==> Sub32(now, b.pressBuf) > SHORT + 1)
            && r.btn == (if r.signal.Fire? then b2.(pressBuf := now) else b2))
  {
  }

  /**
    LongPressing without a confirmed release stays LongPressing; a
    LongPressedRepeat signal fires exactly when StartPresseTime is set and
    (now - StartPresseTime - LONG) mod PEER == 0 in uint32_t arithmetic.
  */
  lemma LongPressingHeld(b: BtnView, now: u32, s: Sample)
    requires b.reader && b.state == LongPressing && !ReleaseConfirmed(b, now, s)
    ensures var r := BtnProc(b, now, s);
      && r.btn.state == LongPressing
      && (r.signal.Fire? <==> b.startPress != 0 && RepeatDue(b.startPress, now))
      && (r.signal.Fire? ==> r.signal.state == LongPressedRepeat)
  {
  }

  /**
    Clicked or Pressed: one step returns to Releasing, clears both start timers,
    latches PreState := Pressed and signals Releasing.
  */
  lemma CompletedFoldsBack(b: BtnView, now: u32, s: Sample)
    requires b.reader && (b.state == Clicked || b.state == Pressed)
    ensures BtnProc(b, now, s) ==
      Stepped(b.(startPress := 0, startRelease := 0, preState := Pressed, state := Releasing), Fire(Releasing))
  {
  }

  /**
    Suppression and the event callback never alter a transition: the step of a
    button differs from that of the same button with other NoResp and Event only
    in those two fields.
  */
  lemma GateIsTransparent(b: BtnView, now: u32, s: Sample, noResp: bool, event: Callback)
    ensures var r := BtnProc(b, now, s);
      var r' := BtnProc(b.(noResp := noResp, event := event), now, s);
      r'.signal == r.signal && r'.btn == r.btn.(noResp := noResp, event := event)
  {
    if b.reader {
      match b.state
      case Releasing => GateReleasing(b, now, s, noResp, event);
      case Pressing => GatePressing(b, now, s, noResp, event);
      case LongPressing => GateLongPressing(b, now, s, noResp, event);
      case _ =>
    }
  }

  lemma GateReleasing(b: BtnView, now: u32, s: Sample, noResp: bool, event: Callback)
    ensures ReleasingProc(b.(noResp := noResp, event := event), now, s)
         == HandledWithGate(ReleasingProc(b, now, s), noResp, event)
  {
  }

  lemma GatePressing(b: BtnView, now: u32, s: Sample, noResp: bool, event: Callback)
    ensures PressingProc(b.(noResp := noResp, event := event), now, s)
         == HandledWithGate(PressingProc(b, now, s), noResp, event)
  {
    var b' := b.(noResp := noResp, event := event);
    assert ReleaseConfirmed(b', now, s) == ReleaseConfirmed(b, now, s);
    assert StartedAt(ReleaseTimer(b', now, s), now)
        == StartedAt(ReleaseTimer(b, now, s), now).(noResp := noResp, event := event);
  }

  lemma GateLongPressing(b: BtnView, now: u32, s: Sample, noResp: bool, event: Callback)
    ensures LongPressingProc(b.(noResp := noResp, event := event), now, s)
         == HandledWithGate(LongPressingProc(b, now, s), noResp, event)
  {
    assert ReleaseTimer(b.(noResp := noResp, event := event), now, s)
        == ReleaseTimer(b, now, s).(noResp := noResp, event := event);
  }

  function HandledWithGate(h: Handled, noResp: bool, event: Callback): Handled
  {
    h.(btn := h.btn.(noResp := noResp, event := event))
  }

  /** isPressing and isReleasing never hold together, and every handled state is one of them or a completion. */
  lemma QueriesPartition(b: BtnView)
    requires Handles(b.state)
    ensures !(IsPressing(b) && IsReleasing(b))
    ensures IsPressing(b) || IsReleasing(b) || b.state == Clicked || b.state == Pressed
  {
  }

  /** After a Clicked or Pressed step, wasPressed answers true once and then false. */
  lemma WasPressedOnce(b: BtnView, now: u32, s: Sample)
    requires b.reader && (b.state == Clicked || b.state == Pressed)
    ensures var q1 := WasPressed(BtnProc(b, now, s).btn);
      var q2 := WasPressed(q1.btn);
      q1.answer && !q2.answer && q1.btn.preState == None && q2.btn == q1.btn
  {
  }
}

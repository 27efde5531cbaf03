/**
  Runs of one button over many ticks: `Run` applies z_btnmgr_btnProc once per
  input and collects the signals, in order. The lemmas follow a button sampled
  every millisecond through a press and a release.
*/
module BtnRuns {
  import opened Ticks
  import opened BtnTypes
  import opened BtnFsm

  /** One tick as a button sees it: the counter value and what its read callback returns. */
  datatype Input = Input(now: u32, sample: Sample)

  /** The fields after a run and every signal it produced, in order. */
  datatype Trace = Trace(final: BtnView, signals: seq<BtnState>)

  function Fired(sig: Signal): seq<BtnState>
  {
    if sig.Fire? then [sig.state] else []
  }

  /** Repeated z_btnmgr_btnProc calls, one per input, in order. */
  function Run(b: BtnView, ins: seq<Input>): Trace
    decreases |ins|
  {
    if ins == [] then Trace(b, [])
    else
      var st := BtnProc(b, ins[0].now, ins[0].sample);
      var rest := Run(st.btn, ins[1..]);
      Trace(rest.final, Fired(st.signal) + rest.signals)
  }

  /** `n` inputs at ticks t, t+1, ..., all with the same sample. */
  function Steady(t: nat, n: nat, s: Sample): (ins: seq<Input>)
    requires t + n <= TWO_32
    ensures |ins| == n
    ensures forall k :: 0 <= k < n ==> ins[k] == Input(t + k, s)
  {
    seq(n, k requires 0 <= k < n => Input(t + k, s))
  }

  /** A run over two consecutive pieces is the second run started where the first ended. */
  lemma {:induction false} RunAppend(b: BtnView, xs: seq<Input>, ys: seq<Input>)
    ensures var r1 := Run(b, xs);
      var r2 := Run(r1.final, ys);
      Run(b, xs + ys) == Trace(r2.final, r1.signals + r2.signals)
    decreases |xs|
  {
    if xs == [] {
      assert xs + ys == ys;
    } else {
      var st := BtnProc(b, xs[0].now, xs[0].sample);
      assert (xs + ys)[0] == xs[0];
      assert (xs + ys)[1..] == xs[1..] + ys;
      RunAppend(st.btn, xs[1..], ys);
    }
  }

  /** Two runs that meet join into one. */
  lemma RunJoin(b: BtnView, xs: seq<Input>, ys: seq<Input>, mid: BtnView, last: BtnView,
                s1: seq<BtnState>, s2: seq<BtnState>, signals: seq<BtnState>)
    requires Run(b, xs) == Trace(mid, s1) && Run(mid, ys) == Trace(last, s2)
    requires signals == s1 + s2
    ensures Run(b, xs + ys) == Trace(last, signals)
  {
    RunAppend(b, xs, ys);
  }

  /** A run extended by one input is the last step applied where the run ended. */
  lemma RunSnoc(b: BtnView, ins: seq<Input>, x: Input)
    ensures var r := Run(b, ins);
      var st := BtnProc(r.final, x.now, x.sample);
      Run(b, ins + [x]) == Trace(st.btn, r.signals + Fired(st.signal))
  {
    RunAppend(b, ins, [x]);
  }

  /** Steady(t, n + 1, s) extends Steady(t, n, s) by the input at t + n. */
  lemma SteadySnoc(t: nat, n: nat, s: Sample)
    requires t + n + 1 <= TWO_32
    ensures Steady(t, n + 1, s) == Steady(t, n, s) + [Input(t + n, s)]
  {
  }

  /** Steady(t, m + n, s) is Steady(t, m, s) followed by Steady(t + m, n, s). */
  lemma SteadySplit(t: nat, m: nat, n: nat, s: Sample)
    requires t + m + n <= TWO_32
    ensures Steady(t, m + n, s) == Steady(t, m, s) + Steady(t + m, n, s)
  {
  }

  /** A button that is released and keeps being released stays exactly as it is and signals nothing. */
  lemma {:induction false} ReleasedStaysIdle(b: BtnView, ins: seq<Input>)
    requires b.reader && b.state == Releasing
    requires forall k :: 0 <= k < |ins| ==> ins[k].sample.first == 0
    ensures Run(b, ins) == Trace(b, [])
    decreases |ins|
  {
    if ins != [] {
      ReleasingIgnoresRelease(b, ins[0].now, ins[0].sample);
      ReleasedStaysIdle(b, ins[1..]);
    }
  }

  /**
    A button in Releasing whose StartPresseTime is t keeps waiting, unchanged and
    silent, through pressed samples as long as fewer than SHORT - 1 ticks have
    passed since t: the press is not confirmed before then.
  */
  lemma {:induction false} ArmedWaits(a: BtnView, t: nat, ins: seq<Input>)
    requires a.reader && a.state == Releasing && a.startPress == t && 1 <= t && t + SHORT < TWO_32
    requires forall k :: 0 <= k < |ins| ==> ins[k].sample == PressedSample && ins[k].now + 1 < t + SHORT
    ensures Run(a, ins) == Trace(a, [])
    decreases |ins|
  {
    if ins != [] {
      ReleasingOnPress(a, ins[0].now, ins[0].sample);
      ArmedWaits(a, t, ins[1..]);
    }
  }

  /**
    Fewer than SHORT pressed samples, one per millisecond starting at tick t,
    leave an idle button in Releasing with StartPresseTime = t and no signal.
  */
  lemma PressWaits(b: BtnView, t: nat, n: nat)
    requires b.reader && b.state == Releasing && b.startPress == 0
    requires 1 <= t && t + SHORT < TWO_32 && n < SHORT
    ensures Run(b, Steady(t, n, PressedSample)) == Trace(if n == 0 then b else b.(startPress := t), [])
  {
    if n > 0 {
      var armed := b.(startPress := t);
      SteadySplit(t, 1, n - 1, PressedSample);
      assert Steady(t, 1, PressedSample) == [Input(t, PressedSample)];
      ReleasingOnPress(b, t, PressedSample);
      assert Run(b, [Input(t, PressedSample)]) == Trace(armed, []);
      ArmedWaits(armed, t, Steady(t + 1, n - 1, PressedSample));
      RunAppend(b, [Input(t, PressedSample)], Steady(t + 1, n - 1, PressedSample));
    }
  }

  /** The button fields right after the press is confirmed. */
  function Confirmed(b: BtnView, t: nat): BtnView
    requires t + SHORT < TWO_32
  {
    b.(startPress := t, startRelease := 0, pressBuf := t + SHORT - 1, state := Pressing)
  }

  /**
    The SHORT-th pressed sample confirms: at tick t + SHORT - 1 the button
    enters Pressing and signals Pressing once.
  */
  lemma PressConfirms(b: BtnView, t: nat)
    requires b.reader && b.state == Releasing && b.startPress == 0
    requires 1 <= t && t + SHORT < TWO_32
    ensures Run(b, Steady(t, SHORT, PressedSample)) == Trace(Confirmed(b, t), [Pressing])
  {
    SteadySnoc(t, SHORT - 1, PressedSample);
    PressWaits(b, t, SHORT - 1);
    RunSnoc(b, Steady(t, SHORT - 1, PressedSample), Input(t + SHORT - 1, PressedSample));
    ReleasingOnPress(b.(startPress := t), t + SHORT - 1, PressedSample);
  }

  /**
    A confirmed press whose release timer started at t + SHORT stays Pressing,
    unchanged and silent, through any samples at ticks t + SHORT to
    t + 2 * SHORT - 1: the release is not yet confirmed, a pressed sample does
    not reset the timer before SHORT has elapsed, LONG has not elapsed and no
    heartbeat is due.
  */
  lemma {:induction false} HeldWaits(b: BtnView, t: nat, ins: seq<Input>)
    requires b.reader && 1 <= t && t + LONG < TWO_32
    requires forall k :: 0 <= k < |ins| ==> t + SHORT <= ins[k].now < t + 2 * SHORT
    ensures Run(Confirmed(b, t).(startRelease := t + SHORT), ins) == Trace(Confirmed(b, t).(startRelease := t + SHORT), [])
    decreases |ins|
  {
    if ins != [] {
      PressingHeld(Confirmed(b, t).(startRelease := t + SHORT), ins[0].now, ins[0].sample);
      HeldWaits(b, t, ins[1..]);
    }
  }

  /**
    After confirmation at tick t + SHORT - 1, released samples from t + SHORT on:
    the first starts the release timer, and for SHORT samples in all the button
    stays Pressing with no signal (neither heartbeat nor long press is due).
  */
  lemma ReleaseWaits(b: BtnView, t: nat, n: nat)
    requires b.reader && 1 <= t && t + LONG < TWO_32 && n <= SHORT
    ensures Run(Confirmed(b, t), Steady(t + SHORT, n, ReleasedSample))
      == Trace(if n == 0 then Confirmed(b, t) else Confirmed(b, t).(startRelease := t + SHORT), [])
  {
    if n > 0 {
      var c := Confirmed(b, t);
      var waiting := c.(startRelease := t + SHORT);
      SteadySplit(t + SHORT, 1, n - 1, ReleasedSample);
      assert Steady(t + SHORT, 1, ReleasedSample) == [Input(t + SHORT, ReleasedSample)];
      PressingHeld(c, t + SHORT, ReleasedSample);
      assert Run(c, [Input(t + SHORT, ReleasedSample)]) == Trace(waiting, []);
      HeldWaits(b, t, Steady(t + SHORT + 1, n - 1, ReleasedSample));
      RunAppend(c, [Input(t + SHORT, ReleasedSample)], Steady(t + SHORT + 1, n - 1, ReleasedSample));
    }
  }

  /**
    The last two ticks of a click: SHORT ticks after the first released sample
    the release is confirmed (Clicked), and the next tick folds Clicked back
    into Releasing, clearing both start timers and latching Pressed.
  */
  lemma ClickEnds(b: BtnView, t: nat)
    requires b.reader && b.state == Releasing && b.startPress == 0
    requires 1 <= t && t + LONG < TWO_32
    ensures Run(Confirmed(b, t).(startRelease := t + SHORT), Steady(t + 2 * SHORT, 2, ReleasedSample))
      == Trace(b.(pressBuf := t + SHORT - 1, startRelease := 0, preState := Pressed), [Clicked, Releasing])
  {
    var waiting := Confirmed(b, t).(startRelease := t + SHORT);
    var u := t + 2 * SHORT;
    assert Steady(u, 2, ReleasedSample) == [Input(u, ReleasedSample), Input(u + 1, ReleasedSample)];
    ReleaseEndsPress(waiting, u, ReleasedSample);
    var clicked := waiting.(startRelease := 0, state := Clicked);
    CompletedFoldsBack(clicked, u + 1, ReleasedSample);
    assert Run(clicked, [Input(u + 1, ReleasedSample)])
      == Trace(b.(pressBuf := t + SHORT - 1, startRelease := 0, preState := Pressed), [Releasing]);
  }

  /**
    A click: SHORT pressed samples then SHORT + 2 released ones, one per
    millisecond from tick t, signal exactly Pressing, Clicked, Releasing; the
    button ends in Releasing with both start timers clear and Pressed latched,
    so wasPressed answers true once and then false.
  */
  lemma ClickCycle(b: BtnView, t: nat)
    requires b.reader && b.state == Releasing && b.startPress == 0
    requires 1 <= t && t + LONG < TWO_32
    ensures var r := Run(b, Steady(t, SHORT, PressedSample) + Steady(t + SHORT, SHORT + 2, ReleasedSample));
      && r.signals == [Pressing, Clicked, Releasing]
      && r.final == b.(pressBuf := t + SHORT - 1, startRelease := 0, preState := Pressed)
      && WasPressed(r.final).answer
      && !WasPressed(WasPressed(r.final).btn).answer
  {
    PressConfirms(b, t);
    ReleaseClicks(b, t);
    RunAppend(b, Steady(t, SHORT, PressedSample), Steady(t + SHORT, SHORT + 2, ReleasedSample));
  }

  /** The release half of a click: from the confirmed press, SHORT + 2 released samples signal Clicked, then Releasing. */
  lemma ReleaseClicks(b: BtnView, t: nat)
    requires b.reader && b.state == Releasing && b.startPress == 0
    requires 1 <= t && t + LONG < TWO_32
    ensures Run(Confirmed(b, t), Steady(t + SHORT, SHORT + 2, ReleasedSample))
      == Trace(b.(pressBuf := t + SHORT - 1, startRelease := 0, preState := Pressed), [Clicked, Releasing])
  {
    ReleaseWaits(b, t, SHORT);
    ClickEnds(b, t);
    SteadySplit(t + SHORT, SHORT, 2, ReleasedSample);
    RunAppend(Confirmed(b, t), Steady(t + SHORT, SHORT, ReleasedSample), Steady(t + 2 * SHORT, 2, ReleasedSample));
  }

  /**
    A release bounce ends a press: after the confirmed press, one released
    sample starts the release timer, SHORT - 1 pressed samples do not stop it,
    and the released sample SHORT ticks after the first confirms the release.
    The button signals Clicked although it was released for two samples only.
  */
  lemma ReleaseBounceClicks(b: BtnView, t: nat)
    requires b.reader && 1 <= t && t + LONG < TWO_32
    ensures var u := t + SHORT;
      var ins := [Input(u, ReleasedSample)]
                 + Steady(u + 1, SHORT - 1, PressedSample)
                 + [Input(u + SHORT, ReleasedSample)];
      Run(Confirmed(b, t), ins).signals == [Clicked] && Run(Confirmed(b, t), ins).final.state == Clicked
  {
    var u := t + SHORT;
    var c := Confirmed(b, t);
    var first := [Input(u, ReleasedSample)];
    var tail := Steady(u + 1, SHORT - 1, PressedSample) + [Input(u + SHORT, ReleasedSample)];
    PressingHeld(c, u, ReleasedSample);
    assert Run(c, first) == Trace(c.(startRelease := u), []);
    BounceThenRelease(b, t);
    RunAppend(c, first, tail);
    assert first + Steady(u + 1, SHORT - 1, PressedSample) + [Input(u + SHORT, ReleasedSample)] == first + tail;
  }

  /** The second half of ReleaseBounceClicks: from the running release timer, the bounce and the confirming sample. */
  lemma BounceThenRelease(b: BtnView, t: nat)
    requires b.reader && 1 <= t && t + LONG < TWO_32
    ensures var waiting := Confirmed(b, t).(startRelease := t + SHORT);
      Run(waiting, Steady(t + SHORT + 1, SHORT - 1, PressedSample) + [Input(t + 2 * SHORT, ReleasedSample)])
        == Trace(waiting.(startRelease := 0, state := Clicked), [Clicked])
  {
    var waiting := Confirmed(b, t).(startRelease := t + SHORT);
    var bounce := Steady(t + SHORT + 1, SHORT - 1, PressedSample);
    var last := [Input(t + 2 * SHORT, ReleasedSample)];
    HeldWaits(b, t, bounce);
    ReleaseEndsPress(waiting, t + 2 * SHORT, ReleasedSample);
    assert Run(waiting, last) == Trace(waiting.(startRelease := 0, state := Clicked), [Clicked]);
    RunAppend(waiting, bounce, last);
  }

  /**
    While a confirmed press is held, pressed samples at ticks t + SHORT to
    t + 2 * SHORT leave the button unchanged and silent: no heartbeat is due
    before more than SHORT + 1 ticks have passed since PressTimeBuf.
  */
  lemma {:induction false} HeartbeatWaits(b: BtnView, t: nat, ins: seq<Input>)
    requires b.reader && 1 <= t && t + LONG < TWO_32
    requires forall k :: 0 <= k < |ins| ==>
      ins[k].sample == PressedSample && t + SHORT <= ins[k].now <= t + 2 * SHORT
    ensures Run(Confirmed(b, t), ins) == Trace(Confirmed(b, t), [])
    decreases |ins|
  {
    if ins != [] {
      PressingHeld(Confirmed(b, t), ins[0].now, ins[0].sample);
      HeartbeatWaits(b, t, ins[1..]);
    }
  }

  /**
    The heartbeat of a held press: the press is confirmed at tick t + SHORT - 1
    with a Pressing signal, and the next Pressing signal comes at tick
    t + 2 * SHORT + 1, SHORT + 2 ticks later, where PressTimeBuf is reset.
  */
  lemma HeartbeatAfterShortPlus2(b: BtnView, t: nat)
    requires b.reader && 1 <= t && t + LONG < TWO_32
    ensures Run(Confirmed(b, t), Steady(t + SHORT, SHORT + 2, PressedSample))
      == Trace(Confirmed(b, t).(pressBuf := t + 2 * SHORT + 1), [Pressing])
  {
    var c := Confirmed(b, t);
    SteadySnoc(t + SHORT, SHORT + 1, PressedSample);
    HeartbeatWaits(b, t, Steady(t + SHORT, SHORT + 1, PressedSample));
    RunSnoc(c, Steady(t + SHORT, SHORT + 1, PressedSample), Input(t + 2 * SHORT + 1, PressedSample));
    PressingHeld(c, t + 2 * SHORT + 1, PressedSample);
  }

  /**
    A long press sampled at a few counter values (the counter may advance by
    more than 1 per tick): from the confirmed press, a pressed sample once LONG
    has passed signals LongPressing and one PEER later LongPressedRepeat; a
    released sample on the next value starts the release timer, the released
    sample SHORT later signals Pressed, and the next tick folds back into
    Releasing with Pressed latched.
  */
  lemma LongPressCycle(b: BtnView, t: nat)
    requires b.reader && 1 <= t && t + LONG + PEER + SHORT + 2 < TWO_32
    ensures var r := t + LONG + PEER + 1;
      var hold := [Input(t + LONG, PressedSample), Input(t + LONG + PEER, PressedSample)];
      var release := [Input(r, ReleasedSample), Input(r + SHORT, ReleasedSample), Input(r + SHORT + 1, ReleasedSample)];
      Run(Confirmed(b, t), hold + release)
        == Trace(b.(startPress := 0, startRelease := 0, pressBuf := t + SHORT - 1, preState := Pressed, state := Releasing),
                 [LongPressing, LongPressedRepeat, Pressed, Releasing])
  {
    var r := t + LONG + PEER + 1;
    var hold := [Input(t + LONG, PressedSample), Input(t + LONG + PEER, PressedSample)];
    var release := [Input(r, ReleasedSample), Input(r + SHORT, ReleasedSample), Input(r + SHORT + 1, ReleasedSample)];
    var held := Confirmed(b, t).(state := LongPressing);
    var done := b.(startPress := 0, startRelease := 0, pressBuf := t + SHORT - 1, preState := Pressed, state := Releasing);
    LongPressHolds(b, t);
    LongPressReleased(b, t);
    assert [LongPressing, LongPressedRepeat, Pressed, Releasing] == [LongPressing, LongPressedRepeat] + [Pressed, Releasing];
    RunJoin(Confirmed(b, t), hold, release, held, done,
            [LongPressing, LongPressedRepeat], [Pressed, Releasing], [LongPressing, LongPressedRepeat, Pressed, Releasing]);
  }

  /** The hold half of LongPressCycle: LongPressing once LONG has passed, a repeat PEER later. */
  lemma LongPressHolds(b: BtnView, t: nat)
    requires b.reader && 1 <= t && t + LONG + PEER < TWO_32
    ensures Run(Confirmed(b, t), [Input(t + LONG, PressedSample), Input(t + LONG + PEER, PressedSample)])
      == Trace(Confirmed(b, t).(state := LongPressing), [LongPressing, LongPressedRepeat])
  {
    var c0 := Confirmed(b, t);
    var c1 := c0.(state := LongPressing);
    PressingHeld(c0, t + LONG, PressedSample);
    assert BtnProc(c0, t + LONG, PressedSample) == Stepped(c1, Fire(LongPressing));
    assert RepeatDue(t, t + LONG + PEER);
    assert BtnProc(c1, t + LONG + PEER, PressedSample) == Stepped(c1, Fire(LongPressedRepeat));
    assert Run(c1, [Input(t + LONG + PEER, PressedSample)]) == Trace(c1, [LongPressedRepeat]);
  }

  /** The release half of LongPressCycle: LongPressing ends in Pressed, then folds back into Releasing. */
  lemma LongPressReleased(b: BtnView, t: nat)
    requires b.reader && 1 <= t && t + LONG + PEER + SHORT + 2 < TWO_32
    ensures var r := t + LONG + PEER + 1;
      Run(Confirmed(b, t).(state := LongPressing),
          [Input(r, ReleasedSample), Input(r + SHORT, ReleasedSample), Input(r + SHORT + 1, ReleasedSample)])
        == Trace(b.(startPress := 0, startRelease := 0, pressBuf := t + SHORT - 1, preState := Pressed, state := Releasing),
                 [Pressed, Releasing])
  {
    var r := t + LONG + PEER + 1;
    var c1 := Confirmed(b, t).(state := LongPressing);
    var c3 := c1.(startRelease := r);
    var c4 := c3.(startRelease := 0, state := Pressed);
    var done := b.(startPress := 0, startRelease := 0, pressBuf := t + SHORT - 1, preState := Pressed, state := Releasing);
    assert !RepeatDue(t, r);
    assert BtnProc(c1, r, ReleasedSample) == Stepped(c3, Quiet);
    ReleaseEndsPress(c3, r + SHORT, ReleasedSample);
    CompletedFoldsBack(c4, r + SHORT + 1, ReleasedSample);
    assert Run(c4, [Input(r + SHORT + 1, ReleasedSample)]) == Trace(done, [Releasing]);
    assert Run(c3, [Input(r + SHORT, ReleasedSample), Input(r + SHORT + 1, ReleasedSample)]) == Trace(done, [Pressed, Releasing]);
  }

  /**
    StartPresseTime survives released samples in Releasing, so a pressed sample
    SHORT - 1 ticks after an earlier isolated pressed sample confirms at once:
    a bounce shorter than SHORT can confirm a press.
  */
  lemma StaleStartConfirms(b: BtnView, t: nat)
    requires b.reader && b.state == Releasing && b.startPress == 0
    requires 1 <= t && t + SHORT < TWO_32
    ensures var ins := [Input(t, PressedSample)]
                       + Steady(t + 1, SHORT - 2, ReleasedSample)
                       + [Input(t + SHORT - 1, PressedSample)];
      Run(b, ins).signals == [Pressing] && Run(b, ins).final.state == Pressing
  {
    var armed := b.(startPress := t);
    ReleasingOnPress(b, t, PressedSample);
    assert Run(b, [Input(t, PressedSample)]) == Trace(armed, []);
    ReleasedStaysIdle(armed, Steady(t + 1, SHORT - 2, ReleasedSample));
    ReleasingOnPress(armed, t + SHORT - 1, PressedSample);
    assert Run(armed, [Input(t + SHORT - 1, PressedSample)]).signals == [Pressing];
    RunAppend(b, [Input(t, PressedSample)], Steady(t + 1, SHORT - 2, ReleasedSample));
    RunAppend(b, [Input(t, PressedSample)] + Steady(t + 1, SHORT - 2, ReleasedSample),
              [Input(t + SHORT - 1, PressedSample)]);
  }

  /**
    The repeat signal of a held long press is periodic: when between LONG and
    2^32 - PEER ticks have passed since StartPresseTime (measured in uint32_t,
    so a single counter wrap does not matter), it is due at `now` iff it is due
    PEER ticks later, and never in the PEER - 1 ticks after a tick where it was due.
  */
  lemma RepeatPeriodic(sp: u32, now: u32)
    requires LONG <= Sub32(now, sp) && Sub32(now, sp) + PEER < TWO_32
    ensures RepeatDue(sp, now) <==> RepeatDue(sp, Add32(now, PEER))
    ensures RepeatDue(sp, now) ==> forall d: u32 :: 0 < d < PEER ==> !RepeatDue(sp, Add32(now, d))
  {
    var x := Sub32(Sub32(now, sp), LONG);
    assert x == Sub32(now, sp) - LONG;
    forall d: u32 | 0 < d <= PEER
      ensures Sub32(Sub32(Add32(now, d), sp), LONG) == x + d
    {
      assert Sub32(Add32(now, d), sp) == Sub32(now, sp) + d;
    }
  }

  /**
    Because PEER divides LONG, once LONG ticks have passed since StartPresseTime
    the repeat is due exactly when the time passed is a multiple of PEER.
  */
  lemma RepeatOnPeerMultiples(sp: u32, now: u32)
    requires LONG <= Sub32(now, sp)
    ensures RepeatDue(sp, now) <==> Sub32(now, sp) % PEER == 0
  {
    var g := Sub32(now, sp);
    assert Sub32(g, LONG) == g - LONG;
    assert g == (g - LONG) + 13 * PEER;
  }

  /**
    The repeat test is an exact equality, so it fires only at counter values
    that land on a multiple of PEER after StartPresseTime. When the counter
    advances by 3 per tick, the repeat is due at offset 3 * k iff PEER divides
    k: the first repeat comes at offset 1500 = LONG + 200 and the next ones
    every 300 counter units, not every PEER.
  */
  lemma RepeatWithTickStep3(sp: u32, k: nat)
    requires LONG <= 3 * k < TWO_32
    ensures RepeatDue(sp, Add32(sp, 3 * k)) <==> k % PEER == 0
  {
    var now := Add32(sp, 3 * k);
    assert Sub32(now, sp) == 3 * k;
    RepeatOnPeerMultiples(sp, now);
    TripleOnPeerMultiples(k);
  }

  /** 3 * k is a multiple of PEER iff k is: 3 and PEER have no common factor. */
  lemma TripleOnPeerMultiples(k: nat)
    ensures (3 * k) % PEER == 0 <==> k % PEER == 0
  {
    var q, r := k / PEER, k % PEER;
    assert 3 * k == 3 * r + PEER * (3 * q);
    ShiftByPeerMultiple(3 * r, 3 * q);
    assert 3 * r != PEER && 3 * r != 2 * PEER;
  }

  lemma ShiftByPeerMultiple(x: nat, m: nat)
    ensures (x + PEER * m) % PEER == x % PEER
  {
    var y := x + PEER * m;
    assert y == PEER * (x / PEER + m) + x % PEER;
  }

  /**
    The duration tests `start + T < now + 1` are not wrap-safe: a press whose
    StartPresseTime lies PEER ticks before the counter wraps reaches LongPressing
    only PEER / 2 ticks later, long before LONG has elapsed.
  */
  lemma LongPressEarlyNearWrap(b: BtnView)
    requires b.reader && b.state == Pressing && b.startPress == TWO_32 - PEER
    requires b.startRelease == 0
    ensures var now := TWO_32 - PEER / 2;
      Sub32(now, b.startPress) < LONG
      && BtnProc(b, now, PressedSample).btn.state == LongPressing
  {
  }

  /**
    The same holds for the press debounce: a first pressed sample 2 to SHORT
    counter values before the counter wraps confirms the press at once.
  */
  lemma PressConfirmsAtOnceNearWrap(b: BtnView, d: nat)
    requires b.reader && b.state == Releasing && b.startPress == 0
    requires 2 <= d <= SHORT
    ensures BtnProc(b, TWO_32 - d, PressedSample).signal == Fire(Pressing)
  {
  }

  /**
    At the last counter value before the wrap, `now + 1` itself wraps to 0, so
    a first pressed sample there only arms the timer.
  */
  lemma PressWaitsAtLastValue(b: BtnView)
    requires b.reader && b.state == Releasing && b.startPress == 0
    ensures BtnProc(b, TWO_32 - 1, PressedSample) == Stepped(b.(startPress := TWO_32 - 1), Quiet)
  {
  }

  /**
    The wrap-safe form of those duration tests: at least `d` ticks separate
    `start` from `now`, the difference taken in uint32_t.
  */
  predicate Elapsed(start: u32, now: u32, d: nat)
  {
    Sub32(now, start) >= d
  }

  /** Elapsed measures the true gap whenever fewer than 2^32 ticks have passed, across a wrap too. */
  lemma ElapsedMeasuresGap(start: u32, gap: nat, d: nat)
    requires gap < TWO_32
    ensures Elapsed(start, Add32(start, gap), d) <==> gap >= d
  {
  }

  /**
    Where neither sum wraps and the counter has not wrapped since `start`, the
    source's tests agree with Elapsed: `start + T <= now + 1` (Releasing) means
    T - 1 ticks have passed and `start + T < now + 1` (Pressing, LongPressing)
    means T ticks have passed.
  */
  lemma ElapsedMatchesSumTest(start: u32, now: u32, d: u32)
    requires 1 <= d && start <= now && start + d < TWO_32 && now + 1 < TWO_32
    ensures Add32(start, d) <= Add32(now, 1) <==> Elapsed(start, now, d - 1)
    ensures Add32(start, d) < Add32(now, 1) <==> Elapsed(start, now, d)
  {
  }

  /**
    Near the wrap they disagree, at the inputs of LongPressEarlyNearWrap and
    PressConfirmsAtOnceNearWrap: the sum test says LONG (SHORT - 1) ticks have
    passed, Elapsed says they have not.
  */
  lemma SumTestDisagreesNearWrap()
    ensures var start, now := TWO_32 - PEER, TWO_32 - PEER / 2;
      Add32(start, LONG) < Add32(now, 1) && !Elapsed(start, now, LONG)
    ensures var start := TWO_32 - SHORT / 2;
      Add32(start, SHORT) <= Add32(start, 1) && !Elapsed(start, start, SHORT - 1)
  {
  }
}

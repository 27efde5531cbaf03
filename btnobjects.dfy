/**
  The buttons and groups of z_btnmgr.c as they run: z_btn_t and z_btngroup_t
  are objects whose fields the handlers update in place, and a group's member
  list is the sequence its traversal visits. Each method is proved to do what
  the functions of BtnFsm and BtnGroup say; the manager that owns the lists is
  in BtnManager.
*/
module BtnObjects {
  import opened Ticks
  import opened BtnTypes
  import opened BtnFsm
  import opened BtnGroup

  /** z_btn_t */
  class Button {
    var reader: bool          // ClickAction is not null
    var event: Callback       // Event
    var startPress: u32       // StartPresseTime
    var pressBuf: u32         // PressTimeBuf
    var startRelease: u32     // StartReleaseTime
    var state: BtnState       // State
    var preState: BtnState    // PreState
    var noResp: bool          // Flags.NoResp

    function View(): BtnView
      reads this
    {
      BtnView(reader, event, startPress, pressBuf, startRelease, state, preState, noResp)
    }

    /** A zero-filled z_btn_t, as a static object starts. */
    constructor ()
      ensures View() == Zeroed
    {
      reader, event := false, Null;
      startPress, pressBuf, startRelease := 0, 0, 0;
      state, preState := None, None;
      noResp := false;
    }

    /** __btnCallEventProc: the event reaches the callback only if there is one and NoResp is clear. */
    method CallEvent(sta: BtnState) returns (sent: seq<Notice>)
      ensures sent == Deliver(View(), Fire(sta))
    {
      if event.Null? || noResp {
        sent := [];
      } else {
        sent := [Notice(event.id, sta)];
      }
    }

    /** __btnReleasingProc; the first and second calls of the read callback return s.first and s.second. */
    method ReleasingStep(now: u32, s: Sample) returns (res: BtnState, sent: seq<Notice>)
      modifies this
      ensures var h := ReleasingProc(old(View()), now, s);
        View() == h.btn && res == h.res && sent == Deliver(old(View()), h.signal)
    {
      res, sent := Releasing, [];
      if s.first == 0 {
        return;
      }
      if startPress == 0 {
        startPress := now;
      }
      if Add32(startPress, SHORT) > Add32(now, 1) {
        return;
      }
      if s.second == 1 {
        startRelease := 0;
        pressBuf := now;
        res := Pressing;
        sent := CallEvent(res);
      }
    }

    /**
      The release handling shared by __btnPressingProc and __btnLongPressingProc:
      `ended` is Clicked or Pressed; `done` says that the release was confirmed and
      the handler returns at once with `ended`.
    */
    method ReleaseStep(now: u32, s: Sample, ended: BtnState) returns (done: bool, sent: seq<Notice>)
      modifies this
      ensures done == ReleaseConfirmed(old(View()), now, s)
      ensures done ==> View() == old(View()).(startRelease := 0) && sent == Deliver(old(View()), Fire(ended))
      ensures !done ==> View() == ReleaseTimer(old(View()), now, s) && sent == []
    {
      done, sent := false, [];
      if s.first == 0 {
        if startRelease == 0 {
          startRelease := now;
        } else if Add32(startRelease, SHORT) < Add32(now, 1) {
          startRelease := 0;
          done := true;
          sent := CallEvent(ended);
        }
      } else if Add32(startRelease, SHORT) < Add32(now, 1) {
        startRelease := 0;
      }
    }

    /** __btnPressingProc */
    method PressingStep(now: u32, s: Sample) returns (res: BtnState, sent: seq<Notice>)
      modifies this
      ensures var h := PressingProc(old(View()), now, s);
        View() == h.btn && res == h.res && sent == Deliver(old(View()), h.signal)
    {
      var done;
      res := Pressing;
      done, sent := ReleaseStep(now, s, Clicked);
      if done {
        return Clicked, sent;
      }
      if startPress == 0 {
        startPress := now;
      }
      if Add32(startPress, LONG) < Add32(now, 1) {
        startRelease := 0;
        res := LongPressing;
        sent := CallEvent(res);
      } else if Sub32(now, pressBuf) > SHORT + 1 {
        pressBuf := now;
        sent := CallEvent(res);
      }
    }

    /** __btnLongPressingProc */
    method LongPressingStep(now: u32, s: Sample) returns (res: BtnState, sent: seq<Notice>)
      modifies this
      ensures var h := LongPressingProc(old(View()), now, s);
        View() == h.btn && res == h.res && sent == Deliver(old(View()), h.signal)
    {
      var done;
      res := LongPressing;
      done, sent := ReleaseStep(now, s, Pressed);
      if done {
        return Pressed, sent;
      }
      if startPress == 0 {
        startPress := now;
      } else if Sub32(Sub32(now, startPress), LONG) % PEER == 0 {
        sent := CallEvent(LongPressedRepeat);
      }
    }

    /** __btnPressedOrClickedProc */
    method PressedOrClickedStep() returns (res: BtnState, sent: seq<Notice>)
      modifies this
      ensures var h := PressedOrClickedProc(old(View()));
        View() == h.btn && res == h.res && sent == Deliver(old(View()), h.signal)
    {
      res := Releasing;
      startRelease := 0;
      startPress := 0;
      preState := Pressed;
      sent := CallEvent(res);
    }

    /** z_btnmgr_btnProc: `sent` is what reached the event callback during the step. */
    method Proc(now: u32, s: Sample) returns (sent: seq<Notice>)
      modifies this
      ensures var st := BtnProc(old(View()), now, s);
        View() == st.btn && sent == Deliver(old(View()), st.signal)
    {
      sent := [];
      if !reader {
        return;
      }
      var res;
      match state
      case Releasing =>
        res, sent := ReleasingStep(now, s);
        state := res;
      case Pressing =>
        res, sent := PressingStep(now, s);
        state := res;
      case LongPressing =>
        res, sent := LongPressingStep(now, s);
        state := res;
      case Clicked =>
        res, sent := PressedOrClickedStep();
        state := res;
      case Pressed =>
        res, sent := PressedOrClickedStep();
        state := res;
      case _ =>
        state := Releasing;
    }

    /** z_btnmgr_isPressing */
    method IsPressingNow() returns (r: bool)
      ensures r == IsPressing(View())
      ensures r <==> state == Pressing || state == LongPressing
    {
      r := state == Pressing || state == LongPressing;
    }

    /** z_btnmgr_isReleasing */
    method IsReleasingNow() returns (r: bool)
      ensures r == IsReleasing(View())
      ensures r <==> state == Releasing
    {
      r := state == Releasing;
    }

    /** z_btnmgr_wasPressed */
    method WasPressedNow() returns (r: bool)
      modifies this
      ensures Query(r, View()) == WasPressed(old(View()))
    {
      r := false;
      if preState == Pressed {
        preState := None;
        r := true;
      }
    }
  }

  /** No button appears twice: a list node can be linked in only one place. */
  predicate Distinct(bs: seq<Button>)
  {
    forall i, j :: 0 <= i < j < |bs| ==> bs[i] != bs[j]
  }

  /** The fields of each button of `bs`, in order. */
  function Views(bs: seq<Button>): (r: seq<BtnView>)
    reads bs
    ensures |r| == |bs|
    ensures forall k :: 0 <= k < |bs| ==> r[k] == bs[k].View()
  {
    seq(|bs|, k reads bs requires 0 <= k < |bs| => bs[k].View())
  }

  /** The i-th member after the loop, and what it delivered, are those of its own btnProc step. */
  lemma StepAtSpec(ms: seq<BtnView>, now: u32, ss: seq<Sample>, i: nat)
    requires i < |ms| == |ss|
    ensures var st := BtnProc(ms[i], now, ss[i]);
      Buttons(StepMembers(ms, now, ss))[i] == st.btn
      && MemberNotices(ms, StepMembers(ms, now, ss))[i] == Deliver(ms[i], st.signal)
  {
    StepMembersAt(ms, now, ss, i);
  }

  /** Counting one more member, in a uint8_t, increments the count of the prefix exactly when that member is pressing. */
  lemma CountStep(ms: seq<BtnView>, i: nat)
    requires i < |ms|
    ensures CountPressing(ms[..i + 1]) % 256
         == if IsPressing(ms[i]) then Inc8(CountPressing(ms[..i]) % 256) else CountPressing(ms[..i]) % 256
  {
    assert ms[..i + 1][..i] == ms[..i];
    ByteIncrement(CountPressing(ms[..i]));
  }

  /** Flattening one more step's deliveries appends them. */
  lemma FlattenStep(nss: seq<seq<Notice>>, i: nat)
    requires i < |nss|
    ensures Flatten(nss[..i + 1]) == Flatten(nss[..i]) + nss[i]
  {
    assert nss[..i + 1][..i] == nss[..i];
  }

  /** `x++` on a uint8_t that holds x mod 256. */
  lemma ByteIncrement(x: nat)
    ensures Inc8(x % 256) == (x + 1) % 256
  {
  }

  /**
    One round of a list walk that steps each button: z_btnmgr_btnProc on bs[i];
    `sent0` is what the earlier rounds delivered.
  */
  method StepButton(bs: seq<Button>, i: nat, now: u32, ss: seq<Sample>, sent0: seq<Notice>,
                    ghost ms: seq<BtnView>, ghost after: seq<BtnView>, ghost sentAll: seq<seq<Notice>>)
    returns (sent: seq<Notice>)
    requires i < |bs| == |ss| == |ms| && bs[i].View() == ms[i] && Distinct(bs)
    requires after == Buttons(StepMembers(ms, now, ss)) && sentAll == MemberNotices(ms, StepMembers(ms, now, ss))
    requires sent0 == Flatten(sentAll[..i])
    modifies bs[i]
    ensures bs[i].View() == after[i]
    ensures forall k :: 0 <= k < |bs| && k != i ==> bs[k].View() == old(bs[k].View())
    ensures sent == Flatten(sentAll[..i + 1])
  {
    var sentB := bs[i].Proc(now, ss[i]);
    StepAtSpec(ms, now, ss, i);
    FlattenStep(sentAll, i);
    sent := sent0 + sentB;
  }

  /**
    The button loop of z_btnmgr_tick over the list `bs`: every button is stepped
    once, in list order; `sent` is what they delivered, in order.
  */
  method StepButtons(bs: seq<Button>, now: u32, ss: seq<Sample>) returns (sent: seq<Notice>)
    requires |ss| == |bs| && Distinct(bs)
    modifies bs
    ensures Views(bs) == Buttons(StepMembers(old(Views(bs)), now, ss))
    ensures sent == Flatten(MemberNotices(old(Views(bs)), StepMembers(old(Views(bs)), now, ss)))
  {
    ghost var ms := Views(bs);
    ghost var steps := StepMembers(ms, now, ss);
    ghost var after := Buttons(steps);
    ghost var sentAll := MemberNotices(ms, steps);
    sent := [];
    var i := 0;
    while i < |bs|
      invariant 0 <= i <= |bs|
      invariant forall k :: 0 <= k < i ==> bs[k].View() == after[k]
      invariant forall k :: i <= k < |bs| ==> bs[k].View() == ms[k]
      invariant sent == Flatten(sentAll[..i])
    {
      sent := StepButton(bs, i, now, ss, sent, ms, after, sentAll);
      i := i + 1;
    }
    assert after[..i] == after && sentAll[..i] == sentAll;
  }

  /**
    One round of the member loop of z_btnmgr_groupProc on bs[i]: z_btnmgr_btnProc,
    then `btncount++` and, when z_btnmgr_isPressing holds, `btnpress++`;
    `sent0`, `count0` and `press0` are the log and the counters the earlier
    rounds left.
  */
  method StepMember(bs: seq<Button>, i: nat, now: u32, ss: seq<Sample>,
                    sent0: seq<Notice>, count0: u8, press0: u8,
                    ghost ms: seq<BtnView>, ghost after: seq<BtnView>, ghost sentAll: seq<seq<Notice>>)
    returns (sent: seq<Notice>, count: u8, press: u8)
    requires i < |bs| == |ss| == |ms| && bs[i].View() == ms[i] && Distinct(bs)
    requires after == Buttons(StepMembers(ms, now, ss)) && sentAll == MemberNotices(ms, StepMembers(ms, now, ss))
    requires sent0 == Flatten(sentAll[..i]) && count0 == i % 256 && press0 == CountPressing(after[..i]) % 256
    modifies bs[i]
    ensures bs[i].View() == after[i]
    ensures forall k :: 0 <= k < |bs| && k != i ==> bs[k].View() == old(bs[k].View())
    ensures sent == Flatten(sentAll[..i + 1]) && count == (i + 1) % 256
    ensures press == CountPressing(after[..i + 1]) % 256
  {
    sent := StepButton(bs, i, now, ss, sent0, ms, after, sentAll);
    var pressing := bs[i].IsPressingNow();
    ByteIncrement(i);
    count := Inc8(count0);
    CountStep(after, i);
    press := if pressing then Inc8(press0) else press0;
  }

  /**
    The member loop of z_btnmgr_groupProc over the list `bs`: every member is
    stepped once, in list order, while the uint8_t counters `count` and `press`
    count the members and those that are pressing after their step; `sent` is
    what the members delivered, in order.
  */
  method StepEach(bs: seq<Button>, now: u32, ss: seq<Sample>) returns (sent: seq<Notice>, count: u8, press: u8)
    requires |ss| == |bs| && Distinct(bs)
    modifies bs
    ensures Views(bs) == Buttons(StepMembers(old(Views(bs)), now, ss))
    ensures sent == Flatten(MemberNotices(old(Views(bs)), StepMembers(old(Views(bs)), now, ss)))
    ensures count == |bs| % 256
    ensures press == CountPressing(Views(bs)) % 256
  {
    ghost var ms := Views(bs);
    ghost var steps := StepMembers(ms, now, ss);
    ghost var after := Buttons(steps);
    ghost var sentAll := MemberNotices(ms, steps);
    count, press := 0, 0;
    sent := [];
    var i := 0;
    while i < |bs|
      invariant 0 <= i <= |bs|
      invariant forall k :: 0 <= k < i ==> bs[k].View() == after[k]
      invariant forall k :: i <= k < |bs| ==> bs[k].View() == ms[k]
      invariant sent == Flatten(sentAll[..i]) && count == i % 256 && press == CountPressing(after[..i]) % 256
    {
      sent, count, press := StepMember(bs, i, now, ss, sent, count, press, ms, after, sentAll);
      i := i + 1;
    }
    assert after[..i] == after && sentAll[..i] == sentAll;
  }

  /** z_btngroup_t; `members` is the sequence the traversal of BtnsList visits. */
  class Group {
    var event: Callback         // Event
    var state: BtnState         // State
    var property: GroupProperty // Property
    var members: seq<Button>    // BtnsList

    function View(): GroupView
      reads this
    {
      GroupView(event, state, property)
    }

    /** The group's fields with those of its members, in list order. */
    function Snapshot(): GroupState
      reads this, members
    {
      GroupState(View(), Views(members))
    }

    /** A zero-filled z_btngroup_t with an initialised, empty member list. */
    constructor ()
      ensures View() == ZeroedGroup && members == []
    {
      event, state, property := Null, None, PropNone;
      members := [];
    }

    /** __grpStaChg: under Mutex every member's NoResp becomes (State == Pressing). */
    method StaChg()
      requires Distinct(members)
      modifies members
      ensures Views(members) == GrpStaChg(View(), old(Views(members)))
    {
      ghost var ms := Views(members);
      match property
      case Mutex =>
        var i := 0;
        while i < |members|
          invariant 0 <= i <= |members|
          invariant forall k :: 0 <= k < i ==> members[k].View() == ms[k].(noResp := state == Pressing)
          invariant forall k :: i <= k < |members| ==> members[k].View() == ms[k]
        {
          if state == Pressing {
            members[i].noResp := true;
          } else {
            members[i].noResp := false;
          }
          i := i + 1;
        }
      case _ =>
    }

    /** The decision half of z_btnmgr_groupProc, on the counters the loop left. */
    method Decide(count: u8, press: u8) returns (notice: seq<Notice>)
      requires Distinct(members)
      modifies this, members
      ensures members == old(members)
      ensures var r := Settle(old(View()), old(Views(members)), count, press);
        View() == r.grp && Views(members) == r.members && notice == r.notice
    {
      notice := [];
      if event.Fn? && count != 0 {
        if count == press {
          state := Pressing;
          StaChg();
        } else if state == Pressing && press == 0 {
          state := Clicked;
        } else if state == Clicked && press == 0 {
          state := Releasing;
          StaChg();
        } else {
          return;
        }
        notice := [Notice(event.id, state)];
      }
    }

    /**
      z_btnmgr_groupProc with member samples `ss`; `sent` is everything delivered
      during the call, in order: the members' events, then the group's.
    */
    method Proc(now: u32, ss: seq<Sample>) returns (sent: seq<Notice>)
      requires |ss| == |members| && Distinct(members)
      modifies this, members
      ensures members == old(members)
      ensures var r := GroupProc(old(View()), old(Views(members)), now, ss);
        View() == r.grp && Views(members) == r.members && sent == GroupLog(r)
    {
      var btncount, btnpress;
      sent, btncount, btnpress := StepEach(members, now, ss);
      var notice := Decide(btncount, btnpress);
      sent := sent + notice;
    }
  }
}

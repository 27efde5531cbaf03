/**
  z_btnmgr_groupProc and __grpStaChg as functions on a group's fields and its
  members' fields. The members are stepped in list order with the samples
  `ss` (one per member); the group then counts its members (`btncount`) and the
  pressing ones (`btnpress`) in uint8_t counters and derives its own state.
*/
module BtnGroup {
  import opened Ticks
  import opened BtnTypes
  import opened BtnFsm

  /** The fields of a z_btngroup_t other than its lists. */
  datatype GroupView = GroupView(event: Callback, state: BtnState, property: GroupProperty)

  /** A zero-filled z_btngroup_t. */
  const ZeroedGroup: GroupView := GroupView(Null, None, PropNone)

  /** A group's fields together with its members' fields, in list order. */
  datatype GroupState = GroupState(grp: GroupView, members: seq<BtnView>)

  /**
    One groupProc call: the group's new fields, its members' new fields, what
    each member's step delivered to its own callback, and the group's delivery.
  */
  datatype GroupOut = GroupOut(
    grp: GroupView,
    members: seq<BtnView>,
    memberNotices: seq<seq<Notice>>,
    notice: seq<Notice>)

  /** Every member stepped once at `now`, in list order. */
  function StepMembers(ms: seq<BtnView>, now: u32, ss: seq<Sample>): (r: seq<Stepped>)
    requires |ss| == |ms|
    ensures |r| == |ms|
    decreases |ms|
  {
    if ms == [] then []
    else StepMembers(ms[..|ms| - 1], now, ss[..|ss| - 1]) + [BtnProc(ms[|ms| - 1], now, ss[|ss| - 1])]
  }

  /** The k-th member is stepped exactly as a standalone button. */
  lemma {:induction false} StepMembersAt(ms: seq<BtnView>, now: u32, ss: seq<Sample>, k: nat)
    requires |ss| == |ms| && k < |ms|
    ensures StepMembers(ms, now, ss)[k] == BtnProc(ms[k], now, ss[k])
    decreases |ms|
  {
    if k < |ms| - 1 {
      StepMembersAt(ms[..|ms| - 1], now, ss[..|ss| - 1], k);
    }
  }

  function Buttons(st: seq<Stepped>): (r: seq<BtnView>)
    ensures |r| == |st|
  {
    seq(|st|, k requires 0 <= k < |st| => st[k].btn)
  }

  /** What each member's step delivered to its own callback. */
  function MemberNotices(ms: seq<BtnView>, st: seq<Stepped>): (r: seq<seq<Notice>>)
    requires |st| == |ms|
    ensures |r| == |ms|
  {
    seq(|ms|, k requires 0 <= k < |ms| => Deliver(ms[k], st[k].signal))
  }

  /** The deliveries of several steps, in order. */
  function Flatten(nss: seq<seq<Notice>>): (r: seq<Notice>)
  {
    if nss == [] then [] else Flatten(nss[..|nss| - 1]) + nss[|nss| - 1]
  }

  /** Everything one groupProc call delivers, in the order the callbacks run: the members', then the group's. */
  function GroupLog(r: GroupOut): seq<Notice>
  {
    Flatten(r.memberNotices) + r.notice
  }

  /** How many of `ms` satisfy isPressing, counted from the front as the loop does. */
  function CountPressing(ms: seq<BtnView>): (c: nat)
    ensures c <= |ms|
  {
    if ms == [] then 0
    else CountPressing(ms[..|ms| - 1]) + (if IsPressing(ms[|ms| - 1]) then 1 else 0)
  }

  predicate AllPressing(ms: seq<BtnView>)
  {
    forall k :: 0 <= k < |ms| ==> IsPressing(ms[k])
  }

  predicate NonePressing(ms: seq<BtnView>)
  {
    forall k :: 0 <= k < |ms| ==> !IsPressing(ms[k])
  }

  /** The count reaches the number of members exactly when all of them are pressing. */
  lemma {:induction false} CountAll(ms: seq<BtnView>)
    ensures CountPressing(ms) == |ms| <==> AllPressing(ms)
    decreases |ms|
  {
    if ms != [] {
      var init := ms[..|ms| - 1];
      CountAll(init);
      assert AllPressing(ms) <==> AllPressing(init) && IsPressing(ms[|ms| - 1]);
    }
  }

  /** The count is zero exactly when no member is pressing. */
  lemma {:induction false} CountNone(ms: seq<BtnView>)
    ensures CountPressing(ms) == 0 <==> NonePressing(ms)
    decreases |ms|
  {
    if ms != [] {
      var init := ms[..|ms| - 1];
      CountNone(init);
      assert NonePressing(ms) <==> NonePressing(init) && !IsPressing(ms[|ms| - 1]);
    }
  }

  /** Every member's NoResp set to `flag`, nothing else changed. */
  function WithNoResp(ms: seq<BtnView>, flag: bool): (r: seq<BtnView>)
    ensures |r| == |ms|
  {
    seq(|ms|, k requires 0 <= k < |ms| => ms[k].(noResp := flag))
  }

  /** __grpStaChg: under Mutex, NoResp := (group state is Pressing) on every member. */
  function GrpStaChg(g: GroupView, ms: seq<BtnView>): (r: seq<BtnView>)
    ensures |r| == |ms|
  {
    match g.property
    case Mutex => WithNoResp(ms, g.state == Pressing)
    case _ => ms
  }

  /** The group's fields, its members' fields and the group's delivery after the decision step. */
  datatype Settled = Settled(grp: GroupView, members: seq<BtnView>, notice: seq<Notice>)

  /**
    The second half of z_btnmgr_groupProc: with the uint8_t counters `count`
    (members) and `press` (members pressing after their step), a group with a
    callback and a non-zero count enters Pressing when the counters agree, and
    otherwise leaves Pressing for Clicked, or Clicked for Releasing, when no
    member is pressing; it fires its callback with every new state and applies
    __grpStaChg on entering Pressing and Releasing.
  */
  function Settle(g: GroupView, after: seq<BtnView>, count: nat, press: nat): (r: Settled)
    ensures |r.members| == |after|
    ensures r.grp.event == g.event && r.grp.property == g.property
  {
    if g.event.Null? || count == 0 then Settled(g, after, [])
    else if count == press then
      var g' := g.(state := Pressing);
      Settled(g', GrpStaChg(g', after), [Notice(g.event.id, Pressing)])
    else if g.state == Pressing && press == 0 then
      Settled(g.(state := Clicked), after, [Notice(g.event.id, Clicked)])
    else if g.state == Clicked && press == 0 then
      var g' := g.(state := Releasing);
      Settled(g', GrpStaChg(g', after), [Notice(g.event.id, Releasing)])
    else Settled(g, after, [])
  }

  /** z_btnmgr_groupProc */
  function GroupProc(g: GroupView, ms: seq<BtnView>, now: u32, ss: seq<Sample>): (r: GroupOut)
    requires |ss| == |ms|
    ensures |r.members| == |ms| && |r.memberNotices| == |ms|
    ensures r.grp.event == g.event && r.grp.property == g.property
  {
    var stepped := StepMembers(ms, now, ss);
    var after := Buttons(stepped);
    var s := Settle(g, after, |ms| % 256, CountPressing(after) % 256);
    GroupOut(s.grp, s.members, MemberNotices(ms, stepped), s.notice)
  }

  // ---------------------------------------------------------------- properties

  /** Members are stepped exactly as standalone buttons, and each delivers what its own step signals. */
  lemma MembersStepAlone(g: GroupView, ms: seq<BtnView>, now: u32, ss: seq<Sample>, k: nat)
    requires |ss| == |ms| && k < |ms|
    ensures var r := GroupProc(g, ms, now, ss);
      var st := BtnProc(ms[k], now, ss[k]);
      && r.members[k] == st.btn.(noResp := r.members[k].noResp)
      && r.memberNotices[k] == Deliver(ms[k], st.signal)
  {
    StepMembersAt(ms, now, ss, k);
  }

  /** A count below 256 fits in a uint8_t unchanged. */
  lemma SmallCount(x: nat)
    requires x < 256
    ensures x % 256 == x
  {
  }

  /**
    The decision on the stepped members `after`, for a group with a callback and
    1..255 members (so that the uint8_t counters do not wrap): all members
    pressing gives Pressing and one event; none pressing gives Clicked from
    Pressing and Releasing from Clicked, with one event; every other case keeps
    the state, leaves the members alone and delivers nothing.
  */
  lemma SettleTransitions(g: GroupView, after: seq<BtnView>)
    requires 0 < |after| < 256 && g.event.Fn?
    ensures var r := Settle(g, after, |after| % 256, CountPressing(after) % 256);
      && (AllPressing(after) ==> r.grp.state == Pressing && r.notice == [Notice(g.event.id, Pressing)])
      && (NonePressing(after) && g.state == Pressing ==>
            r.grp.state == Clicked && r.notice == [Notice(g.event.id, Clicked)])
      && (NonePressing(after) && g.state == Clicked ==>
            r.grp.state == Releasing && r.notice == [Notice(g.event.id, Releasing)])
      && (!AllPressing(after) && !(NonePressing(after) && (g.state == Pressing || g.state == Clicked)) ==>
            r.grp == g && r.notice == [] && r.members == after)
  {
    CountAll(after);
    CountNone(after);
    SmallCount(|after|);
    SmallCount(CountPressing(after));
  }

  /** The same four outcomes for a whole z_btnmgr_groupProc call, judged on the members after their step. */
  lemma GroupTransitions(g: GroupView, ms: seq<BtnView>, now: u32, ss: seq<Sample>)
    requires |ss| == |ms| && 0 < |ms| < 256 && g.event.Fn?
    ensures var r := GroupProc(g, ms, now, ss);
      var after := Buttons(StepMembers(ms, now, ss));
      && (AllPressing(after) ==> r.grp.state == Pressing && r.notice == [Notice(g.event.id, Pressing)])
      && (NonePressing(after) && g.state == Pressing ==>
            r.grp.state == Clicked && r.notice == [Notice(g.event.id, Clicked)])
      && (NonePressing(after) && g.state == Clicked ==>
            r.grp.state == Releasing && r.notice == [Notice(g.event.id, Releasing)])
      && (!AllPressing(after) && !(NonePressing(after) && (g.state == Pressing || g.state == Clicked)) ==>
            r.grp == g && r.notice == [] && r.members == after)
  {
    SettleTransitions(g, Buttons(StepMembers(ms, now, ss)));
  }

  /** Without a callback or without members a group never changes and never fires. */
  lemma SilentGroup(g: GroupView, ms: seq<BtnView>, now: u32, ss: seq<Sample>)
    requires |ss| == |ms| && (g.event.Null? || ms == [])
    ensures var r := GroupProc(g, ms, now, ss);
      r.grp == g && r.notice == [] && r.members == Buttons(StepMembers(ms, now, ss))
  {
  }

  /** With 256 members the uint8_t member counter wraps to 0 and the group is silent. */
  lemma CounterWrapSilences(g: GroupView, ms: seq<BtnView>, now: u32, ss: seq<Sample>)
    requires |ss| == |ms| == 256
    ensures GroupProc(g, ms, now, ss).notice == []
  {
  }

  /**
    The Mutex policy: entering Pressing sets NoResp on every member, entering
    Releasing clears it on every member, and every other outcome (Clicked
    included) leaves each member's NoResp as it was.
  */
  lemma MutexPolicy(g: GroupView, ms: seq<BtnView>, now: u32, ss: seq<Sample>)
    requires |ss| == |ms| && g.property == Mutex
    ensures var r := GroupProc(g, ms, now, ss);
      && (r.notice != [] && r.grp.state == Pressing ==> forall k :: 0 <= k < |ms| ==> r.members[k].noResp)
      && (r.notice != [] && r.grp.state == Releasing ==> forall k :: 0 <= k < |ms| ==> !r.members[k].noResp)
      && (r.notice == [] || r.grp.state == Clicked ==>
            forall k :: 0 <= k < |ms| ==> r.members[k].noResp == ms[k].noResp)
  {
    forall k | 0 <= k < |ms| {
      StepMembersAt(ms, now, ss, k);
    }
  }

  /** Parallel and None leave every member's NoResp alone. */
  lemma ParallelPolicy(g: GroupView, ms: seq<BtnView>, now: u32, ss: seq<Sample>)
    requires |ss| == |ms| && g.property != Mutex
    ensures var r := GroupProc(g, ms, now, ss);
      forall k :: 0 <= k < |ms| ==> r.members[k].noResp == ms[k].noResp
  {
    forall k | 0 <= k < |ms| {
      StepMembersAt(ms, now, ss, k);
    }
  }

  /**
    A Mutex group in Pressing whose members are suppressed keeps them suppressed
    while some but not all of them are pressing: releasing one member does not
    lift the suppression; only the group's return to Releasing does.
  */
  lemma PartialReleaseKeepsSuppression(g: GroupView, ms: seq<BtnView>, now: u32, ss: seq<Sample>)
    requires |ss| == |ms| && 0 < |ms| < 256 && g.property == Mutex && g.state == Pressing
    requires forall k :: 0 <= k < |ms| ==> ms[k].noResp
    requires var after := Buttons(StepMembers(ms, now, ss));
      !AllPressing(after) && !NonePressing(after)
    ensures var r := GroupProc(g, ms, now, ss);
      r.grp == g && r.notice == [] && forall k :: 0 <= k < |ms| ==> r.members[k].noResp
  {
    if g.event.Fn? {
      SettleTransitions(g, Buttons(StepMembers(ms, now, ss)));
    }
    forall k | 0 <= k < |ms| {
      StepMembersAt(ms, now, ss, k);
    }
  }

  /** A suppressed member delivers nothing to its own callback, whatever its step signals. */
  lemma SuppressedMemberIsSilent(g: GroupView, ms: seq<BtnView>, now: u32, ss: seq<Sample>, k: nat)
    requires |ss| == |ms| && k < |ms| && ms[k].noResp
    ensures GroupProc(g, ms, now, ss).memberNotices[k] == []
  {
    StepMembersAt(ms, now, ss, k);
  }
}

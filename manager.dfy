/**
  The manager of z_btnmgr.c: its tick counter and its two lists (the
  standalone buttons and the groups), the registration calls that fill them,
  and z_btnmgr_tick, which advances the counter and steps every list entry
  once. TickStep is what one tick does, stated on values; ButtonManager.Tick
  is proved to do exactly that to the objects.
*/
module BtnManager {
  import opened Ticks
  import opened BtnTypes
  import opened BtnFsm
  import opened BtnGroup
  import opened BtnObjects

  /** The manager's fields: TickCount, the button list and the group list. */
  datatype MgrView = MgrView(tick: u32, buttons: seq<BtnView>, groups: seq<GroupState>)

  /** The manager after one tick, and everything the callbacks were sent, in order. */
  datatype TickOut = TickOut(view: MgrView, log: seq<Notice>)

  /** Samples for every button of `m`: one per standalone button, one list per group. */
  predicate Fits(m: MgrView, bss: seq<Sample>, gss: seq<seq<Sample>>)
  {
    && |bss| == |m.buttons|
    && |gss| == |m.groups|
    && forall k :: 0 <= k < |gss| ==> |gss[k]| == |m.groups[k].members|
  }

  /** Every group processed once at `now`; the k-th outcome is that of the k-th group's groupProc call. */
  function GroupSteps(gs: seq<GroupState>, now: u32, gss: seq<seq<Sample>>): (r: seq<GroupOut>)
    requires |gss| == |gs| && forall k :: 0 <= k < |gs| ==> |gss[k]| == |gs[k].members|
    ensures |r| == |gs|
  {
    seq(|gs|, k requires 0 <= k < |gs| => GroupProc(gs[k].grp, gs[k].members, now, gss[k]))
  }

  /** Each group's fields and members as its groupProc call left them. */
  function GroupsAfter(rs: seq<GroupOut>): (r: seq<GroupState>)
    ensures |r| == |rs|
    ensures forall k :: 0 <= k < |rs| ==> r[k] == GroupState(rs[k].grp, rs[k].members)
  {
    seq(|rs|, k requires 0 <= k < |rs| => GroupState(rs[k].grp, rs[k].members))
  }

  /** The deliveries of several groupProc calls, in order. */
  function GroupsLog(rs: seq<GroupOut>): seq<Notice>
  {
    if rs == [] then [] else GroupsLog(rs[..|rs| - 1]) + GroupLog(rs[|rs| - 1])
  }

  /**
    z_btnmgr_tick(ms): TickCount advances by ms modulo 2^32, every standalone
    button is stepped at the new count, then every group is processed at it.
  */
  function TickStep(m: MgrView, ms: u32, bss: seq<Sample>, gss: seq<seq<Sample>>): (r: TickOut)
    requires Fits(m, bss, gss)
    ensures r.view.tick == Add32(m.tick, ms)
    ensures |r.view.buttons| == |m.buttons| && |r.view.groups| == |m.groups|
  {
    var now := Add32(m.tick, ms);
    var steps := StepMembers(m.buttons, now, bss);
    var rs := GroupSteps(m.groups, now, gss);
    TickOut(MgrView(now, Buttons(steps), GroupsAfter(rs)),
            Flatten(MemberNotices(m.buttons, steps)) + GroupsLog(rs))
  }

  /**
    Each standalone button is stepped by btnProc at the new count, independently
    of every other button and of the groups.
  */
  lemma TickButton(m: MgrView, ms: u32, bss: seq<Sample>, gss: seq<seq<Sample>>, i: nat)
    requires Fits(m, bss, gss) && i < |m.buttons|
    ensures TickStep(m, ms, bss, gss).view.buttons[i] == BtnProc(m.buttons[i], Add32(m.tick, ms), bss[i]).btn
  {
    StepMembersAt(m.buttons, Add32(m.tick, ms), bss, i);
  }

  /**
    Each group ends as its own groupProc call at the new count leaves it,
    independently of the other groups and of the standalone buttons.
  */
  lemma TickGroup(m: MgrView, ms: u32, bss: seq<Sample>, gss: seq<seq<Sample>>, k: nat)
    requires Fits(m, bss, gss) && k < |m.groups|
    ensures var r := GroupProc(m.groups[k].grp, m.groups[k].members, Add32(m.tick, ms), gss[k]);
      TickStep(m, ms, bss, gss).view.groups[k] == GroupState(r.grp, r.members)
  {
  }

  /**
    With one registered button and no group, a tick is one btnProc call at the
    advanced count, and the log is what that call delivers.
  */
  lemma TickSingleButton(m: MgrView, ms: u32, s: Sample)
    requires |m.buttons| == 1 && m.groups == []
    ensures var st := BtnProc(m.buttons[0], Add32(m.tick, ms), s);
      TickStep(m, ms, [s], []) == TickOut(MgrView(Add32(m.tick, ms), [st.btn], []), Deliver(m.buttons[0], st.signal))
  {
    var now := Add32(m.tick, ms);
    var st := BtnProc(m.buttons[0], now, s);
    var steps := StepMembers(m.buttons, now, [s]);
    assert steps == [st];
    assert Buttons(steps) == [st.btn];
    var n := Deliver(m.buttons[0], st.signal);
    assert MemberNotices(m.buttons, steps) == [n];
    assert Flatten([n]) == n;
    assert GroupsAfter(GroupSteps(m.groups, now, [])) == [];
  }

  /** Flattening deliveries that are all empty gives nothing. */
  lemma {:induction false} FlattenEmpty(nss: seq<seq<Notice>>)
    requires forall k :: 0 <= k < |nss| ==> nss[k] == []
    ensures Flatten(nss) == []
  {
    if nss != [] {
      FlattenEmpty(nss[..|nss| - 1]);
    }
  }

  /**
    A tick with no groups in which every standalone button is idle (Releasing,
    with a reader) and reads its button released sends nothing and changes no button: only
    the counter moves.
  */
  lemma IdleTick(m: MgrView, ms: u32, bss: seq<Sample>)
    requires |bss| == |m.buttons| && m.groups == []
    requires forall i :: 0 <= i < |m.buttons| ==> m.buttons[i].reader && m.buttons[i].state == Releasing
    requires forall i :: 0 <= i < |bss| ==> bss[i].first == 0
    ensures TickStep(m, ms, bss, []) == TickOut(m.(tick := Add32(m.tick, ms)), [])
  {
    var now := Add32(m.tick, ms);
    var steps := StepMembers(m.buttons, now, bss);
    forall i | 0 <= i < |m.buttons|
      ensures steps[i] == BtnProc(m.buttons[i], now, bss[i])
      ensures Deliver(m.buttons[i], steps[i].signal) == []
    {
      StepMembersAt(m.buttons, now, bss, i);
      ReleasingIgnoresRelease(m.buttons[i], now, bss[i]);
    }
    FlattenEmpty(MemberNotices(m.buttons, steps));
    assert Buttons(steps) == m.buttons;
  }

  /** Each group's member list, in order. */
  function MemberLists(gs: seq<Group>): (r: seq<seq<Button>>)
    reads gs
    ensures |r| == |gs|
    ensures forall k :: 0 <= k < |gs| ==> r[k] == gs[k].members
  {
    seq(|gs|, k reads gs requires 0 <= k < |gs| => gs[k].members)
  }

  /** No button is in two of the lists, or twice in one. */
  predicate Separate(ls: seq<seq<Button>>)
  {
    && (forall k :: 0 <= k < |ls| ==> Distinct(ls[k]))
    && (forall i, j, b :: 0 <= i < |ls| && 0 <= j < |ls| && i != j && b in ls[i] ==> b !in ls[j])
  }

  /** The buttons on some list of `ls`. */
  function Owned(ls: seq<seq<Button>>): (r: set<Button>)
    ensures forall k, b :: 0 <= k < |ls| && b in ls[k] ==> b in r
  {
    set k, b | 0 <= k < |ls| && b in ls[k] :: b
  }

  /** No button of `bs` is on any of the lists `ls`. */
  predicate Apart(bs: seq<Button>, ls: seq<seq<Button>>)
  {
    forall k, b :: 0 <= k < |ls| && b in ls[k] ==> b !in bs
  }

  /** A button of `bs` belongs to no list of `ls` when the two are apart. */
  lemma NotOwned(bs: seq<Button>, ls: seq<seq<Button>>)
    requires Apart(bs, ls)
    ensures forall b :: b in Owned(ls) ==> b !in bs
  {
  }

  /** No group appears twice in `gs`. */
  predicate Unique(gs: seq<Group>)
  {
    forall i, j :: 0 <= i < j < |gs| ==> gs[i] != gs[j]
  }

  /**
    The button list `bs`, the group list `gs` and the groups' member lists `ls`
    link every button in one place only.
  */
  predicate Linked(bs: seq<Button>, gs: seq<Group>, ls: seq<seq<Button>>)
  {
    Distinct(bs) && Unique(gs) && Separate(ls) && Apart(bs, ls)
  }

  /**
    Appending a button that is on no list to the j-th member list keeps every
    button linked in one place.
  */
  lemma LinkedAppend(bs: seq<Button>, gs: seq<Group>, ls: seq<seq<Button>>, j: nat, b: Button)
    requires Linked(bs, gs, ls) && j < |ls| && b !in bs && b !in Owned(ls)
    ensures Linked(bs, gs, ls[j := ls[j] + [b]])
  {
    var ls' := ls[j := ls[j] + [b]];
    forall k | 0 <= k < |ls'|
      ensures Distinct(ls'[k])
    {
      if k == j {
        assert b !in ls[j];
      }
    }
  }

  /** Appending a new group with an empty member list keeps every button linked in one place. */
  lemma LinkedAddGroup(bs: seq<Button>, gs: seq<Group>, ls: seq<seq<Button>>, g: Group)
    requires Linked(bs, gs, ls) && |ls| == |gs| && g !in gs
    ensures Linked(bs, gs + [g], ls + [[]])
  {
  }

  /** The buttons that are members of some group of `gs`. */
  function MembersOf(gs: seq<Group>): set<Button>
    reads gs
  {
    Owned(MemberLists(gs))
  }

  /** The fields of each group of `gs` with its members', in order. */
  function States(gs: seq<Group>): (r: seq<GroupState>)
    reads gs, MembersOf(gs)
    ensures |r| == |gs|
    ensures forall k :: 0 <= k < |gs| ==> r[k] == gs[k].Snapshot()
  {
    seq(|gs|, k reads gs, MembersOf(gs) requires 0 <= k < |gs| => gs[k].Snapshot())
  }

  /** The deliveries of one more groupProc call follow those of the earlier ones. */
  lemma GroupsLogStep(rs: seq<GroupOut>, j: nat)
    requires j < |rs|
    ensures GroupsLog(rs[..j + 1]) == GroupsLog(rs[..j]) + GroupLog(rs[j])
  {
    assert rs[..j + 1][..j] == rs[..j];
  }

  /** rs[k] is the outcome of groupProc at `now` on the k-th group of `gs`. */
  predicate ProcessedAt(gs: seq<GroupState>, now: u32, gss: seq<seq<Sample>>, rs: seq<GroupOut>, k: nat)
  {
    && k < |gs| == |gss| == |rs|
    && |gss[k]| == |gs[k].members|
    && rs[k] == GroupProc(gs[k].grp, gs[k].members, now, gss[k])
  }

  /**
    One round of the group loop of z_btnmgr_tick: z_btnmgr_groupProc on gs[j],
    whose outcome is rs[j]; no other group and no member of another group
    changes. `sent0` is what the earlier rounds delivered.
  */
  method ProcGroupAt(gs: seq<Group>, j: nat, now: u32, gss: seq<seq<Sample>>, sent0: seq<Notice>,
                     ghost ls: seq<seq<Button>>, ghost s0: seq<GroupState>, ghost rs: seq<GroupOut>)
    returns (sent: seq<Notice>)
    requires Unique(gs) && Separate(ls) && MemberLists(gs) == ls
    requires j < |gs| == |s0| && gs[j].Snapshot() == s0[j]
    requires ProcessedAt(s0, now, gss, rs, j) && sent0 == GroupsLog(rs[..j])
    modifies gs[j], gs[j].members
    ensures gs[j].Snapshot() == GroupState(rs[j].grp, rs[j].members)
    ensures MemberLists(gs) == ls
    ensures forall k :: 0 <= k < |gs| && k != j ==> gs[k].Snapshot() == old(gs[k].Snapshot())
    ensures sent == GroupsLog(rs[..j + 1])
  {
    var sentG := gs[j].Proc(now, gss[j]);
    GroupsLogStep(rs, j);
    sent := sent0 + sentG;
    forall k | 0 <= k < |gs| && k != j
      ensures gs[k].Snapshot() == old(gs[k].Snapshot())
    {
      forall i | 0 <= i < |ls[k]|
        ensures ls[k][i].View() == old(ls[k][i].View())
      {
        assert ls[k][i] !in ls[j];
      }
    }
  }

  /**
    The group loop of z_btnmgr_tick over the list `gs`, whose fields are `s0`:
    every group is processed once, in list order, rs[k] being the outcome of
    the k-th; `sent` is what they delivered, in order.
  */
  method ProcGroups(gs: seq<Group>, now: u32, gss: seq<seq<Sample>>,
                    ghost ls: seq<seq<Button>>, ghost s0: seq<GroupState>, ghost rs: seq<GroupOut>)
    returns (sent: seq<Notice>)
    requires Unique(gs) && Separate(ls) && MemberLists(gs) == ls && |s0| == |gs| == |rs|
    requires forall k :: 0 <= k < |gs| ==> gs[k].Snapshot() == s0[k]
    requires forall k :: 0 <= k < |gs| ==> ProcessedAt(s0, now, gss, rs, k)
    modifies gs, Owned(ls)
    ensures MemberLists(gs) == ls
    ensures States(gs) == GroupsAfter(rs)
    ensures sent == GroupsLog(rs)
  {
    sent := [];
    var j := 0;
    while j < |gs|
      invariant 0 <= j <= |gs|
      invariant MemberLists(gs) == ls
      invariant forall k :: 0 <= k < j ==> gs[k].Snapshot() == GroupState(rs[k].grp, rs[k].members)
      invariant forall k :: j <= k < |gs| ==> gs[k].Snapshot() == s0[k]
      invariant sent == GroupsLog(rs[..j])
    {
      sent := ProcGroupAt(gs, j, now, gss, sent, ls, s0, rs);
      j := j + 1;
    }
    assert rs[..j] == rs;
    assert States(gs) == GroupsAfter(rs);
  }

  /**
    The button loop of z_btnmgr_tick over `bs`, as StepButtons; the groups of
    `gs` and their members, none of which is on `bs`, keep their fields.
  */
  method StepLoose(bs: seq<Button>, gs: seq<Group>, now: u32, bss: seq<Sample>, ghost ls: seq<seq<Button>>)
    returns (sent: seq<Notice>)
    requires Linked(bs, gs, ls) && MemberLists(gs) == ls && |bss| == |bs|
    modifies bs
    ensures MemberLists(gs) == ls && States(gs) == old(States(gs))
    ensures Views(bs) == Buttons(StepMembers(old(Views(bs)), now, bss))
    ensures sent == Flatten(MemberNotices(old(Views(bs)), StepMembers(old(Views(bs)), now, bss)))
  {
    ghost var s0 := States(gs);
    sent := StepButtons(bs, now, bss);
    forall k | 0 <= k < |gs|
      ensures gs[k].Snapshot() == s0[k]
    {
      forall i | 0 <= i < |ls[k]|
        ensures ls[k][i].View() == old(ls[k][i].View())
      {
        assert ls[k][i] !in bs;
      }
    }
  }

  /**
    The two loops of z_btnmgr_tick at `now`: the button list `bs`, then the
    group list `gs`, whose fields are `s0` and whose outcomes are `rs`.
  */
  method StepAll(bs: seq<Button>, gs: seq<Group>, now: u32, bss: seq<Sample>, gss: seq<seq<Sample>>,
                 ghost ls: seq<seq<Button>>, ghost s0: seq<GroupState>, ghost rs: seq<GroupOut>)
    returns (sent: seq<Notice>)
    requires Linked(bs, gs, ls) && MemberLists(gs) == ls && |bss| == |bs|
    requires |s0| == |gs| == |rs| && States(gs) == s0
    requires forall k :: 0 <= k < |gs| ==> ProcessedAt(s0, now, gss, rs, k)
    modifies bs, gs, Owned(ls)
    ensures MemberLists(gs) == ls
    ensures Views(bs) == Buttons(StepMembers(old(Views(bs)), now, bss))
    ensures States(gs) == GroupsAfter(rs)
    ensures sent == Flatten(MemberNotices(old(Views(bs)), StepMembers(old(Views(bs)), now, bss))) + GroupsLog(rs)
  {
    var sentB := StepLoose(bs, gs, now, bss, ls);
    ghost var bv := Views(bs);
    NotOwned(bs, ls);
    var sentG := ProcGroups(gs, now, gss, ls, s0, rs);
    assert Views(bs) == bv;
    sent := sentB + sentG;
  }

  /**
    z_btnmgr_creategBtn: with a button and a reader, the button takes the reader
    and the event callback; a missing button or reader is BADPARAM and nothing
    changes.
  */
  method CreateBtn(b: Button?, reader: bool, event: Callback) returns (err: Err)
    modifies b
    ensures err == (if b == null || !reader then BadParam else Ok)
    ensures b != null && err == Ok ==> b.View() == old(b.View()).(reader := true, event := event)
    ensures b != null && err == BadParam ==> b.View() == old(b.View())
  {
    if b == null || !reader {
      return BadParam;
    }
    b.reader, b.event := true, event;
    err := Ok;
  }

  /**
    z_btnmgr_setGrpProperty: the group's Property becomes `val`, None being
    stored as Parallel; a missing group is BADPARAM.
  */
  method SetGrpProperty(g: Group?, val: GroupProperty) returns (err: Err)
    modifies g
    ensures err == (if g == null then BadParam else Ok)
    ensures g != null ==> g.property == (if val == PropNone then Parallel else val)
    ensures g != null ==> g.event == old(g.event) && g.state == old(g.state) && g.members == old(g.members)
  {
    if g == null {
      return BadParam;
    }
    g.property := if val == PropNone then Parallel else val;
    err := Ok;
  }

  /**
    The manager's parameters: TickCount and the heads of the button list and
    of the group list.
  */
  class ButtonManager {
    var tickCount: u32           // TickCount
    var buttons: seq<Button>     // Btns_BListHead
    var groups: seq<Group>       // BtnGrounp_BListHead
    ghost var ready: bool        // both list heads have been initialised

    /**
      Every button is linked in one place only: once in the button list or in
      one group, and no group is registered twice.
    */
    ghost predicate Valid()
      reads this, groups
    {
      Linked(buttons, groups, MemberLists(groups))
    }

    function View(): MgrView
      reads this, buttons, groups, MembersOf(groups)
    {
      MgrView(tickCount, Views(buttons), States(groups))
    }

    /** The zero-filled parameters: no list head is initialised yet. */
    constructor ()
      ensures View() == MgrView(0, [], []) && !ready && Valid()
    {
      tickCount, buttons, groups := 0, [], [];
      ready := false;
    }

    /** z_btnmgr_init: both lists become empty; TickCount is kept. */
    method Init()
      modifies this
      ensures View() == MgrView(old(tickCount), [], []) && ready && Valid()
    {
      buttons, groups := [], [];
      ready := true;
    }

    /**
      z_btnmgr_regBtn: a button with a reader is appended to the button list; a
      missing button or one without a reader is BADPARAM and nothing changes.
    */
    method RegBtn(b: Button?) returns (err: Err)
      requires ready && Valid()
      requires b != null && b.reader ==> b !in buttons && b !in MembersOf(groups)
      modifies this
      ensures ready && Valid()
      ensures err == (if b == null || !b.reader then BadParam else Ok)
      ensures err == Ok ==> buttons == old(buttons) + [b]
      ensures err == BadParam ==> buttons == old(buttons)
      ensures groups == old(groups) && tickCount == old(tickCount)
    {
      if b == null || !b.reader {
        return BadParam;
      }
      buttons := buttons + [b];
      err := Ok;
    }

    /**
      z_btnmgr_regGrounp: the group takes the event callback and an empty
      member list and is appended to the group list; a missing group is
      BADPARAM and nothing changes.
    */
    method RegGroup(g: Group?, event: Callback) returns (err: Err)
      requires ready && Valid()
      requires g != null ==> g !in groups
      modifies this, g
      ensures ready && Valid()
      ensures err == (if g == null then BadParam else Ok)
      ensures g != null ==> g.View() == old(g.View()).(event := event) && g.members == []
      ensures g != null ==> groups == old(groups) + [g]
      ensures g == null ==> groups == old(groups)
      ensures buttons == old(buttons) && tickCount == old(tickCount)
    {
      if g == null {
        return BadParam;
      }
      ghost var ls := MemberLists(groups);
      g.event, g.members := event, [];
      assert MemberLists(groups) == ls;
      groups := groups + [g];
      LinkedAddGroup(buttons, old(groups), ls, g);
      assert MemberLists(groups) == ls + [[]];
      err := Ok;
    }

    /**
      z_btnmgr_setGrounp: the button is appended to the group's member list and,
      when it has no event callback, takes the group's; a missing group or
      button is BADPARAM and nothing changes.
    */
    method SetGroup(g: Group?, b: Button?) returns (err: Err)
      requires Valid()
      requires g != null && b != null ==> g in groups && b !in buttons && b !in MembersOf(groups)
      modifies g, b
      ensures Valid()
      ensures err == (if g == null || b == null then BadParam else Ok)
      ensures err == Ok ==> g.members == old(g.members) + [b] && g.View() == old(g.View())
      ensures err == Ok ==> b.View() == old(b.View()).(event := if old(b.event).Null? then g.event else old(b.event))
      ensures err == BadParam && g != null ==> g.View() == old(g.View()) && g.members == old(g.members)
      ensures err == BadParam && b != null ==> b.View() == old(b.View())
    {
      if g == null || b == null {
        return BadParam;
      }
      ghost var n: Button := b;
      ghost var ls := MemberLists(groups);
      ghost var j :| 0 <= j < |groups| && groups[j] == g;
      g.members := g.members + [b];
      LinkedAppend(buttons, groups, ls, j, n);
      assert MemberLists(groups) == ls[j := ls[j] + [n]];
      if b.event.Null? {
        b.event := g.event;
      }
      err := Ok;
    }

    /**
      The two walks of z_btnmgr_tick at time `now`: every standalone button, then
      every group, each as StepMembers and GroupProc say; the counter and the
      lists themselves are left alone.
    */
    method Walk(now: u32, bss: seq<Sample>, gss: seq<seq<Sample>>) returns (sent: seq<Notice>)
      requires Valid() && Fits(View(), bss, gss)
      modifies buttons, groups, MembersOf(groups)
      ensures MemberLists(groups) == old(MemberLists(groups))
      ensures Views(buttons) == Buttons(StepMembers(old(Views(buttons)), now, bss))
      ensures States(groups) == GroupsAfter(GroupSteps(old(States(groups)), now, gss))
      ensures sent == Flatten(MemberNotices(old(Views(buttons)), StepMembers(old(Views(buttons)), now, bss)))
                      + GroupsLog(GroupSteps(old(States(groups)), now, gss))
    {
      ghost var s0 := States(groups);
      ghost var rs := GroupSteps(s0, now, gss);
      sent := StepAll(buttons, groups, now, bss, gss, MemberLists(groups), s0, rs);
    }

    /** The counter update of z_btnmgr_tick; no button or group changes. */
    method SetTick(now: u32)
      modifies this
      ensures tickCount == now && ready == old(ready)
      ensures buttons == old(buttons) && groups == old(groups)
      ensures MemberLists(groups) == old(MemberLists(groups))
      ensures Views(buttons) == old(Views(buttons)) && States(groups) == old(States(groups))
    {
      tickCount := now;
    }

    /**
      z_btnmgr_tick(ms) with samples `bss` for the standalone buttons and `gss`
      for the groups' members: the manager ends as TickStep says, and `sent` is
      every notice delivered, in order. The walks are handed the advanced count,
      so storing it after them rather than before changes nothing they see.
    */
    method Tick(ms: u32, bss: seq<Sample>, gss: seq<seq<Sample>>) returns (sent: seq<Notice>)
      requires ready && Valid() && Fits(View(), bss, gss)
      modifies this, buttons, groups, MembersOf(groups)
      ensures ready && buttons == old(buttons) && groups == old(groups)
      ensures MemberLists(groups) == old(MemberLists(groups))
      ensures Valid()
      ensures var r := TickStep(old(View()), ms, bss, gss); View() == r.view && sent == r.log
    {
      var now := Add32(tickCount, ms);
      sent := Walk(now, bss, gss);
      SetTick(now);
    }
  }
}

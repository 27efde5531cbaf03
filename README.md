# z_btnmgr in Dafny

A model of the button manager in `src/z_btnmgr.c` and `src/z_btnmgr.h`. It is a polling
debouncer for push buttons. On every call of `z_btnmgr_tick(ms)`, the manager does three things:

- It advances a 32-bit tick counter.
- It steps each registered button's state machine once (`z_btnmgr_btnProc`).
- It steps each registered button group once (`z_btnmgr_groupProc`).

A group steps its own members and derives a group gesture from how many of them are pressing.

The model has three layers, like the code.

1. **One button.** `BtnFsm` states the state machine as functions on the fields of a `z_btn_t`:
   - `BtnProc`, built from `ReleasingProc`, `PressingProc`, `LongPressingProc` and `PressedOrClickedProc`;
   - the delivery gate `Deliver`;
   - the three queries.

   `BtnRuns` follows one button over many ticks (`Run`). In `BtnObjects`, the class `Button` has the
   struct's fields, and its methods update them in place. Each method is proved to leave exactly
   the fields the matching function computes, and to deliver exactly the events that function
   signals.
2. **Groups.** `BtnGroup` states `z_btnmgr_groupProc` and `__grpStaChg` as functions on a group
   and the fields of its members. The class `BtnObjects.Group` does the same in place:
   - the member walk keeps the `uint8_t` counters `btncount` and `btnpress`;
   - the decision step and the Mutex flag loop follow it.
3. **The manager.** `BtnManager.ButtonManager` holds `TickCount`, the button list and the group
   list. It provides `z_btnmgr_init`, the registration calls and `z_btnmgr_tick`.
   `BtnManager.TickStep` says on values what one tick does. `ButtonManager.Tick` is proved to do
   exactly that to the objects, and to deliver the events in the order the callbacks run.

How the model represents the source:

- **Integer widths.** All counters and timer fields are `uint32_t` and wrap modulo 2^32 (`Ticks`).
  The group counters are `uint8_t` and wrap modulo 256.
- **Read callback.** It is a flag saying whether it is set, plus a `Sample` per tick. `first` is
  what its first call returns. `second` is what the second call returns, because
  `__btnReleasingProc` reads twice.
- **Event callback.** It is `Null` or `Fn(id)`. Calling it is recorded as a `Notice(id, state)`,
  and every operation returns the notices it delivered, in order.
- **Intrusive lists.** `BList.Ring` models `LIST_INIT`, `LIST_ADD`, `LIST_INSERT`, `LIST_LINK`
  and `LIST_DEL` on an array of index-addressed nodes. The proofs show four things:
  - `LIST_ADD` appends to the sequence that forward traversal visits;
  - `LIST_INSERT` prepends to it;
  - `LIST_DEL` removes the node and leaves it self-linked;
  - the traversal loop visits exactly that sequence.

  The manager and the groups therefore keep each list as that sequence.
- **Byte macros.** `ByteOrder` models `Z_4BYTESPLITE` and `Z_4BYTECOMBINE`.

Behaviour of the code as written, which the model keeps (each is a lemma below):

- In Releasing, a released sample does not reset `StartPresseTime`. So a bounce shorter than
  SHORT can confirm a press (`BtnRuns.StaleStartConfirms`).
- In Pressing, a pressed sample does not reset a running release timer before SHORT has
  elapsed. So two released samples SHORT ticks apart, with a bounce of pressed samples between
  them, confirm the release and signal Clicked (`BtnRuns.ReleaseBounceClicks`).
- The heartbeat `Pressing` event fires when more than SHORT + 1 ticks have passed since the last
  one, that is every SHORT + 2 ticks of a held press, not every SHORT
  (`BtnRuns.HeartbeatAfterShortPlus2`).
- The repeat test is an exact equality on the time since `StartPresseTime`, so it only fires
  on counter values that fall on LONG + k * PEER (`BtnRuns.RepeatOnPeerMultiples`). When
  `z_btnmgr_tick` advances the counter by more than 1, some of those values are skipped. With a
  step of 3, the first repeat comes at LONG + 200 and the next ones every 300 counter units
  (`BtnRuns.RepeatWithTickStep3`).
- The duration tests have the form `start + T < now + 1`. They are meant to tolerate a counter
  wrap, and they do not:
  - a press that starts shortly before the wrap reaches LongPressing early
    (`BtnRuns.LongPressEarlyNearWrap`);
  - a first pressed sample 2 to SHORT counter values before the wrap confirms the press at
    once (`BtnRuns.PressConfirmsAtOnceNearWrap`). At the last value before the wrap, `now + 1`
    wraps as well and the sample only arms the timer (`BtnRuns.PressWaitsAtLastValue`).

  The wrap-safe form is `BtnRuns.Elapsed`, which takes `now - start` in `uint32_t`. It holds
  exactly when the time that has really passed reaches the bound, for any gap below 2^32
  (`BtnRuns.ElapsedMeasuresGap`). The source's test agrees with it whenever neither sum wraps
  (`BtnRuns.ElapsedMatchesSumTest`). It disagrees at the two inputs above
  (`BtnRuns.SumTestDisagreesNearWrap`). The state machine keeps the tests as written.
- The group `Pressing` event fires on every tick on which all members are pressing
  (`BtnGroup.GroupTransitions`).
- A group with 256 members wraps its `uint8_t` member counter to 0 and is silent
  (`BtnGroup.CounterWrapSilences`).

## Model

| member | source | states |
|---|---|---|
| Ticks.Add32 | src/z_btnmgr.c:241 | `TickCount += _ms` on uint32_t: the plain sum below 2^32, the sum less 2^32 otherwise |
| Ticks.Sub32 | src/z_btnmgr.c:354 | uint32_t subtraction: the difference when it is not negative, the difference plus 2^32 otherwise |
| Ticks.Inc8 | src/z_btnmgr.c:515 | `x++` on uint8_t: x + 1 below 255, 0 from 255 |
| Ticks.ThresholdsOrdered | src/z_btnmgr.h:37-40 | 0 < SHORT < PEER < LONG < 2^32, so the repeat modulus PEER is never 0; PEER divides LONG, so once LONG has passed the repeat is due exactly when the time since the press started is a multiple of PEER (BtnRuns.RepeatOnPeerMultiples) |
| BtnTypes.StateCode | src/z_btnmgr.h:97-106 | every state has a code below 8, and only None has code 0, so a zero-filled z_btn_t is in None |
| BtnTypes.StateCodeInjective | src/z_btnmgr.h:97-106 | two states have the same enumeration value iff they are the same state |
| BtnTypes.PropertyCode | src/z_btnmgr.h:117-123 | property codes are below 3, and only None has code 0 |
| BtnTypes.ErrCode | src/z_btnmgr.h:45-46 | Z_ERR_OK is the only zero error code |
| ByteOrder.Combine4 | src/z_btnmgr.h:43 | Z_4BYTECOMBINE gives d[0] + 256·d[1] + 65536·d[2] + 16777216·d[3] |
| ByteOrder.SplitValue | src/z_btnmgr.h:42 | the four bytes Z_4BYTESPLITE writes are the value's base-256 digits, least significant first |
| ByteOrder.CombineSplit | src/z_btnmgr.h:42-43 | combining the bytes a split wrote gives back the value |
| ByteOrder.SplitCombine | src/z_btnmgr.h:42-43 | splitting a combined value gives back the four bytes |
| ByteOrder.Split4 | src/z_btnmgr.h:42 | Z_4BYTESPLITE on an array: data[0..4] becomes the little-endian bytes, and data[4..] is untouched |
| BList.HeadNext | src/z_btnmgr.h:67 | on a linked ring, the head's NextNode is the first element, or the head itself when the list is empty |
| BList.AddLinked | src/z_btnmgr.h:70 | LIST_ADD of an unlinked node keeps the ring linked both ways, with the node as the new last element |
| BList.InsertLinked | src/z_btnmgr.h:72 | LIST_INSERT of an unlinked node keeps the ring linked both ways, with the node first and the rest in order |
| BList.DelLinked | src/z_btnmgr.h:73-74 | LIST_DEL of an element keeps the ring linked both ways, without that element |
| BList.Ring.constructor | src/z_btnmgr.h:68 | a fresh node array whose head is self-linked holds the empty list |
| BList.Ring.Init | src/z_btnmgr.h:68 | LIST_INIT self-links the node; on the head this empties the list, on an unlinked node the list is unchanged |
| BList.Ring.Add | src/z_btnmgr.h:70 | LIST_ADD: the list becomes old + [x], and the nodes change exactly as AddNodes says |
| BList.Ring.Insert | src/z_btnmgr.h:72 | LIST_INSERT: the list becomes [x] + old, and the nodes change exactly as InsertNodes says |
| BList.Ring.Link | src/z_btnmgr.h:73 | LIST_LINK sets a's NextNode to b and b's PreNode to a, and nothing else |
| BList.Ring.Del | src/z_btnmgr.h:73-74 | LIST_DEL removes m from the list, keeps the others in order and leaves m self-linked |
| BList.Ring.Walk | src/z_btnmgr.c:243-250 | following NextNode from the head until the head comes back visits exactly the list's elements, in order |
| BtnFsm.BtnProc | src/z_btnmgr.c:428-452 | a step never changes the callbacks or NoResp; a button without a reader is inert; a button with one always ends in a handled state; only handled states signal |
| BtnFsm.Deliver | src/z_btnmgr.c:272-284 | an event reaches the callback exactly when the callback is set and NoResp is clear, as one notice carrying that callback and the state |
| BtnFsm.WasPressed | src/z_btnmgr.c:199-208 | the answer is true iff PreState is Pressed; a true answer resets PreState to None, so afterwards it is not Pressed; no other field changes |
| BtnFsm.NoReaderIsInert | src/z_btnmgr.c:430-432 | btnProc on a button without a read callback changes nothing and signals nothing |
| BtnFsm.UnhandledStateResets | src/z_btnmgr.c:447 | any state outside Releasing/Pressing/LongPressing/Clicked/Pressed, None included, becomes Releasing silently with no other change |
| BtnFsm.ReleasingIgnoresRelease | src/z_btnmgr.c:298-299 | in Releasing, a released sample leaves every field, StartPresseTime included, as it was |
| BtnFsm.ReleasingOnPress | src/z_btnmgr.c:292-315 | in Releasing, a pressed sample sets StartPresseTime if it was 0. The button enters Pressing iff the press is confirmed (wrapping `start + SHORT <= now + 1`, second read exactly 1). If so it also sets StartReleaseTime := 0 and PressTimeBuf := now and gives one Pressing signal; otherwise nothing else changes |
| BtnFsm.ReleaseEndsPress | src/z_btnmgr.c:330-386 | in Pressing (lines 330-339) or LongPressing (lines 376-386), Clicked or Pressed is reached iff a released sample finds the release timer set and more than SHORT old; then StartReleaseTime := 0 with one signal, and nothing else changes |
| BtnFsm.FirstReleaseStartsTimer | src/z_btnmgr.c:330-333 | the first released sample only starts the release timer: no Clicked or Pressed, and StartReleaseTime = now if the state is kept |
| BtnFsm.PressingHeld | src/z_btnmgr.c:341-357 | without a confirmed release, Pressing moves to LongPressing (StartReleaseTime := 0, one signal) iff LONG has elapsed. Otherwise it stays Pressing, and the heartbeat fires with PressTimeBuf := now iff `now - PressTimeBuf > SHORT + 1` |
| BtnFsm.LongPressingHeld | src/z_btnmgr.c:387-396 | without a confirmed release, LongPressing stays; LongPressed_Repeat fires iff StartPresseTime is set and `(now - start - LONG) % PEER == 0` in uint32_t |
| BtnFsm.CompletedFoldsBack | src/z_btnmgr.c:408-420 | from Clicked or Pressed, one step gives Releasing with both start timers 0, PreState := Pressed and one Releasing signal |
| BtnFsm.GateIsTransparent | src/z_btnmgr.c:272-284 | changing NoResp or the event callback changes neither the transition nor the signal |
| BtnFsm.QueriesPartition | src/z_btnmgr.c:181-225 | isPressing and isReleasing never hold together, and each handled state satisfies one of them or is Clicked or Pressed |
| BtnFsm.WasPressedOnce | src/z_btnmgr.c:199-208 | after a Clicked or Pressed step, wasPressed answers true once, clears the latch, then answers false |
| BtnRuns.ReleasedStaysIdle | src/z_btnmgr.c:298-299 | an idle button fed only released samples stays exactly as it is and signals nothing, over any run |
| BtnRuns.ArmedWaits | src/z_btnmgr.c:301-306 | once StartPresseTime = t, pressed samples before t + SHORT - 1 change nothing and signal nothing |
| BtnRuns.PressWaits | src/z_btnmgr.c:301-306 | fewer than SHORT pressed samples, one per tick, only record StartPresseTime and signal nothing |
| BtnRuns.PressConfirms | src/z_btnmgr.c:301-312 | the SHORT-th pressed sample confirms: the button is in Pressing with the confirmed timers, after exactly one Pressing signal |
| BtnRuns.HeldWaits | src/z_btnmgr.c:330-357 | a confirmed press whose release timer has started stays unchanged and silent for the next SHORT ticks, whatever the samples |
| BtnRuns.ReleaseWaits | src/z_btnmgr.c:330-357 | up to SHORT released samples after confirmation only start the release timer and signal nothing |
| BtnRuns.ClickEnds | src/z_btnmgr.c:334-337 | SHORT ticks after the first released sample the click is confirmed, and the next tick folds back to Releasing with Pressed latched |
| BtnRuns.ReleaseClicks | src/z_btnmgr.c:323-420 | from a confirmed press, SHORT + 2 released samples signal exactly Clicked, then Releasing |
| BtnRuns.ClickCycle | src/z_btnmgr.c:292-420 | a full click (SHORT pressed, then SHORT + 2 released samples) signals exactly Pressing, Clicked, Releasing. The button ends idle with Pressed latched, and wasPressed answers true once |
| BtnRuns.HeartbeatWaits | src/z_btnmgr.c:341-357 | after confirmation, pressed samples at ticks t + SHORT to t + 2 * SHORT leave the button unchanged and silent |
| BtnRuns.HeartbeatAfterShortPlus2 | src/z_btnmgr.c:354-356 | after the confirming Pressing signal at t + SHORT - 1, the next Pressing heartbeat of a held press comes at t + 2 * SHORT + 1, SHORT + 2 ticks later, and resets PressTimeBuf there |
| BtnRuns.LongPressHolds | src/z_btnmgr.c:348-352 | from a confirmed press, a pressed sample at t + LONG signals LongPressing and one at t + LONG + PEER signals LongPressedRepeat |
| BtnRuns.LongPressReleased | src/z_btnmgr.c:376-395 | in LongPressing, a released sample starts the release timer without a repeat, the released sample SHORT later signals Pressed, and the next tick returns to Releasing with Pressed latched |
| BtnRuns.LongPressCycle | src/z_btnmgr.c:323-420 | a long press sampled at t + LONG, t + LONG + PEER and three released values signals exactly LongPressing, LongPressedRepeat, Pressed, Releasing and ends in Releasing with both start timers clear |
| BtnRuns.ReleaseBounceClicks | src/z_btnmgr.c:330-343 | from a confirmed press, a released sample, SHORT - 1 pressed samples and a released sample SHORT ticks after the first signal exactly Clicked |
| BtnRuns.StaleStartConfirms | src/z_btnmgr.c:298-304 | two isolated pressed samples SHORT - 1 ticks apart confirm a press: a bounce shorter than SHORT is not filtered |
| BtnRuns.RepeatPeriodic | src/z_btnmgr.c:394 | within one wrap, the repeat event is due every PEER counter values and never in between |
| BtnRuns.RepeatOnPeerMultiples | src/z_btnmgr.c:394 | once LONG has passed since StartPresseTime, the repeat is due iff the time passed is a multiple of PEER |
| BtnRuns.RepeatWithTickStep3 | src/z_btnmgr.c:394 | when the counter advances by 3 per tick, the repeat is due at offset 3k iff PEER divides k: first at LONG + 200, then every 300 counter units |
| BtnRuns.TripleOnPeerMultiples | src/z_btnmgr.h:39 | 3k is a multiple of PEER iff k is |
| BtnRuns.LongPressEarlyNearWrap | src/z_btnmgr.c:348 | a press started PEER ticks before the counter wraps reaches LongPressing PEER/2 ticks later, long before LONG |
| BtnRuns.PressConfirmsAtOnceNearWrap | src/z_btnmgr.c:304 | a first pressed sample 2 to SHORT counter values before the wrap confirms the press at once |
| BtnRuns.PressWaitsAtLastValue | src/z_btnmgr.c:301-306 | a first pressed sample at 2^32 - 1 only sets StartPresseTime and signals nothing, because `now + 1` wraps to 0 |
| BtnRuns.ElapsedMeasuresGap | src/z_btnmgr.c:348 | the wrap-safe duration test holds iff the gap that has really passed is at least the bound, for every gap below 2^32 |
| BtnRuns.ElapsedMatchesSumTest | src/z_btnmgr.c:304 | where no sum wraps and start <= now, `start + T <= now + 1` holds iff T - 1 ticks have passed and `start + T < now + 1` iff T ticks have passed |
| BtnRuns.SumTestDisagreesNearWrap | src/z_btnmgr.c:348 | at start = 2^32 - PEER, now = 2^32 - PEER/2 the LONG test passes though LONG has not elapsed; at a first press 2^32 - SHORT/2 the SHORT test passes at once |
| BtnGroup.StepMembersAt | src/z_btnmgr.c:506-512 | the k-th member after the member loop is that member stepped by btnProc on its own |
| BtnGroup.CountAll | src/z_btnmgr.c:515-521 | the pressing count equals the member count iff every member is pressing |
| BtnGroup.CountNone | src/z_btnmgr.c:515-525 | the pressing count is 0 iff no member is pressing |
| BtnGroup.GroupProc | src/z_btnmgr.c:496-541 | groupProc leaves one result and one delivery per member, and never changes the group's Event or Property |
| BtnGroup.MembersStepAlone | src/z_btnmgr.c:506-512 | each member is stepped exactly as a standalone button (up to NoResp) and delivers what its own step signals |
| BtnGroup.SettleTransitions | src/z_btnmgr.c:520-537 | with a callback and 1..255 members: all pressing gives Pressing plus one event. None pressing gives Clicked from Pressing, or Releasing from Clicked, plus one event. Otherwise nothing changes and nothing fires |
| BtnGroup.GroupTransitions | src/z_btnmgr.c:496-541 | the same four outcomes for a whole groupProc call, judged on the members after their step |
| BtnGroup.SilentGroup | src/z_btnmgr.c:520 | a group without a callback or without members never changes state and never fires |
| BtnGroup.CounterWrapSilences | src/z_btnmgr.c:499-520 | with 256 members the uint8_t member counter wraps to 0 and the group is silent |
| BtnGroup.MutexPolicy | src/z_btnmgr.c:460-488 | under Mutex, entering Pressing sets NoResp on every member, entering Releasing clears it on every member, and every other outcome leaves each member's flag as it was |
| BtnGroup.ParallelPolicy | src/z_btnmgr.c:465-468 | Parallel and None leave every member's NoResp alone |
| BtnGroup.PartialReleaseKeepsSuppression | src/z_btnmgr.c:525-534 | a Mutex group in Pressing with some but not all members pressing keeps its state and its members suppressed, and fires nothing |
| BtnGroup.SuppressedMemberIsSilent | src/z_btnmgr.c:275 | a member with NoResp set delivers nothing to its own callback |
| BtnObjects.Button.constructor | src/z_btnmgr.h:135-147 | a zero-filled z_btn_t: no callbacks, timers 0, State and PreState None |
| BtnObjects.Button.CallEvent | src/z_btnmgr.c:272-284 | the callback receives the state exactly when it is set and NoResp is clear |
| BtnObjects.Button.ReleasingStep | src/z_btnmgr.c:292-315 | __btnReleasingProc updates the fields as ReleasingProc says, returns its state and delivers its signal through the gate |
| BtnObjects.Button.ReleaseStep | src/z_btnmgr.c:330-343 | the release handling: `done` iff the release is confirmed (then StartReleaseTime := 0, one event), otherwise the release timer moves as ReleaseTimer says and nothing is delivered |
| BtnObjects.Button.PressingStep | src/z_btnmgr.c:323-361 | __btnPressingProc updates the fields as PressingProc says, returns its state and delivers its signal through the gate |
| BtnObjects.Button.LongPressingStep | src/z_btnmgr.c:369-400 | __btnLongPressingProc updates the fields as LongPressingProc says, returns its state and delivers its signal through the gate |
| BtnObjects.Button.PressedOrClickedStep | src/z_btnmgr.c:408-420 | __btnPressedOrClickedProc updates the fields as PressedOrClickedProc says and delivers its Releasing signal through the gate |
| BtnObjects.Button.Proc | src/z_btnmgr.c:428-452 | z_btnmgr_btnProc leaves exactly the fields BtnProc computes and delivers exactly what its signal passes through the gate |
| BtnObjects.Button.IsPressingNow | src/z_btnmgr.c:181-190 | true iff State is Pressing or LongPressing |
| BtnObjects.Button.IsReleasingNow | src/z_btnmgr.c:217-225 | true iff State is Releasing |
| BtnObjects.Button.WasPressedNow | src/z_btnmgr.c:199-208 | the answer and the fields left behind are those of WasPressed |
| BtnObjects.CountStep | src/z_btnmgr.c:515-518 | one more member bumps the uint8_t pressing counter exactly when that member is pressing |
| BtnObjects.StepButton | src/z_btnmgr.c:245-249 | one round of a button walk leaves bs[i] as its own btnProc step does, leaves every other button alone and appends its delivery to the log |
| BtnObjects.StepButtons | src/z_btnmgr.c:243-250 | the button walk of tick leaves every button as StepMembers says and delivers their notices in list order |
| BtnObjects.StepMember | src/z_btnmgr.c:508-518 | one round of the member loop also counts the member and, if it is pressing, the pressing member, in uint8_t |
| BtnObjects.StepEach | src/z_btnmgr.c:506-519 | the member loop of groupProc leaves the members as StepMembers says, delivers in list order, and leaves btncount = n mod 256 and btnpress = pressing members mod 256 |
| BtnObjects.Group.constructor | src/z_btnmgr.h:150-156 | a zero-filled z_btngroup_t with an empty member list |
| BtnObjects.Group.StaChg | src/z_btnmgr.c:460-488 | __grpStaChg leaves the members as GrpStaChg says: under Mutex NoResp := (group State is Pressing), otherwise untouched |
| BtnObjects.Group.Decide | src/z_btnmgr.c:520-537 | the decision half of groupProc leaves the group, the members and the delivery as Settle says |
| BtnObjects.Group.Proc | src/z_btnmgr.c:496-541 | z_btnmgr_groupProc leaves the group and its members as GroupProc says and delivers the members' events, then the group's |
| BtnManager.TickStep | src/z_btnmgr.c:233-263 | one tick advances the counter by ms modulo 2^32 and keeps the number of buttons and groups |
| BtnManager.TickButton | src/z_btnmgr.c:243-250 | each standalone button ends as its own btnProc step at the advanced count |
| BtnManager.TickGroup | src/z_btnmgr.c:252-261 | each group ends as its own groupProc call at the advanced count |
| BtnManager.TickSingleButton | src/z_btnmgr.c:233-263 | with one button and no group, a tick is one btnProc call at the advanced count, and its log is what that call delivers |
| BtnManager.IdleTick | src/z_btnmgr.c:233-263 | with no groups and every button idle and released, a tick moves only the counter and delivers nothing |
| BtnManager.LinkedAppend | src/z_btnmgr.c:137-138 | appending a button that is on no list to a group keeps every button linked in one place |
| BtnManager.LinkedAddGroup | src/z_btnmgr.c:115-117 | appending a new group with an empty member list keeps every button linked in one place |
| BtnManager.StepLoose | src/z_btnmgr.c:243-250 | the button walk steps the standalone buttons as StepMembers says and leaves every group and group member unchanged |
| BtnManager.ProcGroupAt | src/z_btnmgr.c:255-260 | one round of the group walk leaves gs[j] as its groupProc call does, changes no other group or member, and appends its delivery |
| BtnManager.ProcGroups | src/z_btnmgr.c:252-261 | the group walk leaves each group as its own groupProc call does, in list order, and delivers their logs in list order |
| BtnManager.StepAll | src/z_btnmgr.c:243-261 | the two walks: the buttons as StepMembers says, then the groups as GroupSteps says, with the log in callback order |
| BtnManager.CreateBtn | src/z_btnmgr.c:66-78 | BADPARAM iff the button or the reader is missing, and nothing changes then; otherwise the reader and event are set and no other field changes |
| BtnManager.SetGrpProperty | src/z_btnmgr.c:155-172 | BADPARAM iff the group is missing; otherwise Property := val, None being stored as Parallel, and no other field changes |
| BtnManager.ButtonManager.constructor | src/z_btnmgr.c:43 | the zero-filled parameters: counter 0, no lists, not yet initialised |
| BtnManager.ButtonManager.Init | src/z_btnmgr.c:52-56 | both lists become empty, the counter is kept, and the manager is ready |
| BtnManager.ButtonManager.RegBtn | src/z_btnmgr.c:86-98 | BADPARAM iff the button or its reader is missing, and the lists are unchanged then; otherwise the button is appended to the button list |
| BtnManager.ButtonManager.RegGroup | src/z_btnmgr.c:107-121 | BADPARAM iff the group is missing; otherwise the group takes the event, gets an empty member list and is appended to the group list |
| BtnManager.ButtonManager.SetGroup | src/z_btnmgr.c:130-146 | BADPARAM iff the group or the button is missing, and nothing changes then. Otherwise the button is appended to the group's members and takes the group's event only if it has none |
| BtnManager.ButtonManager.Walk | src/z_btnmgr.c:243-261 | the two walks of tick on the manager's own lists, as StepMembers and GroupSteps say, keeping the lists themselves |
| BtnManager.ButtonManager.SetTick | src/z_btnmgr.c:241 | the counter update changes no button, group or list |
| BtnManager.ButtonManager.Tick | src/z_btnmgr.c:233-263 | z_btnmgr_tick leaves the manager exactly as TickStep says and delivers TickStep's log, keeping the lists and their validity |

## Left out

- Null checks inside the handlers and `btnProc` on a null button pointer: the model's buttons are objects, so these are not modelled. The missing read callback is modelled.
- `OFFSETOF`, `CONTRAINER_OF` and `LIST_FIRST_ENTRY` (pointer arithmetic from a list node back to its struct). The manager and groups hold their lists as the sequences `BList.Ring.Walk` is proved to visit, not as node pointers.
- `z_btnmgr_setType` and `z_btn_type_t`: declared, never defined or used.
- `BtnSta_DoubleClicked` and `Z_BTNMGR_DOUBLECLICK_ACTIVE` exist as a state and a constant, but no transition produces or uses them.
- The error codes other than `Z_ERR_OK` and `Z_ERR_BADPARAM`: the core never returns them.
- What the read and event callbacks do internally. A read is an input `Sample`, and an event is a `Notice` appended to the returned log. The `args.Obj` pointer passed to the callback is not modelled beyond the callback's identity.
- Reentrant or concurrent calls to `z_btnmgr_tick`.
- Enumeration values outside the declared ones: a `State` or `Property` field holding any other number. These fall into the `default` branches in C.
- BtnManager.ButtonManager.RegBtn, RegGroup and SetGroup require that the node is not already linked elsewhere. A second registration re-initialises the node in C and corrupts the list it was on, so it is a precondition here.
- BtnManager.ButtonManager.SetGroup requires the group to be registered, which is stronger than C. C only needs the group's member list to have been initialised by `z_btnmgr_regGrounp`.
- BtnManager.ButtonManager.RegBtn, RegGroup and Tick require `z_btnmgr_init` to have run (`ready`). Walking an uninitialised list head dereferences null in C.
- BtnManager.ButtonManager.Tick stores the advanced counter after the two walks rather than before them. The walks are handed the advanced value, and no handler reads the field itself, so they see the same count.
- Behaviour across gaps longer than one counter wrap is not characterised. The lemmas show where a single wrap already misleads the duration tests.

/** The enumerations, callback handles and error codes of z_btnmgr.h. */
module BtnTypes {

  /** z_btn_state_t, in declaration order (None = 0, Pressing = 1, ...). */
  datatype BtnState =
    | None
    | Pressing
    | Pressed
    | Releasing
    | Clicked
    | DoubleClicked
    | LongPressing
    | LongPressedRepeat

  /** The numeric value the C enumeration gives each state. */
  function StateCode(s: BtnState): (c: nat)
    ensures c < 8
    ensures c == 0 <==> s == None
  {
    match s
    case None => 0
    case Pressing => 1
    case Pressed => 2
    case Releasing => 3
    case Clicked => 4
    case DoubleClicked => 5
    case LongPressing => 6
    case LongPressedRepeat => 7
  }

  /** Distinct states have distinct codes, so a zero-filled record is in `None`, not `Releasing`. */
  lemma StateCodeInjective(a: BtnState, b: BtnState)
    ensures StateCode(a) == StateCode(b) <==> a == b
  {
  }

  /** z_btngrp_property */
  datatype GroupProperty = PropNone | Parallel | Mutex

  function PropertyCode(p: GroupProperty): (c: nat)
    ensures c < 3
    ensures c == 0 <==> p == PropNone
  {
    match p
    case PropNone => 0
    case Parallel => 1
    case Mutex => 2
  }

  /** A C function pointer: null, or a callback known by an identity. */
  datatype Callback = Null | Fn(id: nat)

  /** z_err_t values the core returns. */
  datatype Err = Ok | BadParam

  function ErrCode(e: Err): (c: nat)
    ensures c == 0 <==> e == Ok
  {
    match e
    case Ok => 0x00
    case BadParam => 0x01
  }
}

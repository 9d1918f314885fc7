/** keyDownHandler and keyUpHandler (script.js lines 147-161): the only
    effect of a key event is on the two direction flags. A key is named by
    the `key` string of the browser's keyboard event. */
module Keyboard {
  import opened Game

  predicate IsRightKey(key: string)
  {
    key == "Right" || key == "ArrowRight"
  }

  predicate IsLeftKey(key: string)
  {
    key == "Left" || key == "ArrowLeft"
  }

  /** Pressing a direction key sets its flag; nothing else changes, and
      every other key is ignored. */
  function KeyDown(s: State, key: string): (r: State)
    ensures r.rightPressed <==> s.rightPressed || IsRightKey(key)
    ensures r.leftPressed <==> s.leftPressed || IsLeftKey(key)
    ensures r == s.(rightPressed := r.rightPressed, leftPressed := r.leftPressed)
  {
    if IsRightKey(key) then s.(rightPressed := true)
    else if IsLeftKey(key) then s.(leftPressed := true)
    else s
  }

  /** Releasing a direction key clears its flag; nothing else changes, and
      every other key is ignored. */
  function KeyUp(s: State, key: string): (r: State)
    ensures r.rightPressed <==> s.rightPressed && !IsRightKey(key)
    ensures r.leftPressed <==> s.leftPressed && !IsLeftKey(key)
    ensures r == s.(rightPressed := r.rightPressed, leftPressed := r.leftPressed)
  {
    if IsRightKey(key) then s.(rightPressed := false)
    else if IsLeftKey(key) then s.(leftPressed := false)
    else s
  }

  /** Releasing a key that was pressed from the released position restores
      the state exactly. */
  lemma KeyUpUndoesKeyDown(s: State, key: string)
    requires IsRightKey(key) ==> !s.rightPressed
    requires IsLeftKey(key) ==> !s.leftPressed
    ensures KeyUp(KeyDown(s, key), key) == s
  {
  }

  /** Key events never disturb the invariant: they touch only the flags. */
  lemma KeysPreserveInv(s: State, key: string)
    requires Inv(s)
    ensures Inv(KeyDown(s, key)) && Inv(KeyUp(s, key))
  {
  }
}

/**
 * The keyboard chord table of `handleKeyDown` (src/useKeyboardShortcuts.ts).
 * A keydown is a value; what the listener does with it is returned: whether
 * `preventDefault` was called and which of the supplied handlers ran, in call
 * order. The handler object's optional members are the set of commands
 * whose handler was supplied.
 */
module Shortcuts {
  import opened Wrappers

  datatype KeyEvent = KeyEvent(ctrlKey: bool, metaKey: bool, shiftKey: bool, key: string)

  /** One per optional member of `ShortcutHandlers`. */
  datatype Command = NextTab | PreviousTab | CloseTab | OpenFile | ToggleTheme | Search

  datatype Dispatch = Dispatch(prevented: bool, fired: seq<Command>)

  /** Ctrl on Windows/Linux, Cmd on macOS: either counts. */
  predicate Modifier(e: KeyEvent)
  {
    e.ctrlKey || e.metaKey
  }

  /** The bindings as a table: the one command a chord is bound to, if any. Keys compare case-sensitively. */
  function Binding(e: KeyEvent): Option<Command>
  {
    if !Modifier(e) then None
    else if e.key == "Tab" then Some(if e.shiftKey then PreviousTab else NextTab)
    else if e.key == "w" then Some(CloseTab)
    else if e.key == "o" then Some(OpenFile)
    else if e.key == "t" then Some(ToggleTheme)
    else if e.key == "f" then Some(Search)
    else None
  }

  /** The calls `handlers.onX?.()` makes: the handler's, if it was supplied. */
  function Calls(cmd: Command, supplied: set<Command>): seq<Command>
  {
    if cmd in supplied then [cmd] else []
  }

  /** One `if (cond) { e.preventDefault(); handlers.onX?.(); }` block. */
  function Guard(d: Dispatch, cond: bool, cmd: Command, supplied: set<Command>): Dispatch
  {
    if cond then Dispatch(true, d.fired + Calls(cmd, supplied))
    else d
  }

  /**
   * The six independent `if` blocks in source order. Their conditions are
   * mutually exclusive, so the listener agrees with the table: the default is
   * suppressed exactly for a bound chord (whether or not its handler was
   * supplied), and at most the bound command's handler runs.
   */
  function HandleKeyDown(e: KeyEvent, supplied: set<Command>): (d: Dispatch)
    ensures d.prevented <==> Binding(e).Some?
    ensures d.fired == if Binding(e).Some? && Binding(e).value in supplied then [Binding(e).value] else []
    ensures |d.fired| <= 1
    ensures !Modifier(e) ==> d == Dispatch(false, [])
  {
    var modifier := e.ctrlKey || e.metaKey;
    var d0 := Dispatch(false, []);
    var d1 := Guard(d0, modifier && e.key == "Tab" && !e.shiftKey, NextTab, supplied);
    var d2 := Guard(d1, modifier && e.shiftKey && e.key == "Tab", PreviousTab, supplied);
    var d3 := Guard(d2, modifier && e.key == "w", CloseTab, supplied);
    var d4 := Guard(d3, modifier && e.key == "o", OpenFile, supplied);
    var d5 := Guard(d4, modifier && e.key == "t", ToggleTheme, supplied);
    Guard(d5, modifier && e.key == "f", Search, supplied)
  }

  /** The table row by row, stated on the listener itself. */
  lemma ChordTable(e: KeyEvent, supplied: set<Command>)
    requires Modifier(e)
    ensures e.key == "Tab" && !e.shiftKey ==> HandleKeyDown(e, supplied) == Dispatch(true, Calls(NextTab, supplied))
    ensures e.key == "Tab" && e.shiftKey ==> HandleKeyDown(e, supplied) == Dispatch(true, Calls(PreviousTab, supplied))
    ensures e.key == "w" ==> HandleKeyDown(e, supplied) == Dispatch(true, Calls(CloseTab, supplied))
    ensures e.key == "o" ==> HandleKeyDown(e, supplied) == Dispatch(true, Calls(OpenFile, supplied))
    ensures e.key == "t" ==> HandleKeyDown(e, supplied) == Dispatch(true, Calls(ToggleTheme, supplied))
    ensures e.key == "f" ==> HandleKeyDown(e, supplied) == Dispatch(true, Calls(Search, supplied))
    ensures e.key !in {"Tab", "w", "o", "t", "f"} ==> HandleKeyDown(e, supplied) == Dispatch(false, [])
  {
  }

  /** Letter keys are compared case-sensitively: with Shift held the key reads `'W'`, which is unbound. */
  lemma UpperCaseLettersUnbound(e: KeyEvent, supplied: set<Command>)
    requires e.key in {"W", "O", "T", "F"}
    ensures HandleKeyDown(e, supplied) == Dispatch(false, [])
  {
  }
}

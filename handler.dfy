/**
 * `handle_key_events` (src/handler.rs): maps one terminal key event to one
 * operation on an `App`.
 */
module Handler {
  import opened Opt
  import Query
  import Selection
  import App

  /** crossterm's modifier flags. */
  datatype Modifier = Shift | Control | Alt | Super | Hyper | Meta

  /** crossterm's key codes (the payloads of media and modifier keys are dropped). */
  datatype KeyCode =
    | Backspace | Enter | Left | Right | Up | Down | Home | End | PageUp | PageDown
    | Tab | BackTab | Delete | Insert | F(n: nat) | Char(c: char) | Null | Esc
    | CapsLock | ScrollLock | NumLock | PrintScreen | Pause | Menu | KeypadBegin
    | Media | ModifierKey

  /** A key press: its code and the exact set of modifiers held. */
  datatype KeyEvent = KeyEvent(code: KeyCode, modifiers: set<Modifier>)

  /** The `AppResult<()>` the handler returns. */
  datatype Outcome = Ok | Err(message: string)

  /** The `App` operation a key event triggers. */
  datatype Action = DoSelect | DoUp | DoDown | DoQuit | DoEnterChar(c: char) | DoDeleteChar | DoNothing

  /** The key is `c` or `C`, the characters reserved for quitting. */
  predicate IsQuitChar(code: KeyCode) {
    code == Char('c') || code == Char('C')
  }

  /**
   * Which operation a key event triggers: Enter selects, Up and Down
   * navigate, `c`/`C` with exactly Control held quits, any other character
   * is typed whatever the modifiers, Backspace deletes; `c`/`C` without
   * exactly Control and every other key do nothing.
   */
  function Dispatch(key: KeyEvent): (a: Action)
    ensures a == DoQuit <==> IsQuitChar(key.code) && key.modifiers == {Control}
    ensures a.DoEnterChar? <==> key.code.Char? && !IsQuitChar(key.code)
    ensures a.DoEnterChar? ==> a.c == key.code.c && a.c != 'c' && a.c != 'C'
    ensures a == DoNothing <==>
      (IsQuitChar(key.code) && key.modifiers != {Control}) ||
      !(key.code.Char? || key.code in {Enter, Up, Down, Backspace})
    ensures a == DoSelect <==> key.code == Enter
    ensures a == DoUp <==> key.code == Up
    ensures a == DoDown <==> key.code == Down
    ensures a == DoDeleteChar <==> key.code == Backspace
  {
    match key.code
    case Enter => DoSelect
    case Up => DoUp
    case Down => DoDown
    case Char(c) =>
      if c == 'c' || c == 'C' then
        if key.modifiers == {Control} then DoQuit else DoNothing
      else DoEnterChar(c)
    case Backspace => DoDeleteChar
    case _ => DoNothing
  }

  /**
   * `handle_key_events`: perform the operation `Dispatch` names on `app`, and
   * report success.
   */
  method HandleKeyEvents(key: KeyEvent, app: App.App) returns (r: Outcome)
    requires app.Valid()
    modifies app, app.items
    ensures app.Valid() && r == Ok
    ensures app.items.lastSelected == old(app.items.lastSelected)
    ensures Dispatch(key) == DoNothing ==> unchanged(app) && unchanged(app.items)
    ensures Dispatch(key) == DoQuit ==>
      && !app.running && app.result == old(app.result) && app.Line() == old(app.Line())
      && app.prevInput == old(app.prevInput) && unchanged(app.items)
    ensures Dispatch(key) == DoSelect ==>
      && app.running == old(app.running) && app.Line() == old(app.Line())
      && app.prevInput == old(app.prevInput) && unchanged(app.items)
      && app.result == (if old(app.items.selected).Some?
                        then App.GetItem(app.items.engine, App.U32(old(app.items.selected).value))
                        else old(app.result))
    ensures Dispatch(key) == DoUp ==>
      && unchanged(app)
      && app.items.selected == Some(Selection.NextIndex(old(app.items.selected), old(app.items.lastSelected), app.items.engine.MatchedCount()))
      && app.items.engine == old(app.items.engine) && app.items.Reparses == old(app.items.Reparses)
    ensures Dispatch(key) == DoDown ==>
      && unchanged(app)
      && app.items.selected == Some(Selection.PreviousIndex(old(app.items.selected), old(app.items.lastSelected), app.items.engine.MatchedCount()))
      && app.items.engine == old(app.items.engine) && app.items.Reparses == old(app.items.Reparses)
    ensures Dispatch(key).DoEnterChar? ==>
      && app.Line() == Query.EnterChar(old(app.Line()), key.code.c)
      && app.prevInput == old(app.input) && app.running == old(app.running) && app.result == old(app.result)
      && app.items.selected == Some(0) && app.items.engine == old(app.items.engine)
      && app.items.Reparses == old(app.items.Reparses) + [(app.input, Query.StartsWith(app.input, old(app.input)))]
    ensures Dispatch(key) == DoDeleteChar ==>
      && app.Line() == Query.DeleteChar(old(app.Line()))
      && app.prevInput == old(app.input) && app.running == old(app.running) && app.result == old(app.result)
      && app.items.selected == Some(0) && app.items.engine == old(app.items.engine)
      && app.items.Reparses == old(app.items.Reparses) + [(app.input, old(app.cursorPosition) == 0)]
  {
    match key.code {
      case Enter =>
        app.Select();
      case Up =>
        app.Up();
      case Down =>
        app.Down();
      case Char(c) =>
        if c == 'c' || c == 'C' {
          if key.modifiers == {Control} {
            app.Quit();
          }
        } else {
          app.EnterChar(c);
        }
      case Backspace =>
        app.DeleteChar();
      case _ =>
    }
    r := Ok;
  }
}

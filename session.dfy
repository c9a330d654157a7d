/**
 * One turn of the main loop of `launch_ui` (src/lib.rs:61-66): handle one
 * event, then stop the session as soon as a result is set. Drawing, the
 * terminal and the event thread are not part of this model.
 */
module Session {
  import Engine
  import App
  import Handler
  import Query
  import Selection
  import opened Opt

  /**
   * What the event thread delivers: a timer tick (on which the engine
   * publishes the view `next`) or a key press.
   */
  datatype Event = Tick(next: Engine.View) | Key(key: Handler.KeyEvent)

  /**
   * Handle `ev` on a running session, then quit if a result is set.
   * Afterwards the session has stopped exactly when a result is set or the
   * key was Control-C. A tick changes only the engine's view (and `running`);
   * a key leaves the view alone and sets a result only through Enter.
   */
  method Step(app: App.App, ev: Event)
    requires app.Valid() && app.running
    requires ev.Tick? ==> ev.next.WF() && ev.next.items <= app.items.Candidates
    modifies app, app.items
    ensures app.Valid()
    ensures app.result.Some? ==> !app.running
    ensures !app.running <==> app.result.Some? || (ev.Key? && Handler.Dispatch(ev.key) == Handler.DoQuit)
    ensures ev.Tick? ==>
      && app.items.engine == ev.next && app.result == old(app.result)
      && app.Line() == old(app.Line()) && app.prevInput == old(app.prevInput)
      && app.items.selected == old(app.items.selected) && app.items.Reparses == old(app.items.Reparses)
    ensures ev.Key? ==> app.items.engine == old(app.items.engine)
    ensures ev.Key? && Handler.Dispatch(ev.key) != Handler.DoSelect ==> app.result == old(app.result)
    ensures ev.Key? && Handler.Dispatch(ev.key) == Handler.DoSelect ==>
      app.result == (if old(app.items.selected).Some?
                     then App.GetItem(app.items.engine, App.U32(old(app.items.selected).value))
                     else old(app.result))
    ensures ev.Key? && Handler.Dispatch(ev.key) in {Handler.DoSelect, Handler.DoQuit, Handler.DoNothing} ==>
      && app.Line() == old(app.Line()) && app.prevInput == old(app.prevInput)
      && app.items.selected == old(app.items.selected) && app.items.Reparses == old(app.items.Reparses)
    ensures ev.Key? && Handler.Dispatch(ev.key) == Handler.DoUp ==>
      && app.Line() == old(app.Line()) && app.prevInput == old(app.prevInput)
      && app.items.selected == Some(Selection.NextIndex(old(app.items.selected), old(app.items.lastSelected), app.items.engine.MatchedCount()))
      && app.items.Reparses == old(app.items.Reparses)
    ensures ev.Key? && Handler.Dispatch(ev.key) == Handler.DoDown ==>
      && app.Line() == old(app.Line()) && app.prevInput == old(app.prevInput)
      && app.items.selected == Some(Selection.PreviousIndex(old(app.items.selected), old(app.items.lastSelected), app.items.engine.MatchedCount()))
      && app.items.Reparses == old(app.items.Reparses)
    ensures ev.Key? && Handler.Dispatch(ev.key).DoEnterChar? ==>
      && app.Line() == Query.EnterChar(old(app.Line()), Handler.Dispatch(ev.key).c)
      && app.prevInput == old(app.input) && app.items.selected == Some(0)
      && app.items.Reparses == old(app.items.Reparses) + [(app.input, Query.StartsWith(app.input, old(app.input)))]
    ensures ev.Key? && Handler.Dispatch(ev.key) == Handler.DoDeleteChar ==>
      && app.Line() == Query.DeleteChar(old(app.Line()))
      && app.prevInput == old(app.input) && app.items.selected == Some(0)
      && app.items.Reparses == old(app.items.Reparses) + [(app.input, old(app.cursorPosition) == 0)]
    ensures app.items.lastSelected == old(app.items.lastSelected)
  {
    match ev {
      case Tick(next) =>
        app.Tick(next);
      case Key(key) =>
        var _ := Handler.HandleKeyEvents(key, app);
    }
    if app.result.Some? {
      app.Quit();
    }
  }
}

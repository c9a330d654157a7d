/**
 * `App` (src/app.rs): the older session variant that the key dispatcher
 * drives. It has the same query editing and navigation as `FuzzyMatchModel`,
 * but keeps no visible window: `select` looks the selected index up in the
 * engine's snapshot directly.
 */
module App {
  import opened Opt
  import Query
  import Engine
  import Selection

  /** `selected as u32`: the index truncated to 32 bits. */
  function U32(i: nat): (r: nat)
    ensures r < 0x1_0000_0000
    ensures i < 0x1_0000_0000 ==> r == i
  {
    i % 0x1_0000_0000
  }

  /**
   * `Snapshot::get_item`: the item at an index in push order (not in ranked
   * order), if there is one.
   */
  function GetItem(engine: Engine.View, index: nat): (r: Option<string>)
    ensures r.Some? <==> index < engine.ItemCount()
    ensures r.Some? ==> r.value == engine.items[index]
  {
    if index < |engine.items| then Some(engine.items[index]) else None
  }

  class App {
    var running: bool
    var result: Option<string>
    var input: string
    var prevInput: string
    const items: Selection.StatefulList
    var cursorPosition: nat

    /** The query line: the input and the cursor. */
    ghost function Line(): Query.Line
      reads this
    {
      Query.Line(input, cursorPosition)
    }

    /** The cursor is within the input and the engine handle is consistent. */
    ghost predicate Valid()
      reads this, items
    {
      items.Valid() && cursorPosition <= |input|
    }

    /**
     * `App::new`: push every candidate into a fresh engine (configured for
     * paths when `optimiseDirectories`), start running with an empty query
     * and the top row selected.
     */
    constructor (list: seq<string>, optimiseDirectories: bool)
      ensures Valid() && fresh(items)
      ensures running && result == None
      ensures input == [] && prevInput == [] && cursorPosition == 0
      ensures items.selected == Some(0) && items.lastSelected == None
      ensures items.engine == Engine.Initial && items.Reparses == []
      ensures items.Candidates == list && items.PathMatching == optimiseDirectories
    {
      running := true;
      input := [];
      result := None;
      prevInput := [];
      cursorPosition := 0;
      items := new Selection.StatefulList(list, optimiseDirectories);
    }

    /** `tick`: the engine works for a bounded budget and publishes `next`. */
    method Tick(next: Engine.View)
      requires Valid()
      requires next.WF() && next.items <= items.Candidates
      modifies items
      ensures Valid()
      ensures items.engine == next
      ensures items.selected == old(items.selected) && items.lastSelected == old(items.lastSelected)
      ensures items.Reparses == old(items.Reparses)
    {
      items.Tick(next);
    }

    /** `quit`: stop running; nothing else changes. */
    method Quit()
      requires Valid()
      modifies this
      ensures Valid() && !running
      ensures result == old(result)
      ensures input == old(input) && prevInput == old(prevInput) && cursorPosition == old(cursorPosition)
    {
      running := false;
    }

    /**
     * `select`: with index `i` selected, the result becomes the engine's item
     * at index `i` (truncated to 32 bits) in push order, or nothing when there
     * is no such item; no window bounds the index. The chosen text is always a
     * candidate the session was built with, but not necessarily the `i`-th
     * ranked match.
     */
    method Select()
      requires Valid()
      modifies this
      ensures Valid()
      ensures old(items.selected).None? ==> result == old(result)
      ensures old(items.selected).Some? ==> result == GetItem(items.engine, U32(old(items.selected).value))
      ensures result.Some? && result != old(result) ==> result.value in items.Candidates
      ensures running == old(running)
      ensures input == old(input) && prevInput == old(prevInput) && cursorPosition == old(cursorPosition)
    {
      match items.selected {
        case Some(selected) =>
          result := GetItem(items.engine, U32(selected));
          if result.Some? {
            assert items.engine.items[U32(selected)] == items.Candidates[U32(selected)];
          }
        case None =>
      }
    }

    /** `clamp_cursor`: the position nearest `pos` within the input. */
    function ClampCursor(pos: nat): (r: nat)
      reads this
      ensures r <= |input|
      ensures pos <= |input| ==> r == pos
      ensures |input| < pos ==> r == |input|
    {
      Query.Clamp(pos, |input|)
    }

    /** `move_cursor_left`: one character left, stopping at the start. */
    method MoveCursorLeft()
      modifies this
      ensures Line() == Query.MoveLeft(old(Line()))
      ensures old(Valid()) ==> Valid()
      ensures running == old(running) && result == old(result) && prevInput == old(prevInput)
    {
      var moved := if cursorPosition == 0 then 0 else cursorPosition - 1;
      cursorPosition := ClampCursor(moved);
    }

    /** `move_cursor_right`: one character right, stopping at the end. */
    method MoveCursorRight()
      modifies this
      ensures Line() == Query.MoveRight(old(Line()))
      ensures old(Valid()) ==> Valid()
      ensures running == old(running) && result == old(result) && prevInput == old(prevInput)
    {
      cursorPosition := ClampCursor(cursorPosition + 1);
    }

    /**
     * `enter_char`: remember the old input, insert `c` at the cursor, step
     * right, select the top row and reparse.
     */
    method EnterChar(c: char)
      requires Valid()
      modifies this, items
      ensures Valid()
      ensures prevInput == old(input)
      ensures Line() == Query.EnterChar(old(Line()), c)
      ensures items.selected == Some(0) && items.lastSelected == old(items.lastSelected)
      ensures items.Reparses == old(items.Reparses) + [(input, Query.StartsWith(input, old(input)))]
      ensures items.engine == old(items.engine)
      ensures running == old(running) && result == old(result)
    {
      prevInput := input;
      input := input[..cursorPosition] + [c] + input[cursorPosition..];
      MoveCursorRight();
      items.UpdateInput(input, prevInput);
    }

    /** `up`: the next row of the ranking. */
    method Up()
      requires Valid()
      modifies items
      ensures Valid()
      ensures items.selected == Some(Selection.NextIndex(old(items.selected), old(items.lastSelected), items.engine.MatchedCount()))
      ensures items.lastSelected == old(items.lastSelected) && items.engine == old(items.engine)
      ensures items.Reparses == old(items.Reparses)
    {
      items.Next();
    }

    /** `down`: the previous row of the ranking. */
    method Down()
      requires Valid()
      modifies items
      ensures Valid()
      ensures items.selected == Some(Selection.PreviousIndex(old(items.selected), old(items.lastSelected), items.engine.MatchedCount()))
      ensures items.lastSelected == old(items.lastSelected) && items.engine == old(items.engine)
      ensures items.Reparses == old(items.Reparses)
    {
      items.Previous();
    }

    /**
     * `delete_char`: remember the old input; unless the cursor is at the start,
     * remove the character before it and step left; then select the top row
     * and reparse. The reparse is a refinement exactly when nothing was deleted.
     */
    method DeleteChar()
      requires Valid()
      modifies this, items
      ensures Valid()
      ensures prevInput == old(input)
      ensures Line() == Query.DeleteChar(old(Line()))
      ensures items.selected == Some(0) && items.lastSelected == old(items.lastSelected)
      ensures items.Reparses == old(items.Reparses) + [(input, old(cursorPosition) == 0)]
      ensures items.engine == old(items.engine)
      ensures running == old(running) && result == old(result)
    {
      prevInput := input;
      if cursorPosition != 0 {
        var currentIndex := cursorPosition;
        var fromLeftToCurrentIndex := currentIndex - 1;
        input := Query.Take(input, fromLeftToCurrentIndex) + Query.Skip(input, currentIndex);
        MoveCursorLeft();
      }
      Query.DeleteRefinesIff(old(Line()));
      items.UpdateInput(input, prevInput);
    }

    /** `reset_cursor`: back to the start of the input. */
    method ResetCursor()
      requires Valid()
      modifies this
      ensures Valid() && cursorPosition == 0
      ensures input == old(input) && prevInput == old(prevInput)
      ensures running == old(running) && result == old(result)
    {
      cursorPosition := 0;
    }
  }
}

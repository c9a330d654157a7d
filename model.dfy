/**
 * `FuzzyMatchModel` (src/model.rs): the picker session that the render loop
 * draws. It owns the query line, the list selection with its engine handle,
 * the window of ranked rows cut from the engine's last snapshot, and the
 * outcome of the session.
 */
module Model {
  import opened Opt
  import Query
  import Engine
  import Selection

  /** One visible row: the candidate's text and the character positions to highlight. */
  datatype Row = Row(text: string, indices: seq<nat>)

  /** `Snapshot`: the visible rows plus the engine's matched and total counts. */
  datatype Snapshot = Snapshot(matchedItems: seq<Row>, matchedItemCount: nat, totalItemCount: nat)

  predicate StrictlyIncreasing(s: seq<nat>) {
    forall i, j :: 0 <= i < j < |s| ==> s[i] < s[j]
  }

  /** Insert `x` into a strictly increasing sequence, keeping it strictly increasing. */
  function InsertSorted(s: seq<nat>, x: nat): (r: seq<nat>)
    requires StrictlyIncreasing(s)
    ensures StrictlyIncreasing(r)
    ensures forall y :: y in r <==> y in s || y == x
    decreases |s|
  {
    if s == [] then [x]
    else if x < s[0] then [x] + s
    else if x == s[0] then s
    else
      var rest := InsertSorted(s[1..], x);
      assert forall j :: 0 <= j < |rest| ==> s[0] < rest[j] by {
        forall j | 0 <= j < |rest| ensures s[0] < rest[j] {
          assert rest[j] in rest;
          if rest[j] != x {
            var k :| 0 <= k < |s[1..]| && s[1..][k] == rest[j];
            assert s[k + 1] == rest[j];
          }
        }
      }
      [s[0]] + rest
  }

  /**
   * `sort_unstable` followed by `dedup` on the buffer of match indices: the
   * result is strictly increasing and holds exactly the values of `xs`.
   */
  function SortDedup(xs: seq<nat>): (r: seq<nat>)
    ensures StrictlyIncreasing(r)
    ensures forall y :: y in r <==> y in xs
    ensures |r| <= |xs|
  {
    if xs == [] then []
    else
      var r := InsertSorted(SortDedup(xs[..|xs| - 1]), xs[|xs| - 1]);
      SortedSize(SortDedup(xs[..|xs| - 1]), xs[|xs| - 1]);
      r
  }

  lemma {:induction false} SortedSize(s: seq<nat>, x: nat)
    requires StrictlyIncreasing(s)
    ensures |InsertSorted(s, x)| <= |s| + 1
    decreases |s|
  {
    if s != [] && x > s[0] {
      SortedSize(s[1..], x);
    }
  }

  lemma NoMembersIsEmpty(s: seq<nat>)
    ensures (forall y :: y !in s) ==> s == []
  {
    if s != [] {
      assert s[0] in s;
    }
  }

  /** A strictly increasing sequence is determined by the values it holds. */
  lemma {:induction false} StrictlyIncreasingUnique(a: seq<nat>, b: seq<nat>)
    requires StrictlyIncreasing(a) && StrictlyIncreasing(b)
    requires forall y :: y in a <==> y in b
    ensures a == b
    decreases |a|
  {
    if a != [] {
      assert a[0] in b && b[0] in a;
      forall y ensures y in a[1..] <==> y in b[1..] {
        if y in a[1..] {
          var k :| 1 <= k < |a| && a[k] == y;
          assert a[0] < y;
          assert y in b;
          var m :| 0 <= m < |b| && b[m] == y;
          assert m != 0;
          assert b[1..][m - 1] == y;
        }
        if y in b[1..] {
          var k :| 1 <= k < |b| && b[k] == y;
          assert b[0] < y;
          assert y in a;
          var m :| 0 <= m < |a| && a[m] == y;
          assert m != 0;
          assert a[1..][m - 1] == y;
        }
      }
      StrictlyIncreasingUnique(a[1..], b[1..]);
      assert a == [a[0]] + a[1..] && b == [b[0]] + b[1..];
    } else {
      NoMembersIsEmpty(b);
    }
  }

  /** The order and the repetitions of the engine's raw indices do not change the stored list. */
  lemma SortDedupIgnoresOrder(xs: seq<nat>, ys: seq<nat>)
    requires forall y :: y in xs <==> y in ys
    ensures SortDedup(xs) == SortDedup(ys)
  {
    StrictlyIncreasingUnique(SortDedup(xs), SortDedup(ys));
  }

  /** Row `k` of a snapshot shows the engine's `k`-th ranked item with its indices sorted and deduplicated. */
  ghost predicate RowOf(engine: Engine.View, k: nat, row: Row)
  {
    && k < |engine.ranking| && k < |engine.highlights| && engine.ranking[k] < |engine.items|
    && row.text == engine.items[engine.ranking[k]]
    && StrictlyIncreasing(row.indices)
    && (forall x :: x in row.indices <==> x in engine.highlights[k])
  }

  /** The snapshot shows a prefix of the engine's ranking and copies its counts. */
  ghost predicate Mirrors(snap: Snapshot, engine: Engine.View)
  {
    && snap.matchedItemCount == engine.MatchedCount()
    && snap.totalItemCount == engine.ItemCount()
    && |snap.matchedItems| <= engine.MatchedCount()
    && forall k :: 0 <= k < |snap.matchedItems| ==> RowOf(engine, k, snap.matchedItems[k])
  }

  /** Every index a shown row carries is a character position of its text. */
  lemma RowsFitText(snap: Snapshot, engine: Engine.View)
    requires engine.WF() && Mirrors(snap, engine)
    ensures forall k, x :: 0 <= k < |snap.matchedItems| && x in snap.matchedItems[k].indices ==>
      x < |snap.matchedItems[k].text|
  {
  }

  class FuzzyMatchModel {
    var running: bool
    var result: Option<string>
    var input: string
    var prevInput: string
    const items: Selection.StatefulList
    var cursorPosition: nat
    var snapshot: Snapshot
    var height: nat

    /** The query line: the input and the cursor. */
    ghost function Line(): Query.Line
      reads this
    {
      Query.Line(input, cursorPosition)
    }

    /** The cursor is within the input and the snapshot mirrors the engine's last one. */
    ghost predicate Valid()
      reads this, items
    {
      items.Valid() && cursorPosition <= |input| && Mirrors(snapshot, items.engine)
    }

    /**
     * `FuzzyMatchModel::new`: push every candidate into a fresh engine
     * (configured for paths when `optimiseDirectories`), start running with an
     * empty query, the top row selected and nothing shown yet.
     */
    constructor (list: seq<string>, optimiseDirectories: bool)
      ensures Valid() && fresh(items)
      ensures running && result == None
      ensures input == [] && prevInput == [] && cursorPosition == 0 && height == 0
      ensures snapshot == Snapshot([], 0, 0)
      ensures items.selected == Some(0) && items.lastSelected == None
      ensures items.engine == Engine.Initial && items.Reparses == []
      ensures items.Candidates == list && items.PathMatching == optimiseDirectories
    {
      running := true;
      input := [];
      result := None;
      height := 0;
      prevInput := [];
      cursorPosition := 0;
      items := new Selection.StatefulList(list, optimiseDirectories);
      snapshot := Snapshot([], 0, 0);
    }

    /**
     * `update_snapshot`: keep the first `min(matched, height)` ranked rows,
     * each with its match indices sorted and deduplicated, and copy the counts.
     */
    method UpdateSnapshot()
      requires items.Valid()
      modifies this
      ensures Mirrors(snapshot, items.engine)
      ensures |snapshot.matchedItems| == if items.engine.MatchedCount() <= height then items.engine.MatchedCount() else height
      ensures running == old(running) && result == old(result) && height == old(height)
      ensures input == old(input) && prevInput == old(prevInput) && cursorPosition == old(cursorPosition)
    {
      var engine := items.engine;
      var count := engine.MatchedCount();
      var n := if count <= height then count else height;
      var rows: seq<Row> := [];
      var j := 0;
      while j < n
        invariant 0 <= j <= n
        invariant |rows| == j
        invariant forall k :: 0 <= k < j ==> RowOf(engine, k, rows[k])
      {
        var indices := SortDedup(engine.highlights[j]);
        rows := rows + [Row(engine.items[engine.ranking[j]], indices)];
        j := j + 1;
      }
      snapshot := Snapshot(rows, count, engine.ItemCount());
    }

    /**
     * `tick`: the engine works for a bounded budget and publishes `next`; the
     * visible window is then rebuilt from it. The selection is not revalidated.
     */
    method Tick(next: Engine.View)
      requires Valid()
      requires next.WF() && next.items <= items.Candidates
      modifies this, items
      ensures Valid()
      ensures items.engine == next
      ensures |snapshot.matchedItems| == if next.MatchedCount() <= height then next.MatchedCount() else height
      ensures items.selected == old(items.selected) && items.lastSelected == old(items.lastSelected)
      ensures items.Reparses == old(items.Reparses)
      ensures running == old(running) && result == old(result) && height == old(height)
      ensures input == old(input) && prevInput == old(prevInput) && cursorPosition == old(cursorPosition)
    {
      items.Tick(next);
      UpdateSnapshot();
    }

    /** `update_height`: remember how many rows the screen can show. */
    method UpdateHeight(h: nat)
      requires Valid()
      modifies this
      ensures Valid() && height == h
      ensures snapshot == old(snapshot) && running == old(running) && result == old(result)
      ensures input == old(input) && prevInput == old(prevInput) && cursorPosition == old(cursorPosition)
    {
      height := h;
    }

    /** `quit`: stop running; nothing else changes. */
    method Quit()
      requires Valid()
      modifies this
      ensures Valid() && !running
      ensures result == old(result) && snapshot == old(snapshot) && height == old(height)
      ensures input == old(input) && prevInput == old(prevInput) && cursorPosition == old(cursorPosition)
    {
      running := false;
    }

    /**
     * `select`: with row `i` selected, the result becomes the text of the
     * `i`-th visible row, or nothing when the window has no such row. The
     * chosen text is always one of the candidates the session was built with.
     */
    method Select()
      requires Valid()
      modifies this
      ensures Valid()
      ensures old(items.selected).None? ==> result == old(result)
      ensures old(items.selected).Some? ==>
        var i := old(items.selected).value;
        result == if i < |snapshot.matchedItems| then Some(snapshot.matchedItems[i].text) else None
      ensures result.Some? && result != old(result) ==> result.value in items.Candidates
      ensures running == old(running) && snapshot == old(snapshot) && height == old(height)
      ensures input == old(input) && prevInput == old(prevInput) && cursorPosition == old(cursorPosition)
    {
      match items.selected {
        case Some(i) =>
          if i < |snapshot.matchedItems| {
            var k := items.engine.ranking[i];
            assert items.engine.items[k] == items.Candidates[k];
            result := Some(snapshot.matchedItems[i].text);
          } else {
            result := None;
          }
        case None =>
      }
    }

    /** `clamp_cursor`: the position nearest `pos` within the input. */
    function ClampCursor(pos: nat): (r: nat)
      reads this
      ensures r <= |input|
      ensures pos <= |input| ==> r == pos
      ensures |input| < pos ==> r == |input|
    {
      Query.Clamp(pos, |input|)
    }

    /** `move_cursor_left`: one character left, stopping at the start. */
    method MoveCursorLeft()
      modifies this
      ensures Line() == Query.MoveLeft(old(Line()))
      ensures old(Valid()) ==> Valid()
      ensures running == old(running) && result == old(result) && snapshot == old(snapshot)
      ensures prevInput == old(prevInput) && height == old(height)
    {
      var moved := if cursorPosition == 0 then 0 else cursorPosition - 1;
      cursorPosition := ClampCursor(moved);
    }

    /** `move_cursor_right`: one character right, stopping at the end. */
    method MoveCursorRight()
      modifies this
      ensures Line() == Query.MoveRight(old(Line()))
      ensures old(Valid()) ==> Valid()
      ensures running == old(running) && result == old(result) && snapshot == old(snapshot)
      ensures prevInput == old(prevInput) && height == old(height)
    {
      cursorPosition := ClampCursor(cursorPosition + 1);
    }

    /**
     * `enter_char`: remember the old input, insert `c` at the cursor, step
     * right, select the top row and reparse, flagged as a refinement when the
     * new input extends the old one.
     */
    method EnterChar(c: char)
      requires Valid()
      modifies this, items
      ensures Valid()
      ensures prevInput == old(input)
      ensures Line() == Query.EnterChar(old(Line()), c)
      ensures items.selected == Some(0) && items.lastSelected == old(items.lastSelected)
      ensures items.Reparses == old(items.Reparses) + [(input, Query.StartsWith(input, old(input)))]
      ensures items.engine == old(items.engine)
      ensures running == old(running) && result == old(result) && snapshot == old(snapshot) && height == old(height)
    {
      prevInput := input;
      input := input[..cursorPosition] + [c] + input[cursorPosition..];
      MoveCursorRight();
      items.UpdateInput(input, prevInput);
    }

    /** `up`: the list is drawn bottom to top, so up is the next row of the ranking. */
    method Up()
      requires Valid()
      modifies items
      ensures Valid()
      ensures items.selected == Some(Selection.NextIndex(old(items.selected), old(items.lastSelected), items.engine.MatchedCount()))
      ensures items.lastSelected == old(items.lastSelected) && items.engine == old(items.engine)
      ensures items.Reparses == old(items.Reparses)
    {
      items.Next();
    }

    /** `down`: the previous row of the ranking. */
    method Down()
      requires Valid()
      modifies items
      ensures Valid()
      ensures items.selected == Some(Selection.PreviousIndex(old(items.selected), old(items.lastSelected), items.engine.MatchedCount()))
      ensures items.lastSelected == old(items.lastSelected) && items.engine == old(items.engine)
      ensures items.Reparses == old(items.Reparses)
    {
      items.Previous();
    }

    /**
     * `delete_char`: remember the old input; unless the cursor is at the start,
     * remove the character before it and step left; then select the top row
     * and reparse. The reparse is a refinement exactly when nothing was deleted.
     */
    method DeleteChar()
      requires Valid()
      modifies this, items
      ensures Valid()
      ensures prevInput == old(input)
      ensures Line() == Query.DeleteChar(old(Line()))
      ensures items.selected == Some(0) && items.lastSelected == old(items.lastSelected)
      ensures items.Reparses == old(items.Reparses) + [(input, old(cursorPosition) == 0)]
      ensures items.engine == old(items.engine)
      ensures running == old(running) && result == old(result) && snapshot == old(snapshot) && height == old(height)
    {
      prevInput := input;
      if cursorPosition != 0 {
        var currentIndex := cursorPosition;
        var fromLeftToCurrentIndex := currentIndex - 1;
        input := Query.Take(input, fromLeftToCurrentIndex) + Query.Skip(input, currentIndex);
        MoveCursorLeft();
      }
      Query.DeleteRefinesIff(old(Line()));
      items.UpdateInput(input, prevInput);
    }

    /** `reset_cursor`: back to the start of the input. */
    method ResetCursor()
      requires Valid()
      modifies this
      ensures Valid() && cursorPosition == 0
      ensures input == old(input) && prevInput == old(prevInput)
      ensures running == old(running) && result == old(result) && snapshot == old(snapshot) && height == old(height)
    {
      cursorPosition := 0;
    }
  }
}

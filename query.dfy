/**
 * The query line of a picker session as a value: the text typed so far and
 * the cursor, both counted in characters. Both session variants
 * (`FuzzyMatchModel` in src/model.rs and `App` in src/app.rs) edit their
 * `input` and `cursor_position` fields exactly as the functions below say.
 */
module Query {

  /** `str::starts_with`: `prefix` is an initial segment of `s`. */
  predicate StartsWith(s: string, prefix: string)
    ensures StartsWith(s, prefix) <==> |prefix| <= |s| && s == prefix + s[|prefix|..]
  {
    |prefix| <= |s| && s[..|prefix|] == prefix
  }

  /** `usize::clamp(pos, 0, len)`. */
  function Clamp(pos: nat, len: nat): (r: nat)
    ensures r <= len
    ensures pos <= len ==> r == pos
    ensures len < pos ==> r == len
  {
    if pos <= len then pos else len
  }

  /** `chars().take(n)`: the first `n` characters, or all of them. */
  function Take(s: string, n: nat): (r: string)
    ensures |r| == if n <= |s| then n else |s|
    ensures StartsWith(s, r)
  {
    if n <= |s| then s[..n] else s
  }

  /** `chars().skip(n)`: everything after the first `n` characters. */
  function Skip(s: string, n: nat): (r: string)
    ensures |r| == if n <= |s| then |s| - n else 0
    ensures Take(s, n) + r == s
  {
    if n <= |s| then s[n..] else []
  }

  /** The text being typed and the cursor position within it. */
  datatype Line = Line(text: string, cursor: nat) {
    /** The cursor sits on a character boundary of the text, possibly at its end. */
    predicate Valid() {
      cursor <= |text|
    }
  }

  /** The line nobody has typed on yet. */
  const Empty: Line := Line([], 0)

  /** `move_cursor_left`: saturating decrement, then clamp to the text. */
  function MoveLeft(q: Line): (r: Line)
    ensures r.Valid() && r.text == q.text
    ensures q.cursor == 0 ==> r == q
    ensures q.Valid() && 0 < q.cursor ==> r.cursor == q.cursor - 1
  {
    var moved := if q.cursor == 0 then 0 else q.cursor - 1;
    Line(q.text, Clamp(moved, |q.text|))
  }

  /** `move_cursor_right`: increment, then clamp to the text. */
  function MoveRight(q: Line): (r: Line)
    ensures r.Valid() && r.text == q.text
    ensures q.cursor < |q.text| ==> r.cursor == q.cursor + 1
    ensures |q.text| <= q.cursor ==> r.cursor == |q.text|
  {
    Line(q.text, Clamp(q.cursor + 1, |q.text|))
  }

  /**
   * `enter_char`: insert `c` at the cursor, then move right. Inserting past
   * the end of the text panics in the source, hence the precondition.
   */
  function EnterChar(q: Line, c: char): (r: Line)
    requires q.Valid()
    ensures r.Valid()
    ensures |r.text| == |q.text| + 1 && r.cursor == q.cursor + 1
    ensures r.text[..q.cursor] == q.text[..q.cursor]
    ensures r.text[q.cursor] == c
    ensures r.text[q.cursor + 1..] == q.text[q.cursor..]
  {
    MoveRight(Line(q.text[..q.cursor] + [c] + q.text[q.cursor..], q.cursor))
  }

  /**
   * `delete_char`: at cursor 0 nothing happens; otherwise the characters
   * before position `cursor - 1` and from position `cursor` on are joined
   * and the cursor moves left.
   */
  function DeleteChar(q: Line): (r: Line)
    ensures r.Valid()
    ensures q.cursor == 0 ==> r == q
    ensures q.Valid() && 0 < q.cursor ==>
      && |r.text| == |q.text| - 1
      && r.cursor == q.cursor - 1
      && r.text[..q.cursor - 1] == q.text[..q.cursor - 1]
      && r.text[q.cursor - 1..] == q.text[q.cursor..]
  {
    if q.cursor == 0 then q
    else MoveLeft(Line(Take(q.text, q.cursor - 1) + Skip(q.text, q.cursor), q.cursor))
  }

  /** Deleting right after typing a character gives back the line as it was. */
  lemma DeleteUndoesEnter(q: Line, c: char)
    requires q.Valid()
    ensures DeleteChar(EnterChar(q, c)) == q
  {
    var e := EnterChar(q, c);
    var d := DeleteChar(e);
    assert d.text == q.text[..q.cursor] + q.text[q.cursor..];
    assert q.text[..q.cursor] + q.text[q.cursor..] == q.text;
  }

  /** Typing back the character just deleted gives back the line as it was. */
  lemma EnterUndoesDelete(q: Line)
    requires q.Valid() && 0 < q.cursor
    ensures EnterChar(DeleteChar(q), q.text[q.cursor - 1]) == q
  {
    var d := DeleteChar(q);
    var e := EnterChar(d, q.text[q.cursor - 1]);
    assert e.text == q.text[..q.cursor - 1] + [q.text[q.cursor - 1]] + q.text[q.cursor..];
    assert q.text == q.text[..q.cursor - 1] + [q.text[q.cursor - 1]] + q.text[q.cursor..];
  }

  /** A step right followed by a step left returns the cursor, unless it was at the end. */
  lemma MoveRightThenLeft(q: Line)
    requires q.cursor < |q.text|
    ensures MoveLeft(MoveRight(q)) == q
  {
  }

  /** A step left followed by a step right returns the cursor, unless it was at the start. */
  lemma MoveLeftThenRight(q: Line)
    requires q.Valid() && 0 < q.cursor
    ensures MoveRight(MoveLeft(q)) == q
  {
  }

  /** If typing `c` keeps the old text as a prefix, everything from the cursor on is `c`. */
  lemma RefinesOnlyOverRepeat(q: Line, c: char)
    requires q.Valid() && StartsWith(EnterChar(q, c).text, q.text)
    ensures forall j :: q.cursor <= j < |q.text| ==> q.text[j] == c
  {
    var t := EnterChar(q, c).text;
    var k := q.cursor;
    // t[j] == q.text[j] for all j < |q.text|; t[j + 1] == q.text[j] for j >= k
    var j := k;
    while j < |q.text|
      invariant k <= j <= |q.text|
      invariant forall i :: k <= i < j ==> q.text[i] == c
    {
      assert t[j] == q.text[j];
      if j == k {
        assert t[k] == c;
      } else {
        assert t[j] == q.text[j - 1];
      }
      j := j + 1;
    }
  }

  /** If everything from the cursor on is `c`, typing `c` keeps the old text as a prefix. */
  lemma RepeatRefines(q: Line, c: char)
    requires q.Valid() && forall j :: q.cursor <= j < |q.text| ==> q.text[j] == c
    ensures StartsWith(EnterChar(q, c).text, q.text)
  {
    var t := EnterChar(q, c).text;
    var k := q.cursor;
    forall i | 0 <= i < |q.text| ensures t[i] == q.text[i] {
      if i < k {
        assert t[..k][i] == q.text[..k][i];
      } else if i == k {
        assert t[k] == c;
      } else {
        assert t[k + 1..][i - k - 1] == q.text[k..][i - k - 1];
      }
    }
    assert t[..|q.text|] == q.text;
  }

  /**
   * The refinement flag an edit hands to the matching engine,
   * `input.starts_with(prev_input)`, after typing `c`: it holds exactly when
   * every character from the cursor to the end of the line is `c` (in
   * particular whenever the cursor is at the end).
   */
  lemma EnterRefinesIff(q: Line, c: char)
    requires q.Valid()
    ensures StartsWith(EnterChar(q, c).text, q.text) <==>
      forall j :: q.cursor <= j < |q.text| ==> q.text[j] == c
  {
    if StartsWith(EnterChar(q, c).text, q.text) {
      RefinesOnlyOverRepeat(q, c);
    }
    if forall j :: q.cursor <= j < |q.text| ==> q.text[j] == c {
      RepeatRefines(q, c);
    }
  }

  /** Typing at the end of the line is always a refinement of the previous query. */
  lemma EnterAtEndRefines(q: Line, c: char)
    requires q.Valid() && q.cursor == |q.text|
    ensures StartsWith(EnterChar(q, c).text, q.text)
  {
    EnterRefinesIff(q, c);
  }

  /**
   * An edit that deletes a character is never a refinement; a delete at cursor 0
   * leaves the text unchanged, which always is.
   */
  lemma DeleteRefinesIff(q: Line)
    requires q.Valid()
    ensures StartsWith(DeleteChar(q).text, q.text) <==> q.cursor == 0
  {
  }

  /** Cutting a concatenation where its first part ends gives back both parts. */
  lemma SplitAt(a: string, b: string)
    ensures (a + b)[..|a|] == a && (a + b)[|a|..] == b
  {
  }

  /** The line after typing the characters of `cs` one after another. */
  function TypeString(q: Line, cs: string): (r: Line)
    requires q.Valid()
    ensures r.Valid()
    decreases |cs|
  {
    if cs == [] then q else TypeString(EnterChar(q, cs[0]), cs[1..])
  }

  /**
   * Typing a string of any characters, wide ones included, inserts it at the
   * cursor and leaves the cursor just after it; no keystroke can fail.
   */
  lemma {:induction false} TypeStringInserts(q: Line, cs: string)
    requires q.Valid()
    ensures TypeString(q, cs) == Line(q.text[..q.cursor] + cs + q.text[q.cursor..], q.cursor + |cs|)
    decreases |cs|
  {
    var k := q.cursor;
    if cs == [] {
      assert q.text[..k] + cs + q.text[k..] == q.text;
    } else {
      var front := q.text[..k] + [cs[0]];
      var e := EnterChar(q, cs[0]);
      TypeStringInserts(e, cs[1..]);
      assert e.text == front + q.text[k..];
      SplitAt(front, q.text[k..]);
      assert front + cs[1..] == q.text[..k] + cs by {
        assert [cs[0]] + cs[1..] == cs;
      }
    }
  }
}

/**
 * Byte offsets where the source mixes them with character counts. Rust's
 * `String` is UTF-8: `input.len()` (the bound `clamp_cursor` uses), the
 * index `String::insert` takes and the bounds of a `&str[a..b]` slice are
 * byte offsets, while `delete_char` and the loop of `split_highlights` count
 * characters. On ASCII text the two agree; one character of two or more
 * bytes is enough to make the next insertion panic, and to shift or break
 * the highlighted spans.
 */
module Bytes {
  import opened Opt
  import Query
  import Highlight

  /** The number of bytes UTF-8 uses for `c`. */
  function Utf8Width(c: char): (w: nat)
    ensures 1 <= w <= 4
    ensures w == 1 <==> (c as int) < 0x80
  {
    if (c as int) < 0x80 then 1
    else if (c as int) < 0x800 then 2
    else if (c as int) < 0x10000 then 3
    else 4
  }

  /**
   * `str::len`: the length of `s` in bytes, at least the number of
   * characters and at most four times it.
   */
  function ByteLen(s: string): (n: nat)
    ensures |s| <= n <= 4 * |s|
  {
    if s == [] then 0 else Utf8Width(s[0]) + ByteLen(s[1..])
  }

  predicate IsAscii(s: string) {
    forall i :: 0 <= i < |s| ==> (s[i] as int) < 0x80
  }

  /** The byte length equals the number of characters exactly when every character is ASCII. */
  lemma {:induction false} AsciiByteLen(s: string)
    ensures ByteLen(s) == |s| <==> IsAscii(s)
    decreases |s|
  {
    if s != [] {
      AsciiByteLen(s[1..]);
      assert IsAscii(s) <==> (s[0] as int) < 0x80 && IsAscii(s[1..]) by {
        assert forall i :: 0 < i < |s| ==> s[i] == s[1..][i - 1];
      }
    }
  }

  /** The bytes of a concatenation are the bytes of its parts. */
  lemma {:induction false} ByteLenConcat(a: string, b: string)
    ensures ByteLen(a + b) == ByteLen(a) + ByteLen(b)
    decreases |a|
  {
    if a == [] {
      assert a + b == b;
    } else {
      assert (a + b)[0] == a[0] && (a + b)[1..] == a[1..] + b;
      ByteLenConcat(a[1..], b);
    }
  }

  /** The character position at byte offset `b`, when `b` is a character boundary of `s`. */
  function CharAt(s: string, b: nat): (r: Option<nat>)
    ensures r.Some? ==> r.value <= |s|
  {
    if b == 0 then Some(0)
    else if s == [] || b < Utf8Width(s[0]) then None
    else match CharAt(s[1..], b - Utf8Width(s[0]))
      case Some(k) => Some(k + 1)
      case None => None
  }

  /** A position `CharAt` names has a prefix of exactly `b` bytes. */
  lemma {:induction false} CharAtSound(s: string, b: nat)
    ensures CharAt(s, b).Some? ==> ByteLen(s[..CharAt(s, b).value]) == b
    decreases |s|
  {
    if b == 0 {
      assert s[..0] == [];
    } else if s != [] && Utf8Width(s[0]) <= b {
      var r := CharAt(s[1..], b - Utf8Width(s[0]));
      CharAtSound(s[1..], b - Utf8Width(s[0]));
      if r.Some? {
        var k := r.value;
        assert s[..k + 1][0] == s[0] && s[..k + 1][1..] == s[1..][..k];
      }
    }
  }

  /** Every character boundary is found: the byte length of any prefix names its end. */
  lemma {:induction false} CharAtBoundary(s: string, k: nat)
    requires k <= |s|
    ensures CharAt(s, ByteLen(s[..k])) == Some(k)
    decreases k
  {
    if k == 0 {
      assert s[..0] == [];
    } else {
      assert s[..k][0] == s[0] && s[..k][1..] == s[1..][..k - 1];
      CharAtBoundary(s[1..], k - 1);
    }
  }

  /**
   * `CharAt` names position `k` exactly when the characters before `k` take
   * `b` bytes: it finds every character boundary and nothing else.
   */
  lemma CharAtIff(s: string, b: nat, k: nat)
    ensures CharAt(s, b) == Some(k) <==> k <= |s| && ByteLen(s[..k]) == b
  {
    CharAtSound(s, b);
    if k <= |s| && ByteLen(s[..k]) == b {
      CharAtBoundary(s, k);
    }
  }

  /**
   * `String::insert(idx, c)`: panics (`None`) unless `idx` is a character
   * boundary; otherwise `c` goes in at the character position whose prefix
   * takes `idx` bytes, and the text grows by the width of `c`.
   */
  function InsertAtByte(s: string, idx: nat, c: char): (r: Option<string>)
    ensures r.Some? ==> exists k :: 0 <= k <= |s| && ByteLen(s[..k]) == idx && r.value == s[..k] + [c] + s[k..]
    ensures r.Some? ==> |r.value| == |s| + 1 && idx <= ByteLen(s) && ByteLen(r.value) == ByteLen(s) + Utf8Width(c)
  {
    match CharAt(s, idx)
    case Some(k) =>
      CharAtSound(s, idx);
      assert [c][1..] == [];
      ByteLenConcat(s[..k], [c]);
      ByteLenConcat(s[..k] + [c], s[k..]);
      ByteLenConcat(s[..k], s[k..]);
      assert s[..k] + s[k..] == s;
      Some(s[..k] + [c] + s[k..])
    case None => None
  }

  /** At every character boundary the insertion succeeds. */
  lemma InsertAtBoundary(s: string, k: nat, c: char)
    requires k <= |s|
    ensures InsertAtByte(s, ByteLen(s[..k]), c) == Some(s[..k] + [c] + s[k..])
  {
    CharAtBoundary(s, k);
  }

  /** `move_cursor_right` as written: the cursor is clamped to the byte length. */
  function MoveRightAsWritten(q: Query.Line): (r: Query.Line)
    ensures r.text == q.text
    ensures q.cursor < ByteLen(q.text) ==> r.cursor == q.cursor + 1
    ensures ByteLen(q.text) <= q.cursor ==> r.cursor == ByteLen(q.text)
  {
    Query.Line(q.text, Query.Clamp(q.cursor + 1, ByteLen(q.text)))
  }

  /**
   * `enter_char` as written: insert at the byte index held in the cursor,
   * then move right within the byte length; `None` where the source panics.
   * Where it succeeds, `c` lands at the character position whose prefix takes
   * `cursor` bytes, and the cursor advances by one byte whatever the width
   * of `c`.
   */
  function EnterCharAsWritten(q: Query.Line, c: char): (r: Option<Query.Line>)
    ensures r.Some? ==> exists k :: (0 <= k <= |q.text| && ByteLen(q.text[..k]) == q.cursor
      && r.value == Query.Line(q.text[..k] + [c] + q.text[k..], q.cursor + 1))
  {
    match InsertAtByte(q.text, q.cursor, c)
    case Some(t) => Some(MoveRightAsWritten(Query.Line(t, q.cursor)))
    case None => None
  }

  /** At every character boundary the as-written insertion succeeds. */
  lemma EnterAsWrittenAtBoundary(q: Query.Line, c: char, k: nat)
    requires k <= |q.text| && ByteLen(q.text[..k]) == q.cursor
    ensures EnterCharAsWritten(q, c) == Some(Query.Line(q.text[..k] + [c] + q.text[k..], q.cursor + 1))
  {
    InsertAtBoundary(q.text, k, c);
  }

  /**
   * Typing `é` (two bytes) into an empty query leaves the cursor at byte 1,
   * inside the character; typing `a` next makes `String::insert` panic.
   */
  lemma WideCharBreaksNextInsert()
    ensures EnterCharAsWritten(Query.Empty, '\U{E9}') == Some(Query.Line(['\U{E9}'], 1))
    ensures EnterCharAsWritten(Query.Line(['\U{E9}'], 1), 'a') == None
  {
    var t := ['\U{E9}'];
    assert Utf8Width('\U{E9}') == 2;
    assert ByteLen(t[1..]) == 0;
    assert ByteLen(t) == 2;
    assert CharAt(t, 1) == None;
    var e: string := [];
    assert e[..0] + ['\U{E9}'] + e[0..] == t;
    assert InsertAtByte(e, 0, '\U{E9}') == Some(t);
    assert Query.Clamp(1, ByteLen(t)) == 1;
  }

  /**
   * `delete_char` as written: the byte cursor is used as a character count
   * for `take`/`skip`, and moving left clamps to the byte length. The
   * characters removed are those the character model removes at position
   * `cursor`, whatever the byte width of the text before it.
   */
  function DeleteCharAsWritten(q: Query.Line): (r: Query.Line)
    ensures q.cursor == 0 ==> r == q
    ensures 0 < q.cursor ==> r.text == Query.DeleteChar(q).text
    ensures 0 < q.cursor ==> r.cursor == Query.Clamp(q.cursor - 1, ByteLen(r.text))
  {
    if q.cursor == 0 then q
    else
      var t := Query.Take(q.text, q.cursor - 1) + Query.Skip(q.text, q.cursor);
      Query.Line(t, Query.Clamp(q.cursor - 1, ByteLen(t)))
  }

  /**
   * After typing a two-byte character, moving right and typing two ASCII
   * letters, the byte cursor is 4 on a three-character text.
   */
  lemma WideCharThenLetters()
    ensures MoveRightAsWritten(Query.Line(['\U{E9}'], 1)) == Query.Line(['\U{E9}'], 2)
    ensures EnterCharAsWritten(Query.Line(['\U{E9}'], 2), 'a') == Some(Query.Line(['\U{E9}', 'a'], 3))
    ensures EnterCharAsWritten(Query.Line(['\U{E9}', 'a'], 3), 'b') == Some(Query.Line(['\U{E9}', 'a', 'b'], 4))
  {
    var t1 := ['\U{E9}'];
    var t2 := ['\U{E9}', 'a'];
    assert Utf8Width('\U{E9}') == 2 && Utf8Width('a') == 1;
    assert ByteLen(t1[1..]) == 0 && ByteLen(t1) == 2;
    assert t2[..1] == t1 && t2[1..] == ['a'] && ByteLen(t2) == 3;
    EnterAsWrittenAtBoundary(Query.Line(t1, 2), 'a', 1);
    assert t1[..1] + ['a'] + t1[1..] == t2;
    EnterAsWrittenAtBoundary(Query.Line(t2, 3), 'b', 2);
    assert t2[..2] + ['b'] + t2[2..] == ['\U{E9}', 'a', 'b'];
  }

  /**
   * On that line Backspace removes nothing, and a second Backspace removes
   * the last letter rather than the one before the cursor.
   */
  lemma WideCharBreaksDelete()
    ensures DeleteCharAsWritten(Query.Line(['\U{E9}', 'a', 'b'], 4)) == Query.Line(['\U{E9}', 'a', 'b'], 3)
    ensures DeleteCharAsWritten(Query.Line(['\U{E9}', 'a', 'b'], 3)) == Query.Line(['\U{E9}', 'a'], 2)
  {
    var t2 := ['\U{E9}', 'a'];
    var t3 := ['\U{E9}', 'a', 'b'];
    assert Utf8Width('\U{E9}') == 2 && Utf8Width('a') == 1 && Utf8Width('b') == 1;
    assert ByteLen(t2[1..]) == 1;
    assert t3[1..] == ['a', 'b'] && ByteLen(['b']) == 1 && ByteLen(t3[1..]) == 2;
    assert Query.Take(t3, 3) + Query.Skip(t3, 4) == t3;
    assert Query.Take(t3, 2) + Query.Skip(t3, 3) == t2;
  }

  lemma {:induction false} AsciiCharAt(s: string, b: nat)
    requires IsAscii(s) && b <= |s|
    ensures CharAt(s, b) == Some(b)
  {
    if b > 0 {
      AsciiCharAt(s[1..], b - 1);
    }
  }

  /**
   * On ASCII text the byte-based code does exactly what the character-based
   * model does: moving right, typing any character and deleting.
   */
  lemma AsWrittenAgreesOnAscii(q: Query.Line, c: char)
    requires IsAscii(q.text) && q.Valid()
    ensures MoveRightAsWritten(q) == Query.MoveRight(q)
    ensures EnterCharAsWritten(q, c) == Some(Query.EnterChar(q, c))
    ensures DeleteCharAsWritten(q) == Query.DeleteChar(q)
  {
    AsciiByteLen(q.text);
    AsciiCharAt(q.text, q.cursor);
    if 0 < q.cursor {
      var t := DeleteCharAsWritten(q).text;
      assert IsAscii(t) by {
        assert forall i :: 0 <= i < |t| ==> t[i] in q.text;
      }
      AsciiByteLen(t);
    }
  }

  /**
   * `&s[from..to]` (or `&s[from..]` when `to` is `None`) with byte bounds:
   * panics (`None`) unless both bounds are character boundaries in order.
   */
  function SliceBytes(s: string, from: nat, to: Option<nat>): (r: Option<string>)
    ensures r.Some? ==> |r.value| <= |s|
  {
    match CharAt(s, from)
    case None => None
    case Some(i) =>
      if to.None? then Some(s[i..])
      else match CharAt(s, to.value)
        case Some(j) => if i <= j then Some(s[i..j]) else None
        case None => None
  }

  /**
   * A slice that succeeds is the characters from the position whose prefix
   * takes `from` bytes to the one whose prefix takes `to` bytes, or to the end.
   */
  lemma SliceBytesSound(s: string, from: nat, to: Option<nat>)
    ensures var r := SliceBytes(s, from, to);
      r.Some? ==> exists i :: (0 <= i <= |s| - |r.value| && ByteLen(s[..i]) == from
        && r.value == s[i..i + |r.value|]
        && if to.Some? then ByteLen(s[..i + |r.value|]) == to.value else i + |r.value| == |s|)
  {
    var r := SliceBytes(s, from, to);
    if r.Some? {
      CharAtSound(s, from);
      var i := CharAt(s, from).value;
      if to.Some? {
        CharAtSound(s, to.value);
        assert i + |r.value| == CharAt(s, to.value).value;
      } else {
        assert s[i..i + |s[i..]|] == s[i..];
      }
    }
  }

  /** Slices between two character boundaries in order succeed, in both forms. */
  lemma SliceAtBoundaries(s: string, i: nat, j: nat)
    requires i <= j <= |s|
    ensures SliceBytes(s, ByteLen(s[..i]), Some(ByteLen(s[..j]))) == Some(s[i..j])
    ensures SliceBytes(s, ByteLen(s[..i]), None) == Some(s[i..])
  {
    CharAtBoundary(s, i);
    CharAtBoundary(s, j);
  }

  /**
   * The pushes of `split_highlights` as written: the runs are found by
   * character position, but every run is cut out of the text with the
   * character counter `start` used as a byte offset; the last run is taken
   * to the end of the text when `start` is below the byte length.
   */
  function Pieces(s: string, runs: seq<Highlight.Span>, start: nat): (r: Option<seq<Highlight.Span>>)
    ensures r.Some? ==> |r.value| <= |runs|
    decreases |runs|
  {
    if runs == [] then Some([])
    else if |runs| == 1 then
      if start < ByteLen(s) then
        match SliceBytes(s, start, None)
        case Some(t) => Some([(t, runs[0].1)])
        case None => None
      else Some([])
    else
      var end := start + |runs[0].0|;
      Prepend(SliceBytes(s, start, Some(end)), runs[0].1, Pieces(s, runs[1..], end))
  }

  /** One cut piece with its flag in front of the pieces after it; `None` if either panicked. */
  function Prepend(piece: Option<string>, flag: bool, rest: Option<seq<Highlight.Span>>): (r: Option<seq<Highlight.Span>>)
    ensures r.Some? <==> piece.Some? && rest.Some?
    ensures r.Some? ==> r.value == [(piece.value, flag)] + rest.value
  {
    match piece
    case None => None
    case Some(t) =>
      match rest
      case Some(tail) => Some([(t, flag)] + tail)
      case None => None
  }

  /**
   * `split_highlights` as written; `None` where it panics. Marking an index
   * at or past the character count panics before any slicing (this covers
   * every non-empty index list on empty text).
   */
  function SplitAsWritten(s: string, indices: seq<nat>): (r: Option<seq<Highlight.Span>>)
    ensures indices == [] ==> r == Some([(s, false)])
    ensures (exists x :: x in indices && |s| <= x) ==> r == None
  {
    if indices == [] then Some([(s, false)])
    else if exists x :: x in indices && |s| <= x then None
    else Pieces(s, Highlight.Runs(s, Highlight.Mask(|s|, indices)), 0)
  }

  /** The character-based runs of `éab` when only `b` is matched. */
  lemma RunsOfWideFirst()
    ensures Highlight.Runs(['\U{E9}', 'a', 'b'], [false, false, true])
      == [(['\U{E9}', 'a'], false), (['b'], true)]
  {
    var s, m := ['\U{E9}', 'a', 'b'], [false, false, true];
    assert s[..2] == ['\U{E9}', 'a'] && m[..2] == [false, false];
    assert s[..2][..1] == ['\U{E9}'] && m[..2][..1] == [false];
    var r1 := Highlight.Runs(['\U{E9}'], [false]);
    assert r1 == [(['\U{E9}'], false)];
    assert ['\U{E9}'] + ['a'] == ['\U{E9}', 'a'];
    var r2 := Highlight.Runs(['\U{E9}', 'a'], [false, false]);
    assert r2 == [(['\U{E9}', 'a'], false)];
  }

  /** The byte offsets of `éab`: `é` takes bytes 0 and 1. */
  lemma OffsetsOfWideFirst()
    ensures ByteLen(['\U{E9}', 'a', 'b']) == 4
    ensures CharAt(['\U{E9}', 'a', 'b'], 0) == Some(0)
    ensures CharAt(['\U{E9}', 'a', 'b'], 2) == Some(1)
    ensures CharAt(['\U{E9}', 'a'], 1) == None
  {
    var s := ['\U{E9}', 'a', 'b'];
    assert Utf8Width('\U{E9}') == 2;
    assert s[1..] == ['a', 'b'] && s[1..][1..] == ['b'] && s[1..][1..][1..] == [];
    assert CharAt(s[1..], 0) == Some(0);
  }

  /**
   * In `éab` with only position 2 (`b`) matched, the unmatched `a` is drawn
   * highlighted along with `b`.
   */
  lemma WideCharShiftsHighlights()
    ensures SplitAsWritten(['\U{E9}', 'a', 'b'], [2]) == Some([(['\U{E9}'], false), (['a', 'b'], true)])
  {
    var s := ['\U{E9}', 'a', 'b'];
    assert Highlight.Mask(3, [2]) == [false, false, true];
    RunsOfWideFirst();
    OffsetsOfWideFirst();
    var runs := [(['\U{E9}', 'a'], false), (['b'], true)];
    assert s[0..1] == ['\U{E9}'] && s[1..] == ['a', 'b'];
    assert SliceBytes(s, 0, Some(2)) == Some(['\U{E9}']);
    assert SliceBytes(s, 2, None) == Some(['a', 'b']);
    assert runs[1..] == [(['b'], true)];
    assert Pieces(s, runs[1..], 2) == Some([(['a', 'b'], true)]);
    assert |runs[0].0| == 2;
    assert Pieces(s, runs, 0) == Some([(['\U{E9}'], false)] + [(['a', 'b'], true)]);
    assert Highlight.Runs(s, Highlight.Mask(|s|, [2])) == runs;
    assert [(['\U{E9}'], false)] + [(['a', 'b'], true)] == [(['\U{E9}'], false), (['a', 'b'], true)];
    assert SplitAsWritten(s, [2]) == Pieces(s, runs, 0);
  }

  /** The character-based runs of `éa` when only `a` is matched. */
  lemma RunsOfWideThenMatched()
    ensures Highlight.Runs(['\U{E9}', 'a'], [false, true]) == [(['\U{E9}'], false), (['a'], true)]
  {
    var u, n := ['\U{E9}', 'a'], [false, true];
    assert u[..1] == ['\U{E9}'] && n[..1] == [false];
    assert Highlight.Runs(['\U{E9}'], [false]) == [(['\U{E9}'], false)];
  }

  /** In `éa` with position 1 matched, the first cut falls inside `é` and the slice panics. */
  lemma WideCharBreaksSlice()
    ensures SplitAsWritten(['\U{E9}', 'a'], [1]) == None
  {
    var u, n := ['\U{E9}', 'a'], [false, true];
    assert Highlight.Mask(2, [1]) == n;
    RunsOfWideThenMatched();
    OffsetsOfWideFirst();
    assert SliceBytes(u, 0, Some(1)) == None;
    var runs := [(['\U{E9}'], false), (['a'], true)];
    assert Pieces(u, runs, 0) == None;
  }

  /** Joining the pieces in front of the rest. */
  lemma {:induction false} FlattenCons(x: Highlight.Span, rest: seq<Highlight.Span>)
    ensures Highlight.Flatten([x] + rest) == x.0 + Highlight.Flatten(rest)
    decreases |rest|
  {
    if rest == [] {
      assert [x] + rest == [x];
      assert Highlight.Flatten([x][..0]) == [];
    } else {
      var init := rest[..|rest| - 1];
      var last := rest[|rest| - 1];
      assert ([x] + rest)[..|[x] + rest| - 1] == [x] + init;
      FlattenCons(x, init);
      Highlight.SplitLast(rest);
      Highlight.FlattenSnoc(init, last);
    }
  }

  /** On ASCII text every character position is a byte boundary, so both kinds of slice succeed. */
  lemma AsciiSlices(s: string, from: nat, to: nat)
    requires IsAscii(s) && from <= to <= |s|
    ensures SliceBytes(s, from, Some(to)) == Some(s[from..to])
    ensures from < |s| ==> SliceBytes(s, from, None) == Some(s[from..])
  {
    AsciiCharAt(s, from);
    AsciiCharAt(s, to);
  }

  /** A suffix of `s` that is `a + b` puts `a` in front and `b` after it. */
  lemma CutSuffix(s: string, start: nat, a: string, b: string)
    requires start <= |s| && s[start..] == a + b
    ensures start + |a| <= |s|
    ensures s[start..start + |a|] == a && s[start + |a|..] == b
  {
    assert s[start..][..|a|] == a && s[start..][|a|..] == b;
  }

  /** The last run is taken from its start to the end of the text. */
  lemma AsciiLastPiece(s: string, head: Highlight.Span, start: nat)
    requires IsAscii(s) && start <= |s| && head.0 != [] && s[start..] == head.0
    ensures Pieces(s, [head], start) == Some([head])
  {
    AsciiByteLen(s);
    AsciiSlices(s, start, start);
    assert [head][0] == head && (head.0, head.1) == head;
  }

  /** A run cut out where it belongs, followed by the pieces of the rest. */
  lemma NextPiece(s: string, head: Highlight.Span, rest: seq<Highlight.Span>, start: nat)
    requires rest != []
    requires SliceBytes(s, start, Some(start + |head.0|)) == Some(head.0)
    requires Pieces(s, rest, start + |head.0|) == Some(rest)
    ensures Pieces(s, [head] + rest, start) == Some([head] + rest)
  {
    var runs := [head] + rest;
    assert runs[0] == head && runs[1..] == rest && |runs| != 1;
    assert Pieces(s, runs, start)
      == Prepend(SliceBytes(s, start, Some(start + |head.0|)), head.1, Pieces(s, rest, start + |head.0|));
  }

  /** The first run of a split of a suffix sits at its front, and the rest of the runs follow it. */
  lemma FirstRun(s: string, runs: seq<Highlight.Span>, start: nat)
    requires start <= |s| && runs != []
    requires Highlight.NonEmptySpans(runs)
    requires s[start..] == Highlight.Flatten(runs)
    ensures var end := start + |runs[0].0|;
      && start < end <= |s| && s[start..end] == runs[0].0
      && s[end..] == Highlight.Flatten(runs[1..]) && Highlight.NonEmptySpans(runs[1..])
  {
    var head, rest := runs[0], runs[1..];
    FlattenCons(head, rest);
    assert [head] + rest == runs;
    CutSuffix(s, start, head.0, Highlight.Flatten(rest));
    assert head.0 != [];
    forall i | 0 <= i < |rest| ensures rest[i].0 != [] {
      assert rest[i] == runs[i + 1];
    }
  }

  /** On ASCII text every cut of `Pieces` is where the character-based split puts it. */
  lemma {:induction false} AsciiPieces(s: string, runs: seq<Highlight.Span>, start: nat)
    requires IsAscii(s) && start <= |s|
    requires Highlight.NonEmptySpans(runs)
    requires s[start..] == Highlight.Flatten(runs)
    ensures Pieces(s, runs, start) == Some(runs)
    decreases |runs|
  {
    if runs != [] {
      var head, rest := runs[0], runs[1..];
      var end := start + |head.0|;
      FirstRun(s, runs, start);
      assert [head] + rest == runs;
      if rest == [] {
        assert s[start..] == s[start..end] + s[end..] && Highlight.Flatten(rest) == [];
        AsciiLastPiece(s, head, start);
        assert runs == [head];
      } else {
        AsciiPieces(s, rest, end);
        AsciiSlices(s, start, end);
        NextPiece(s, head, rest, start);
      }
    }
  }

  /** On ASCII text `split_highlights` as written is the character-based split. */
  lemma AsciiSplitAgrees(s: string, indices: seq<nat>)
    requires IsAscii(s) && indices != [] && forall x :: x in indices ==> x < |s|
    ensures SplitAsWritten(s, indices) == Some(Highlight.Runs(s, Highlight.Mask(|s|, indices)))
  {
    var m := Highlight.Mask(|s|, indices);
    Highlight.RunsShape(s, m);
    Highlight.RunsFlatten(s, m);
    assert s[0..] == s;
    AsciiPieces(s, Highlight.Runs(s, m), 0);
  }
}

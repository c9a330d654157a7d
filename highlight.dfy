/**
 * `split_highlights` (src/ui.rs:73-106): cut a candidate's text into
 * maximal runs of characters that are, or are not, among the matched
 * positions, for the renderer to style run by run.
 */
module Highlight {

  /** A piece of the text and whether it is drawn highlighted. */
  type Span = (string, bool)

  /** The texts of the spans, joined. */
  function Flatten(spans: seq<Span>): string
  {
    if spans == [] then [] else Flatten(spans[..|spans| - 1]) + spans[|spans| - 1].0
  }

  /** `n` copies of `b`. */
  function Repeat(b: bool, n: nat): (r: seq<bool>)
    ensures |r| == n && forall k :: 0 <= k < n ==> r[k] == b
  {
    seq(n, _ => b)
  }

  /** The highlight flag of every character covered by the spans, in order. */
  function Flags(spans: seq<Span>): seq<bool>
  {
    if spans == [] then [] else Flags(spans[..|spans| - 1]) + Repeat(spans[|spans| - 1].1, |spans[|spans| - 1].0|)
  }

  predicate NonEmptySpans(spans: seq<Span>) {
    forall i :: 0 <= i < |spans| ==> spans[i].0 != []
  }

  /** Neighbouring spans have opposite flags, so every span is a maximal run. */
  predicate Alternating(spans: seq<Span>) {
    forall i :: 0 < i < |spans| ==> spans[i].1 != spans[i - 1].1
  }

  /** `is_highlighted`: position `k` of `n` is marked when `k` is among the indices. */
  function Mask(n: nat, indices: seq<nat>): (m: seq<bool>)
    ensures |m| == n && forall k :: 0 <= k < n ==> (m[k] <==> k in indices)
  {
    seq(n, k => k in indices)
  }

  /** How often the flag changes from one position to the next. */
  function Changes(m: seq<bool>): nat
  {
    if |m| <= 1 then 0 else Changes(m[..|m| - 1]) + (if m[|m| - 1] != m[|m| - 2] then 1 else 0)
  }

  /**
   * One character `c` with flag `b` added to the end of the runs: it extends
   * the last run when that run has the same flag, and opens a run otherwise.
   */
  function Push(r: seq<Span>, c: char, b: bool): seq<Span>
  {
    if |r| > 0 && r[|r| - 1].1 == b then r[..|r| - 1] + [(r[|r| - 1].0 + [c], b)]
    else r + [([c], b)]
  }

  /** Pushing a character with the flag of the last run extends that run. */
  lemma PushSame(spans: seq<Span>, t: string, c: char, b: bool)
    ensures Push(spans + [(t, b)], c, b) == spans + [(t + [c], b)]
  {
    var r := spans + [(t, b)];
    assert r[..|r| - 1] == spans && r[|r| - 1] == (t, b);
  }

  /**
   * The reference run-length split of `s` by the flags `m`, built left to
   * right by pushing one character at a time.
   */
  function Runs(s: string, m: seq<bool>): seq<Span>
    requires |s| == |m|
    decreases |s|
  {
    if |s| == 0 then []
    else Push(Runs(s[..|s| - 1], m[..|m| - 1]), s[|s| - 1], m[|m| - 1])
  }

  /** A non-empty list of spans is its front followed by its last span. */
  lemma SplitLast(r: seq<Span>)
    requires 0 < |r|
    ensures r == r[..|r| - 1] + [r[|r| - 1]]
  {
  }

  lemma RepeatSnoc(b: bool, n: nat)
    ensures Repeat(b, n + 1) == Repeat(b, n) + [b]
  {
  }

  lemma {:induction false} FlattenSnoc(a: seq<Span>, x: Span)
    ensures Flatten(a + [x]) == Flatten(a) + x.0
    ensures Flags(a + [x]) == Flags(a) + Repeat(x.1, |x.0|)
  {
    assert (a + [x])[..|a|] == a;
  }

  /** Pushing a character appends it to the joined text. */
  lemma PushFlatten(r: seq<Span>, c: char, b: bool)
    ensures Flatten(Push(r, c, b)) == Flatten(r) + [c]
  {
    if |r| > 0 && r[|r| - 1].1 == b {
      var init, l := r[..|r| - 1], r[|r| - 1];
      SplitLast(r);
      FlattenSnoc(init, l);
      FlattenSnoc(init, (l.0 + [c], b));
      assert Flatten(init) + (l.0 + [c]) == (Flatten(init) + l.0) + [c];
    } else {
      FlattenSnoc(r, ([c], b));
    }
  }

  /** The flags after adding a character to the last span. */
  lemma FlagsExtend(init: seq<Span>, l: Span, c: char)
    ensures Flags(init + [(l.0 + [c], l.1)]) == Flags(init + [l]) + [l.1]
  {
    var a, rep := Flags(init), Repeat(l.1, |l.0|);
    FlattenSnoc(init, l);
    FlattenSnoc(init, (l.0 + [c], l.1));
    assert |l.0 + [c]| == |l.0| + 1;
    RepeatSnoc(l.1, |l.0|);
    assert a + (rep + [l.1]) == (a + rep) + [l.1];
  }

  /** Pushing a character appends its flag to the flags. */
  lemma PushFlags(r: seq<Span>, c: char, b: bool)
    ensures Flags(Push(r, c, b)) == Flags(r) + [b]
  {
    if |r| > 0 && r[|r| - 1].1 == b {
      SplitLast(r);
      FlagsExtend(r[..|r| - 1], r[|r| - 1], c);
    } else {
      FlattenSnoc(r, ([c], b));
      RepeatSnoc(b, 0);
      assert Repeat(b, 0) == [];
    }
  }

  /**
   * Pushing keeps the spans non-empty and alternating, ends with the pushed
   * flag, keeps the first flag, and adds a span exactly when the flag changes.
   */
  lemma PushShape(r: seq<Span>, c: char, b: bool)
    requires NonEmptySpans(r) && Alternating(r)
    ensures var t := Push(r, c, b);
      && NonEmptySpans(t) && Alternating(t) && t != []
      && t[|t| - 1].1 == b
      && (r != [] ==> t[0].1 == r[0].1)
      && |t| == |r| + (if r != [] && r[|r| - 1].1 == b then 0 else 1)
  {
    var t := Push(r, c, b);
    if |r| > 0 && r[|r| - 1].1 == b {
      assert |t| == |r|;
      assert forall i :: 0 <= i < |r| ==> t[i].1 == r[i].1;
    } else {
      assert forall i :: 0 <= i < |r| ==> t[i] == r[i];
    }
  }

  /** The runs are non-empty and alternate; the first and last take the first and last flags. */
  lemma {:induction false} RunsShape(s: string, m: seq<bool>)
    requires |s| == |m|
    ensures NonEmptySpans(Runs(s, m)) && Alternating(Runs(s, m))
    ensures Runs(s, m) == [] <==> s == []
    ensures s != [] ==> Runs(s, m)[0].1 == m[0] && Runs(s, m)[|Runs(s, m)| - 1].1 == m[|m| - 1]
    decreases |s|
  {
    if |s| > 0 {
      var s', m' := s[..|s| - 1], m[..|m| - 1];
      RunsShape(s', m');
      PushShape(Runs(s', m'), s[|s| - 1], m[|m| - 1]);
      if |s'| > 0 {
        assert m'[0] == m[0];
      }
    }
  }

  /** The runs join back to the text. */
  lemma {:induction false} RunsFlatten(s: string, m: seq<bool>)
    requires |s| == |m|
    ensures Flatten(Runs(s, m)) == s
    decreases |s|
  {
    if |s| > 0 {
      var s', m' := s[..|s| - 1], m[..|m| - 1];
      assert s == s' + [s[|s| - 1]];
      RunsFlatten(s', m');
      PushFlatten(Runs(s', m'), s[|s| - 1], m[|m| - 1]);
    }
  }

  /** The runs carry exactly the flags they were cut by. */
  lemma {:induction false} RunsFlags(s: string, m: seq<bool>)
    requires |s| == |m|
    ensures Flags(Runs(s, m)) == m
    decreases |s|
  {
    if |s| > 0 {
      var s', m' := s[..|s| - 1], m[..|m| - 1];
      assert m == m' + [m[|m| - 1]];
      RunsFlags(s', m');
      PushFlags(Runs(s', m'), s[|s| - 1], m[|m| - 1]);
    }
  }

  /** There is one run more than there are flag changes. */
  lemma {:induction false} RunsCount(s: string, m: seq<bool>)
    requires |s| == |m| && s != []
    ensures |Runs(s, m)| == 1 + Changes(m)
    decreases |s|
  {
    var s', m' := s[..|s| - 1], m[..|m| - 1];
    RunsShape(s', m');
    PushShape(Runs(s', m'), s[|s| - 1], m[|m| - 1]);
    if |s'| > 0 {
      RunsCount(s', m');
      assert m'[|m'| - 1] == m[|m| - 2];
    }
  }

  /**
   * The runs are the only split with these properties: any non-empty,
   * alternating spans that join back to `s` and carry the flags `m` are
   * exactly `Runs(s, m)`.
   */
  lemma {:induction false} RunsUnique(s: string, m: seq<bool>, spans: seq<Span>)
    requires |s| == |m|
    requires Flatten(spans) == s && Flags(spans) == m
    requires NonEmptySpans(spans) && Alternating(spans)
    ensures spans == Runs(s, m)
    decreases |s|
  {
    if spans != [] {
      var init, last := spans[..|spans| - 1], spans[|spans| - 1];
      var t, b := last.0[..|last.0| - 1], last.1;
      var c := last.0[|last.0| - 1];
      var s', m' := s[..|s| - 1], m[..|m| - 1];
      assert spans[|spans| - 1].0 != [];
      assert last.0 == t + [c];
      SplitLast(spans);
      assert spans == init + [(t + [c], b)];
      DropLastChar(spans, init, t, c, b);
      if t == [] {
        RunsUnique(s', m', init);
        RunsSnoc(s', m', c, b);
      } else {
        RunsUnique(s', m', init + [(t, b)]);
        RunsSnoc(s', m', c, b);
        assert (init + [(t, b)])[..|init|] == init;
      }
    }
  }

  /**
   * Removing the last character from non-empty alternating spans: drop the
   * last span when it is a single character, otherwise shorten it.
   */
  lemma {:induction false} DropLastChar(spans: seq<Span>, init: seq<Span>, t: string, c: char, b: bool)
    requires NonEmptySpans(spans) && Alternating(spans) && spans != []
    requires spans == init + [(t + [c], b)]
    ensures var s := Flatten(spans); var m := Flags(spans);
      && |s| == |m| && s == s[..|s| - 1] + [c] && m == m[..|m| - 1] + [b]
      && (t == [] ==> s[..|s| - 1] == Flatten(init) && m[..|m| - 1] == Flags(init))
      && (t != [] ==> s[..|s| - 1] == Flatten(init + [(t, b)]) && m[..|m| - 1] == Flags(init + [(t, b)]))
    ensures NonEmptySpans(init) && Alternating(init)
    ensures t == [] ==> init == [] || init[|init| - 1].1 != b
    ensures t != [] ==> NonEmptySpans(init + [(t, b)]) && Alternating(init + [(t, b)])
  {
    assert spans[..|spans| - 1] == init;
    FlattenSnoc(init, (t + [c], b));
    FlattenSnoc(init, (t, b));
    RepeatSnoc(b, |t|);
    FlagsLength(spans);
  }

  lemma {:induction false} FlagsLength(spans: seq<Span>)
    ensures |Flags(spans)| == |Flatten(spans)|
  {
    if spans != [] {
      FlagsLength(spans[..|spans| - 1]);
    }
  }

  /**
   * The early return for an empty index list agrees with the general scan on
   * every non-empty text: an all-plain mask gives one plain run.
   */
  lemma EmptyIndicesOneRun(s: string)
    requires s != []
    ensures Runs(s, Mask(|s|, [])) == [(s, false)]
  {
    FlattenSnoc([], (s, false));
    assert Mask(|s|, []) == Repeat(false, |s|);
    RunsUnique(s, Mask(|s|, []), [(s, false)]);
  }

  /** Only which positions are listed matters, not their order or repetitions. */
  lemma MaskIgnoresOrder(n: nat, a: seq<nat>, b: seq<nat>)
    requires forall x :: x in a <==> x in b
    ensures Mask(n, a) == Mask(n, b)
  {
  }

  /** `Runs` of a text with one more character. */
  lemma RunsSnoc(s: string, m: seq<bool>, c: char, b: bool)
    requires |s| == |m|
    ensures Runs(s + [c], m + [b]) == Push(Runs(s, m), c, b)
  {
    assert (s + [c])[..|s|] == s && (m + [b])[..|m|] == m;
  }

  /** The scan's first character opens the first run. */
  lemma ScanFirst(s: string, m: seq<bool>)
    requires |s| == |m| && 0 < |s|
    ensures [(s[0..1], m[0])] == Runs(s[..1], m[..1])
  {
    var t, u := s[..1], m[..1];
    assert Runs(t[..0], u[..0]) == [];
    assert s[0..1] == [t[0]] && u[0] == m[0];
  }

  /**
   * One step of the scan in `split_highlights` when the flag at `i` is the
   * current one: the open run grows by a character.
   */
  lemma ScanStay(s: string, m: seq<bool>, i: nat, spans: seq<Span>, start: nat, current: bool)
    requires |s| == |m| && 0 < i < |s| && m[i] == current
    requires start < i && current == m[i - 1]
    requires spans + [(s[start..i], current)] == Runs(s[..i], m[..i])
    ensures spans + [(s[start..i + 1], current)] == Runs(s[..i + 1], m[..i + 1])
  {
    var p, q, c := s[..i], m[..i], s[i];
    RunsSnoc(p, q, c, current);
    assert s[..i + 1] == p + [c] && m[..i + 1] == q + [current];
    PushSame(spans, s[start..i], c, current);
    assert s[start..i + 1] == s[start..i] + [c];
  }

  /**
   * One step of the scan when the flag at `i` differs from the current one:
   * the open run is closed and a one-character run opens at `i`.
   */
  lemma ScanSwitch(s: string, m: seq<bool>, i: nat, spans: seq<Span>, start: nat, current: bool)
    requires |s| == |m| && 0 < i < |s| && m[i] != current
    requires start < i && current == m[i - 1]
    requires spans + [(s[start..i], current)] == Runs(s[..i], m[..i])
    ensures spans + [(s[start..i], current)] + [(s[i..i + 1], m[i])] == Runs(s[..i + 1], m[..i + 1])
  {
    var p, q, c, b := s[..i], m[..i], s[i], m[i];
    assert s[..i + 1] == p + [c] && m[..i + 1] == q + [b];
    RunsSnoc(p, q, c, b);
    assert s[i..i + 1] == [c];
  }

  /** What the reference runs of a non-empty text by its mask satisfy, gathered for `SplitHighlights`. */
  lemma RunsOfMask(s: string, indices: seq<nat>)
    requires s != []
    ensures var r := Runs(s, Mask(|s|, indices));
      && Flatten(r) == s
      && |Flags(r)| == |s| && (forall k :: 0 <= k < |s| ==> (Flags(r)[k] <==> k in indices))
      && NonEmptySpans(r) && Alternating(r)
      && |r| == 1 + Changes(Mask(|s|, indices)) && r[0].1 == (0 in indices)
  {
    var m := Mask(|s|, indices);
    RunsShape(s, m);
    RunsFlatten(s, m);
    RunsFlags(s, m);
    RunsCount(s, m);
  }

  /** The `is_highlighted` vector: a fresh array holding the mask of the indices. */
  method MarkIndices(n: nat, indices: seq<nat>) returns (a: array<bool>)
    requires forall x :: x in indices ==> x < n
    ensures fresh(a) && a[..] == Mask(n, indices)
  {
    a := new bool[n](_ => false);
    var j := 0;
    while j < |indices|
      invariant 0 <= j <= |indices|
      invariant forall k :: 0 <= k < n ==> (a[k] <==> k in indices[..j])
    {
      assert indices[j] in indices;
      a[indices[j]] := true;
      assert indices[..j + 1] == indices[..j] + [indices[j]];
      j := j + 1;
    }
    assert indices[..j] == indices;
  }

  /**
   * The scan of `split_highlights` over the flags of a non-empty text: it
   * closes the open run whenever the flag changes and pushes the last run
   * at the end, producing exactly the reference runs.
   */
  method ScanRuns(input: string, isHighlighted: array<bool>) returns (spans: seq<Span>)
    requires 0 < |input| == isHighlighted.Length
    ensures spans == Runs(input, isHighlighted[..])
  {
    ghost var m := isHighlighted[..];
    var stringLength := |input|;
    spans := [];
    var currentString := 0;
    var currentHighlight := isHighlighted[0];
    var i := 0;
    while i < stringLength
      invariant 0 <= currentString <= i <= stringLength
      invariant i == 0 ==> spans == [] && currentString == 0 && currentHighlight == m[0]
      invariant 0 < i ==> currentString < i && currentHighlight == m[i - 1]
      invariant 0 < i ==> spans + [(input[currentString..i], currentHighlight)] == Runs(input[..i], m[..i])
    {
      var shouldHighlight := isHighlighted[i];
      assert shouldHighlight == m[i];
      if shouldHighlight != currentHighlight {
        ScanSwitch(input, m, i, spans, currentString, currentHighlight);
        if i > currentString {
          spans := spans + [(input[currentString..i], currentHighlight)];
          currentString := i;
        }
        currentHighlight := shouldHighlight;
        assert spans + [(input[currentString..i + 1], currentHighlight)] == Runs(input[..i + 1], m[..i + 1]);
      } else if i == 0 {
        ScanFirst(input, m);
        assert spans + [(input[currentString..i + 1], currentHighlight)] == Runs(input[..i + 1], m[..i + 1]);
      } else {
        ScanStay(input, m, i, spans, currentString, currentHighlight);
      }
      i := i + 1;
    }
    assert input[..i] == input && m[..i] == m;
    if currentString < |input| {
      spans := spans + [(input[currentString..], currentHighlight)];
    }
  }

  /**
   * `split_highlights`. With no indices the whole text is one plain span
   * (even when the text is empty). Otherwise every index must be a character
   * position of the text (the source panics on any other), and the result is
   * the run-length split of the text by its mask: the spans join back to the
   * text, are non-empty, alternate, start with the flag of position 0, and
   * mark exactly the positions among the indices.
   */
  method SplitHighlights(input: string, indices: seq<nat>) returns (spans: seq<Span>)
    requires forall x :: x in indices ==> x < |input|
    ensures indices == [] ==> spans == [(input, false)]
    ensures indices != [] ==> spans == Runs(input, Mask(|input|, indices))
    ensures Flatten(spans) == input
    ensures |Flags(spans)| == |input| && forall k :: 0 <= k < |input| ==> (Flags(spans)[k] <==> k in indices)
    ensures indices != [] ==> NonEmptySpans(spans) && Alternating(spans)
    ensures indices != [] ==> |spans| == 1 + Changes(Mask(|input|, indices)) && spans[0].1 == (0 in indices)
  {
    if |indices| == 0 {
      spans := [(input, false)];
      FlattenSnoc([], (input, false));
      return;
    }
    var stringLength := |input|;
    assert indices[0] in indices;
    var isHighlighted := MarkIndices(stringLength, indices);
    spans := ScanRuns(input, isHighlighted);
    RunsOfMask(input, indices);
  }
}

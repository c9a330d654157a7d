/**
 * `StatefulList` (src/model.rs:169-226; src/app.rs:123-187 is the same code
 * with a smaller tick budget): the list selection and the handle on the
 * matching engine, with circular navigation over the engine's matched count.
 */
module Selection {
  import opened Opt
  import Engine
  import Query

  /** `usize::saturating_sub(1)`. */
  function Pred(n: nat): (r: nat)
    ensures r == 0 <==> n <= 1
    ensures 0 < n ==> r + 1 == n
  {
    if n == 0 then 0 else n - 1
  }

  /**
   * The row `next` selects. From a selected row it moves one down the
   * ranking and wraps to the top from the last matched row (or from any row
   * past it); with nothing selected it restores `last` or the top row.
   */
  function NextIndex(selected: Option<nat>, last: Option<nat>, count: nat): (r: nat)
    ensures selected.Some? && 0 < count ==> r < count
    ensures selected.Some? && selected.value + 1 < count ==> r == selected.value + 1
    ensures selected.Some? && count <= selected.value + 1 ==> r == 0
    ensures selected.None? ==> r == last.UnwrapOr(0)
  {
    match selected
    case Some(i) => if i >= Pred(count) then 0 else i + 1
    case None => last.UnwrapOr(0)
  }

  /**
   * The row `previous` selects. From the top row it wraps to the last matched
   * row; from any other row it moves one up, so a row past the matched count
   * moves one up rather than into range; with nothing selected it restores
   * `last` or the top row.
   */
  function PreviousIndex(selected: Option<nat>, last: Option<nat>, count: nat): (r: nat)
    ensures selected == Some(0) ==> r == Pred(count) && (0 < count ==> r == count - 1)
    ensures selected.Some? && 0 < selected.value ==> r == selected.value - 1
    ensures selected.Some? && selected.value < count ==> r < count
    ensures selected.None? ==> r == last.UnwrapOr(0)
  {
    match selected
    case Some(i) => if i == 0 then Pred(count) else Pred(i)
    case None => last.UnwrapOr(0)
  }

  /** Within the matched rows, `previous` undoes `next` and `next` undoes `previous`. */
  lemma NextPreviousInverse(i: nat, last: Option<nat>, count: nat)
    requires i < count
    ensures PreviousIndex(Some(NextIndex(Some(i), last, count)), last, count) == i
    ensures NextIndex(Some(PreviousIndex(Some(i), last, count)), last, count) == i
  {
  }

  /** The row reached by pressing `next` `k` times from row `i`. */
  function NextTimes(i: nat, count: nat, k: nat): nat
  {
    if k == 0 then i else NextIndex(Some(NextTimes(i, count, k - 1)), None, count)
  }

  /** The row reached by pressing `previous` `k` times from row `i`. */
  function PreviousTimes(i: nat, count: nat, k: nat): nat
  {
    if k == 0 then i else PreviousIndex(Some(PreviousTimes(i, count, k - 1)), None, count)
  }

  lemma {:induction false} MulAtLeast(d: int, n: int)
    requires 1 <= d && 0 < n
    ensures n <= d * n
  {
    if d > 1 {
      MulAtLeast(d - 1, n);
      assert d * n == (d - 1) * n + n;
    }
  }

  /** Euclidean remainder is determined by any quotient-remainder split. */
  lemma ModUnique(x: int, n: int, q: int, r: int)
    requires 0 < n && 0 <= r < n && x == q * n + r
    ensures x % n == r
  {
    var q0, r0 := x / n, x % n;
    assert x == q0 * n + r0;
    if q0 < q {
      assert (q - q0) * n == r0 - r;
      MulAtLeast(q - q0, n);
    } else if q < q0 {
      assert (q0 - q) * n == r - r0;
      MulAtLeast(q0 - q, n);
    }
  }

  lemma ModSucc(a: int, n: nat)
    requires 0 < n
    ensures (a + 1) % n == if a % n + 1 < n then a % n + 1 else 0
  {
    var q, r := a / n, a % n;
    assert a == q * n + r;
    if r + 1 < n {
      ModUnique(a + 1, n, q, r + 1);
    } else {
      assert a + 1 == (q + 1) * n;
      ModUnique(a + 1, n, q + 1, 0);
    }
  }

  lemma ModPred(a: int, n: nat)
    requires 0 < n
    ensures (a - 1) % n == if a % n == 0 then n - 1 else a % n - 1
  {
    var q, r := a / n, a % n;
    assert a == q * n + r;
    if r == 0 {
      assert a - 1 == (q - 1) * n + (n - 1);
      ModUnique(a - 1, n, q - 1, n - 1);
    } else {
      ModUnique(a - 1, n, q, r - 1);
    }
  }

  /** Navigation is circular: `k` presses of `next` from a matched row land on row `(i + k) mod count`. */
  lemma {:induction false} NextCycles(i: nat, count: nat, k: nat)
    requires i < count
    ensures NextTimes(i, count, k) == (i + k) % count
  {
    if k > 0 {
      NextCycles(i, count, k - 1);
      ModSucc(i + k - 1, count);
    }
  }

  /** `k` presses of `previous` from a matched row land on row `(i - k) mod count`. */
  lemma {:induction false} PreviousCycles(i: nat, count: nat, k: nat)
    requires i < count
    ensures PreviousTimes(i, count, k) == (i - k) % count
  {
    if k > 0 {
      PreviousCycles(i, count, k - 1);
      ModPred(i - (k - 1), count);
      assert i - (k - 1) - 1 == i - k;
      var p := PreviousTimes(i, count, k - 1);
      assert p == (i - (k - 1)) % count && p < count;
    }
  }

  class StatefulList {
    /** `state.selected()`: the highlighted row of the list widget. */
    var selected: Option<nat>
    /** Meant to restore a selection that was cleared; the code never assigns it. */
    var lastSelected: Option<nat>
    /** The engine's latest snapshot. */
    var engine: Engine.View
    /** The candidates pushed into the engine when the session was built. */
    ghost const Candidates: seq<string>
    /** Whether the engine was configured for path matching. */
    ghost const PathMatching: bool
    /** Every `pattern.reparse` call: the new query text and the refinement flag. */
    ghost var Reparses: seq<(string, bool)>

    /** The engine's snapshot is well formed and lists a prefix of the pushed candidates. */
    ghost predicate Valid()
      reads this
    {
      engine.WF() && engine.items <= Candidates
    }

    /** `StatefulList::new`: the top row is selected. */
    constructor (candidates: seq<string>, pathMatching: bool)
      ensures Valid()
      ensures selected == Some(0) && lastSelected == None
      ensures engine == Engine.Initial && Candidates == candidates && PathMatching == pathMatching
      ensures Reparses == []
    {
      selected := Some(0);
      lastSelected := None;
      engine := Engine.Initial;
      Candidates := candidates;
      PathMatching := pathMatching;
      Reparses := [];
    }

    /** `next`: circular step down the ranking. */
    method Next()
      requires Valid()
      modifies this
      ensures Valid()
      ensures selected == Some(NextIndex(old(selected), old(lastSelected), engine.MatchedCount()))
      ensures lastSelected == old(lastSelected) && engine == old(engine) && Reparses == old(Reparses)
    {
      var i: nat;
      match selected {
        case Some(s) =>
          if s >= Pred(engine.MatchedCount()) {
            i := 0;
          } else {
            i := s + 1;
          }
        case None =>
          i := lastSelected.UnwrapOr(0);
      }
      selected := Some(i);
    }

    /** `previous`: circular step up the ranking. */
    method Previous()
      requires Valid()
      modifies this
      ensures Valid()
      ensures selected == Some(PreviousIndex(old(selected), old(lastSelected), engine.MatchedCount()))
      ensures lastSelected == old(lastSelected) && engine == old(engine) && Reparses == old(Reparses)
    {
      var i: nat;
      match selected {
        case Some(s) =>
          if s == 0 {
            i := Pred(engine.MatchedCount());
          } else {
            i := Pred(s);
          }
        case None =>
          i := lastSelected.UnwrapOr(0);
      }
      selected := Some(i);
    }

    /**
     * `tick`: the engine does a bounded slice of work and publishes `next`.
     * The selection is left as it was, even if it now lies past the matched rows.
     */
    method Tick(next: Engine.View)
      requires Valid()
      requires next.WF() && next.items <= Candidates
      modifies this
      ensures Valid()
      ensures engine == next
      ensures selected == old(selected) && lastSelected == old(lastSelected) && Reparses == old(Reparses)
    {
      engine := next;
    }

    /**
     * `update_input`: select the top row and hand the engine the new query,
     * flagged as a refinement exactly when it extends the previous one.
     */
    method UpdateInput(input: string, originalInput: string)
      requires Valid()
      modifies this
      ensures Valid()
      ensures selected == Some(0)
      ensures Reparses == old(Reparses) + [(input, Query.StartsWith(input, originalInput))]
      ensures lastSelected == old(lastSelected) && engine == old(engine)
    {
      selected := Some(0);
      Reparses := Reparses + [(input, Query.StartsWith(input, originalInput))];
    }
  }
}

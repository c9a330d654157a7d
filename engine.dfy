/**
 * The matching engine (nucleo) as the session sees it: the snapshot it
 * publishes after a tick. Its scoring, ranking and worker pool are opaque;
 * the session reads only the items pushed so far (in push order), the ranked
 * list of matched items, and for each matched row the raw character indices
 * the current pattern reports for it (unsorted, possibly repeated).
 */
module Engine {

  datatype View = View(items: seq<string>, ranking: seq<nat>, highlights: seq<seq<nat>>) {

    /**
     * What the engine guarantees of a snapshot: every ranked entry names a
     * pushed item, there is one index list per ranked entry, and every index
     * is a character position of that item's text.
     */
    predicate WF() {
      && |highlights| == |ranking|
      && (forall j :: 0 <= j < |ranking| ==> ranking[j] < |items|)
      && (forall j, x :: 0 <= j < |ranking| && x in highlights[j] ==> x < |items[ranking[j]]|)
    }

    /** `Snapshot::matched_item_count`. */
    function MatchedCount(): (n: nat)
      ensures WF() ==> n == |highlights|
    {
      |ranking|
    }

    /** `Snapshot::item_count`. */
    function ItemCount(): (n: nat)
      ensures WF() ==> forall j :: 0 <= j < |ranking| ==> ranking[j] < n
    {
      |items|
    }
  }

  /** The snapshot before the first tick: nothing has been matched or counted yet. */
  const Initial: View := View([], [], [])
}

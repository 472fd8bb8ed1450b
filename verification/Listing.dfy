// internal/object/manager.go and internal/metadata/pebble_objects.go: the flat,
// marker-based listing of a bucket, on which scrub cycles and sync jobs page.
module Listing {
  import opened Lex

  /** An index entry; delete markers, folder markers and internal files are not visible. */
  datatype Entry = Entry(key: string, visible: bool)

  predicate Ordered(es: seq<Entry>) {
    && (forall i :: 0 <= i < |es| ==> es[i].key != "")
    && (forall i, j :: 0 <= i < j < |es| ==> Less(es[i].key, es[j].key))
  }

  /** The index of the first entry after the marker. */
  function Position(es: seq<Entry>, marker: string): (r: nat)
    ensures r <= |es|
  {
    if marker == "" || es == [] || Less(marker, es[0].key) then 0 else 1 + Position(es[1..], marker)
  }

  /** A key used as a marker continues right behind itself. */
  lemma {:induction false} PositionAfterKey(es: seq<Entry>, i: nat)
    requires Ordered(es) && i < |es|
    ensures Position(es, es[i].key) == i + 1
    decreases |es|
  {
    if i == 0 {
      LessIrreflexive(es[0].key);
      if |es| > 1 { assert Less(es[0].key, es[1].key); }
    } else {
      LessAsymmetric(es[0].key, es[i].key);
      PositionAfterKey(es[1..], i - 1);
    }
  }

  /** The page that starts at `start` ends here; its visible entries are the listed objects. */
  function PageEnd(maxKeys: nat, es: seq<Entry>, start: nat): nat {
    if start + maxKeys < |es| then start + maxKeys else |es|
  }

  /** The last key of a page with more behind it, and "" otherwise. */
  function NextMarker(maxKeys: nat, es: seq<Entry>, start: nat): string
    requires maxKeys > 0
  {
    if PageEnd(maxKeys, es, start) < |es| then es[PageEnd(maxKeys, es, start) - 1].key else ""
  }

  predicate SomeVisible(es: seq<Entry>, lo: nat, hi: nat) {
    exists i :: lo <= i < hi && i < |es| && es[i].visible
  }
}

// "Kept since it was set", over the steps of a run: the past-time operator that says what a flag
// stands at when some steps set it and only some keep it.
module PastTime {

  predicate KeptFrom(keeps: seq<bool>, i: nat) {
    forall j :: i <= j < |keeps| ==> keeps[j]
  }

  /** Some step set the flag, or it was up at the start, and every later step kept it. */
  predicate Since(start: bool, sets: seq<bool>, keeps: seq<bool>) {
    (exists i :: 0 <= i < |sets| && sets[i] && KeptFrom(keeps, i + 1)) || (start && KeptFrom(keeps, 0))
  }

  lemma KeptFromStep(keeps: seq<bool>, b: bool, i: nat)
    requires i <= |keeps|
    ensures KeptFrom(keeps + [b], i) <==> KeptFrom(keeps, i) && b
  {
    assert (keeps + [b])[|keeps|] == b;
    if KeptFrom(keeps + [b], i) {
      assert forall j :: i <= j < |keeps| ==> (keeps + [b])[j] == keeps[j];
    }
  }

  lemma SinceStep(start: bool, sets: seq<bool>, keeps: seq<bool>, a: bool, b: bool)
    requires |sets| == |keeps|
    ensures Since(start, sets + [a], keeps + [b]) <==> a || (Since(start, sets, keeps) && b)
  {
    var sets', keeps' := sets + [a], keeps + [b];
    assert sets'[|sets|] == a && KeptFrom(keeps', |keeps| + 1);
    KeptFromStep(keeps, b, 0);
    forall i | 0 <= i < |sets| ensures sets'[i] == sets[i] && (KeptFrom(keeps', i + 1) <==> KeptFrom(keeps, i + 1) && b) {
      KeptFromStep(keeps, b, i + 1);
    }
  }
}

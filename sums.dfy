/** Totals over the entries of a dictionary, in whatever order the
    dictionary is walked. */
module Sums {

  /** The sum of `w[k]` over the keys `ks`. */
  ghost function Total(w: map<string, int>, ks: set<string>): int
    requires ks <= w.Keys
    decreases ks
  {
    if ks == {} then 0
    else
      var k :| k in ks;
      w[k] + Total(w, ks - {k})
  }

  /** Any key may be taken out first: the total does not depend on the
      order in which the keys are visited. */
  lemma {:induction false} TotalPick(w: map<string, int>, ks: set<string>, k: string)
    requires ks <= w.Keys && k in ks
    ensures Total(w, ks) == w[k] + Total(w, ks - {k})
    decreases ks
  {
    var j :| j in ks && Total(w, ks) == w[j] + Total(w, ks - {j});
    if j != k {
      TotalPick(w, ks - {j}, k);
      TotalPick(w, ks - {k}, j);
      assert ks - {j} - {k} == ks - {k} - {j};
    }
  }

  /** The total over all keys, by a walk that takes the keys one at a time
      (the source's `for movie in movies: total += ...`). */
  method SumValues(w: map<string, int>) returns (total: int)
    ensures total == Total(w, w.Keys)
  {
    total := 0;
    var rest := w.Keys;
    while rest != {}
      invariant rest <= w.Keys
      invariant total + Total(w, rest) == Total(w, w.Keys)
      decreases rest
    {
      var k :| k in rest;
      TotalPick(w, rest, k);
      total := total + w[k];
      rest := rest - {k};
    }
  }
}

/** The page-view counter map and the total of its counts. */
module PageViews {

  /** Some key of a non-empty map. */
  ghost function Pick(m: map<string, nat>): (k: string)
    requires |m| > 0
    ensures k in m
  {
    var k :| k in m; k
  }

  /** The sum of all counts in the map. */
  ghost function Sum(m: map<string, nat>): nat
    decreases |m|
  {
    if |m| == 0 then 0 else m[Pick(m)] + Sum(m - {Pick(m)})
  }

  /** `pageViews[page] || 0`. */
  function Views(m: map<string, nat>, page: string): (v: nat)
    ensures page in m ==> v == m[page]
    ensures page !in m ==> v == 0
  {
    if page in m then m[page] else 0
  }

  /** Every page key holds a count of at least 1: keys are created only by
      a view. */
  predicate AllVisited(m: map<string, nat>) {
    forall p :: p in m ==> m[p] >= 1
  }

  /** The counter update of one accepted page view. */
  function Bump(m: map<string, nat>, page: string): (m': map<string, nat>)
    ensures m'.Keys == m.Keys + {page}
    ensures m'[page] == Views(m, page) + 1
    ensures forall q :: q in m && q != page ==> m'[q] == m[q]
    ensures AllVisited(m) ==> AllVisited(m')
  {
    m[page := Views(m, page) + 1]
  }

  /** The sum does not depend on which key the definition picks first. */
  lemma {:induction false} SumRemove(m: map<string, nat>, k: string)
    requires k in m
    ensures Sum(m) == m[k] + Sum(m - {k})
    decreases |m|
  {
    var j := Pick(m);
    if j != k {
      var mj, mk := m - {j}, m - {k};
      SumRemove(mj, k);
      SumRemove(mk, j);
      assert mj - {k} == mk - {j};
    }
  }

  /** One page view adds exactly one to the sum of the counts. */
  lemma SumBump(m: map<string, nat>, page: string)
    ensures Sum(Bump(m, page)) == Sum(m) + 1
  {
    var m' := Bump(m, page);
    SumRemove(m', page);
    if page in m {
      SumRemove(m, page);
      assert m' - {page} == m - {page};
    } else {
      assert m' - {page} == m;
    }
  }

  /** When every count is at least 1, there are no more keys than views. */
  lemma {:induction false} KeysAtMostSum(m: map<string, nat>)
    requires AllVisited(m)
    ensures |m| <= Sum(m)
    decreases |m|
  {
    if |m| > 0 {
      var k := Pick(m);
      KeysAtMostSum(m - {k});
      assert |m - {k}| == |m| - 1;
    }
  }
}

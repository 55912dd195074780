/** `select_nth_unstable_by_key`: the keys of the lowest ranks, whichever of equal ones. */
module Selection {

  predicate LowestFirst<K>(rank: map<K, int>, chosen: set<K>, others: set<K>)
    requires chosen <= rank.Keys && others <= rank.Keys
  {
    forall a, b | a in chosen && b in others :: rank[a] <= rank[b]
  }

  lemma {:induction false} LowestOf<K>(rank: map<K, int>, from: set<K>) returns (k: K)
    requires from <= rank.Keys && from != {}
    ensures k in from && forall other :: other in from ==> rank[k] <= rank[other]
    decreases |from|
  {
    var some :| some in from;
    if from == {some} {
      k := some;
    } else {
      var best := LowestOf(rank, from - {some});
      k := if rank[best] <= rank[some] then best else some;
    }
  }

  /** There always is a choice of `n` keys of the lowest ranks. */
  lemma {:induction false} LowestExist<K>(rank: map<K, int>, from: set<K>, n: nat) returns (chosen: set<K>)
    requires from <= rank.Keys && n <= |from|
    ensures chosen <= from && |chosen| == n && LowestFirst(rank, chosen, from - chosen)
  {
    if n == 0 {
      chosen := {};
    } else {
      var before := LowestExist(rank, from, n - 1);
      var rest := from - before;
      assert |rest| == |from| - (n - 1);
      var k := LowestOf(rank, rest);
      chosen := before + {k};
      assert from - chosen <= rest;
    }
  }

  method SelectLowest<K(==)>(rank: map<K, int>, from: set<K>, n: nat) returns (chosen: set<K>)
    requires from <= rank.Keys && n <= |from|
    ensures chosen <= from && |chosen| == n && LowestFirst(rank, chosen, from - chosen)
  {
    ghost var witnesses := LowestExist(rank, from, n);
    chosen :| chosen <= from && |chosen| == n && LowestFirst(rank, chosen, from - chosen);
  }

  lemma SizeOfSubset<K>(a: set<K>, b: set<K>)
    requires a <= b
    ensures |a| <= |b|
    ensures |a| == |b| ==> a == b
  {
    assert b == a + (b - a);
  }
}

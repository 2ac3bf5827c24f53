/** Sums of a map's values over a finite set of its keys (the running totals of the aggregator). */
module SetSum {

  /** The sum of `f[x]` over the keys `x` in `S`, in no particular order. */
  ghost function Sum(f: map<nat, nat>, S: set<nat>): nat
    requires S <= f.Keys
    decreases S
  {
    if S == {} then 0 else var x :| x in S; f[x] + Sum(f, S - {x})
  }

  /** Any element can be taken out first: the sum does not depend on the order of the terms. */
  lemma {:induction false} SumRemove(f: map<nat, nat>, S: set<nat>, y: nat)
    requires S <= f.Keys && y in S
    ensures Sum(f, S) == f[y] + Sum(f, S - {y})
    decreases |S|
  {
    var x :| x in S && Sum(f, S) == f[x] + Sum(f, S - {x});
    if x != y {
      assert S - {x} - {y} == S - {y} - {x};
      SumRemove(f, S - {x}, y);
      SumRemove(f, S - {y}, x);
    }
  }

  /** Adding one new key adds its value. */
  lemma SumAdd(f: map<nat, nat>, S: set<nat>, y: nat)
    requires S <= f.Keys && y in f && y !in S
    ensures Sum(f, S + {y}) == Sum(f, S) + f[y]
  {
    SumRemove(f, S + {y}, y);
    assert S + {y} - {y} == S;
  }

  /** Two maps that agree on `S` have the same sum over `S`. */
  lemma {:induction false} SumAgree(f1: map<nat, nat>, f2: map<nat, nat>, S: set<nat>)
    requires S <= f1.Keys && S <= f2.Keys
    requires forall x :: x in S ==> f1[x] == f2[x]
    ensures Sum(f1, S) == Sum(f2, S)
    decreases |S|
  {
    if S != {} {
      var x :| x in S;
      SumRemove(f1, S, x);
      SumRemove(f2, S, x);
      SumAgree(f1, f2, S - {x});
    }
  }

  /** A sum of zeros is zero. */
  lemma {:induction false} SumZero(f: map<nat, nat>, S: set<nat>)
    requires S <= f.Keys
    requires forall x :: x in S ==> f[x] == 0
    ensures Sum(f, S) == 0
    decreases |S|
  {
    if S != {} {
      var x :| x in S;
      SumRemove(f, S, x);
      SumZero(f, S - {x});
    }
  }

  /** A pointwise smaller map has a smaller sum. */
  lemma {:induction false} SumMonotone(f1: map<nat, nat>, f2: map<nat, nat>, S: set<nat>)
    requires S <= f1.Keys && S <= f2.Keys
    requires forall x :: x in S ==> f1[x] <= f2[x]
    ensures Sum(f1, S) <= Sum(f2, S)
    decreases |S|
  {
    if S != {} {
      var x :| x in S;
      SumRemove(f1, S, x);
      SumRemove(f2, S, x);
      SumMonotone(f1, f2, S - {x});
    }
  }

  /** When every term is at least one, the sum is at least the number of terms. */
  lemma {:induction false} SumAtLeastCount(f: map<nat, nat>, S: set<nat>)
    requires S <= f.Keys
    requires forall x :: x in S ==> f[x] >= 1
    ensures Sum(f, S) >= |S|
    decreases |S|
  {
    if S != {} {
      var x :| x in S;
      SumRemove(f, S, x);
      SumAtLeastCount(f, S - {x});
    }
  }
}

/**
 `selectableLanguages.sort((a, b) => a.weight - b.weight)`: a stable ascending
 sort of the candidates by weight. `SortByWeight` is the reference result,
 built by inserting each candidate after every candidate the comparator does
 not place after it; `SortAscending` performs that insertion sort in place on
 an array. Any stable ascending sort gives the same sequence
 (`SortedStableIsUnique`), so the result does not depend on which stable
 algorithm the engine uses.
 */
module WeightSort {
  import opened JsNumbers
  import opened Candidates

  /** The comparator leaves `a` before `b`: `a.weight - b.weight` is not positive. */
  predicate InOrder(a: Candidate, b: Candidate)
  {
    ComparesAtMost(a.weight, b.weight)
  }

  predicate IsSortedByWeight(s: seq<Candidate>)
  {
    forall i, j {:trigger InOrder(s[i], s[j])} :: 0 <= i < j < |s| ==> InOrder(s[i], s[j])
  }

  lemma InOrderReflexive(a: Candidate)
    ensures InOrder(a, a)
  {
  }

  lemma InOrderTotal(a: Candidate, b: Candidate)
    ensures InOrder(a, b) || InOrder(b, a)
  {
  }

  lemma InOrderTransitive(a: Candidate, b: Candidate, c: Candidate)
    requires InOrder(a, b) && InOrder(b, c)
    ensures InOrder(a, c)
  {
  }

  lemma InOrderAntisymmetric(a: Candidate, b: Candidate)
    requires InOrder(a, b) && InOrder(b, a)
    ensures a.weight == b.weight
  {
  }

  /** The candidates of `s` whose weight is `w`, in their order in `s`. */
  function WithWeight(s: seq<Candidate>, w: Number): seq<Candidate>
  {
    if s == [] then []
    else
      var last := s[|s| - 1];
      WithWeight(s[..|s| - 1], w) + (if last.weight == w then [last] else [])
  }

  /** `WithWeight` keeps exactly the candidates of weight `w`. */
  lemma {:induction false} WithWeightMembers(s: seq<Candidate>, w: Number, c: Candidate)
    ensures c in WithWeight(s, w) <==> c in s && c.weight == w
  {
    if s != [] {
      var n := |s| - 1;
      WithWeightMembers(s[..n], w, c);
      assert s == s[..n] + [s[n]];
    }
  }

  /** Whether `t` keeps the order `s` gives to candidates of equal weight. */
  ghost predicate SameOrderAmongEqualWeights(s: seq<Candidate>, t: seq<Candidate>)
  {
    forall w :: WithWeight(s, w) == WithWeight(t, w)
  }

  /**
   `x` placed into `s` from the back: it passes over every candidate that the
   comparator places strictly after it, and stops at the first one that it does
   not.
   */
  function Insert(s: seq<Candidate>, x: Candidate): (r: seq<Candidate>)
    ensures |r| == |s| + 1
  {
    if s == [] || InOrder(s[|s| - 1], x) then s + [x]
    else Insert(s[..|s| - 1], x) + [s[|s| - 1]]
  }

  /** The candidates sorted ascending by weight, equal weights keeping their order. */
  function SortByWeight(s: seq<Candidate>): (r: seq<Candidate>)
    ensures |r| == |s|
  {
    if s == [] then []
    else Insert(SortByWeight(s[..|s| - 1]), s[|s| - 1])
  }

  /** `Insert` adds `x` and loses nothing. */
  lemma {:induction false} InsertPermutation(s: seq<Candidate>, x: Candidate)
    ensures multiset(Insert(s, x)) == multiset(s) + multiset{x}
  {
    if s != [] && !InOrder(s[|s| - 1], x) {
      var n := |s| - 1;
      InsertPermutation(s[..n], x);
      assert s == s[..n] + [s[n]];
    }
  }

  /** `SortByWeight` is a permutation of its input. */
  lemma {:induction false} SortByWeightPermutation(s: seq<Candidate>)
    ensures multiset(SortByWeight(s)) == multiset(s)
  {
    if s != [] {
      var n := |s| - 1;
      SortByWeightPermutation(s[..n]);
      InsertPermutation(SortByWeight(s[..n]), s[n]);
      assert s == s[..n] + [s[n]];
    }
  }

  lemma WithWeightAppend(s: seq<Candidate>, t: seq<Candidate>, w: Number)
    ensures WithWeight(s + t, w) == WithWeight(s, w) + WithWeight(t, w)
    decreases |t|
  {
    if t != [] {
      var n := |t| - 1;
      assert (s + t)[..|s + t| - 1] == s + t[..n];
      assert (s + t)[|s + t| - 1] == t[n];
      WithWeightAppend(s, t[..n], w);
    } else {
      assert s + t == s;
    }
  }

  /** Appending a candidate at least as heavy as every other keeps a sequence sorted. */
  lemma AppendGreatest(u: seq<Candidate>, y: Candidate)
    requires IsSortedByWeight(u)
    requires forall c :: c in u ==> InOrder(c, y)
    ensures IsSortedByWeight(u + [y])
  {
    var v := u + [y];
    forall i, j | 0 <= i < j < |v|
      ensures InOrder(v[i], v[j])
    {
      assert v[i] == u[i] && u[i] in u;
    }
  }

  /** Inserting into a sorted sequence keeps it sorted. */
  lemma {:induction false} InsertSorted(s: seq<Candidate>, x: Candidate)
    requires IsSortedByWeight(s)
    ensures IsSortedByWeight(Insert(s, x))
  {
    if s == [] || InOrder(s[|s| - 1], x) {
      forall c | c in s
        ensures InOrder(c, x)
      {
        var i :| 0 <= i < |s| && s[i] == c;
        if i < |s| - 1 {
          InOrderTransitive(c, s[|s| - 1], x);
        }
      }
      AppendGreatest(s, x);
    } else {
      var n := |s| - 1;
      var u := Insert(s[..n], x);
      InsertSorted(s[..n], x);
      InsertPermutation(s[..n], x);
      forall c | c in u
        ensures InOrder(c, s[n])
      {
        assert c in multiset(u);
        if c == x {
          InOrderTotal(x, s[n]);
        } else {
          assert c in multiset(s[..n]);
          var i :| 0 <= i < n && s[..n][i] == c;
          assert s[i] == c;
        }
      }
      AppendGreatest(u, s[n]);
    }
  }

  lemma WithWeightSingle(c: Candidate, w: Number)
    ensures WithWeight([c], w) == if c.weight == w then [c] else []
  {
    assert [c][..0] == [];
  }

  /** Appending `last` after `x` or before it makes no difference to the filter when their weights differ. */
  lemma WithWeightSwapLast(a: seq<Candidate>, ia: seq<Candidate>, x: Candidate, last: Candidate, w: Number)
    requires last.weight != x.weight
    requires WithWeight(ia, w) == WithWeight(a, w) + (if x.weight == w then [x] else [])
    ensures WithWeight(ia + [last], w) == WithWeight(a + [last], w) + (if x.weight == w then [x] else [])
  {
    WithWeightAppend(ia, [last], w);
    WithWeightAppend(a, [last], w);
    WithWeightSingle(last, w);
  }

  /** Inserting `x` adds it after every candidate of equal weight already there. */
  lemma {:induction false} InsertStable(s: seq<Candidate>, x: Candidate, w: Number)
    ensures WithWeight(Insert(s, x), w) == WithWeight(s, w) + (if x.weight == w then [x] else [])
  {
    if s == [] || InOrder(s[|s| - 1], x) {
      WithWeightAppend(s, [x], w);
      WithWeightSingle(x, w);
    } else {
      var n := |s| - 1;
      var last := s[n];
      InOrderReflexive(x);
      InsertStable(s[..n], x, w);
      assert Insert(s, x) == Insert(s[..n], x) + [last];
      assert s == s[..n] + [last];
      WithWeightSwapLast(s[..n], Insert(s[..n], x), x, last, w);
    }
  }

  /** `SortByWeight` sorts ascending by weight. */
  lemma {:induction false} SortByWeightSorted(s: seq<Candidate>)
    ensures IsSortedByWeight(SortByWeight(s))
  {
    if s != [] {
      SortByWeightSorted(s[..|s| - 1]);
      InsertSorted(SortByWeight(s[..|s| - 1]), s[|s| - 1]);
    }
  }

  /** `SortByWeight` is stable: candidates of equal weight keep their relative order. */
  lemma {:induction false} SortByWeightStable(s: seq<Candidate>)
    ensures SameOrderAmongEqualWeights(s, SortByWeight(s))
  {
    forall w
      ensures WithWeight(s, w) == WithWeight(SortByWeight(s), w)
    {
      SortByWeightStableAt(s, w);
    }
  }

  lemma {:induction false} SortByWeightStableAt(s: seq<Candidate>, w: Number)
    ensures WithWeight(s, w) == WithWeight(SortByWeight(s), w)
  {
    if s != [] {
      var n := |s| - 1;
      SortByWeightStableAt(s[..n], w);
      InsertStable(SortByWeight(s[..n]), s[n], w);
    }
  }

  /** In a sorted sequence the last candidate is at least every other. */
  lemma LastIsGreatest(t: seq<Candidate>, c: Candidate)
    requires IsSortedByWeight(t) && c in t
    ensures InOrder(c, t[|t| - 1])
  {
    ComparesAtMostIsTotalOrder();
    var i :| 0 <= i < |t| && t[i] == c;
  }

  lemma SortedPrefix(s: seq<Candidate>, n: nat)
    requires IsSortedByWeight(s) && n <= |s|
    ensures IsSortedByWeight(s[..n])
  {
    assert forall i :: 0 <= i < n ==> s[..n][i] == s[i];
  }

  lemma DropCommonSuffix(a: seq<Candidate>, b: seq<Candidate>, c: seq<Candidate>)
    requires a + c == b + c
    ensures a == b
  {
    assert a == (a + c)[..|a|];
    assert b == (b + c)[..|b|];
  }

  /** Filtering `s + [c]` is filtering `s`, then `c` when its weight is `w`. */
  lemma WithWeightLast(s: seq<Candidate>, c: Candidate, w: Number)
    ensures WithWeight(s + [c], w) == WithWeight(s, w) + (if c.weight == w then [c] else [])
  {
    assert (s + [c])[..|s|] == s;
  }

  /**
   Two sorted sequences that agree on the order of each weight's candidates are
   equal: there is exactly one stable ascending sort of a sequence.
   */
  lemma {:induction false} SortedStableIsUnique(a: seq<Candidate>, b: seq<Candidate>)
    requires IsSortedByWeight(a) && IsSortedByWeight(b)
    requires SameOrderAmongEqualWeights(a, b)
    ensures a == b
    decreases |a|
  {
    if a == [] {
      if b != [] {
        WithWeightMembers(b, b[0].weight, b[0]);
        assert false;
      }
    } else if b == [] {
      WithWeightMembers(a, a[0].weight, a[0]);
      assert false;
    } else {
      var n, m := |a| - 1, |b| - 1;
      var a', b' := a[..n], b[..m];
      var x, y := a[n], b[m];
      assert a == a' + [x] && b == b' + [y];
      WithWeightMembers(a, x.weight, x);
      WithWeightMembers(b, x.weight, x);
      LastIsGreatest(b, x);
      WithWeightMembers(b, y.weight, y);
      WithWeightMembers(a, y.weight, y);
      LastIsGreatest(a, y);
      InOrderAntisymmetric(x, y);
      WithWeightLast(a', x, x.weight);
      WithWeightLast(b', y, x.weight);
      assert WithWeight(a, x.weight) == WithWeight(b, x.weight);
      assert x == WithWeight(a, x.weight)[|WithWeight(a, x.weight)| - 1];
      forall w
        ensures WithWeight(a', w) == WithWeight(b', w)
      {
        WithWeightLast(a', x, w);
        WithWeightLast(b', x, w);
        assert WithWeight(a, w) == WithWeight(b, w);
        DropCommonSuffix(WithWeight(a', w), WithWeight(b', w), if x.weight == w then [x] else []);
      }
      SortedPrefix(a, n);
      SortedPrefix(b, m);
      SortedStableIsUnique(a', b');
    }
  }

  /** Every stable ascending sort of `s` is `SortByWeight(s)`. */
  lemma SortByWeightIsTheStableSort(s: seq<Candidate>, t: seq<Candidate>)
    requires IsSortedByWeight(t) && SameOrderAmongEqualWeights(s, t)
    ensures t == SortByWeight(s)
  {
    SortByWeightSorted(s);
    SortByWeightStable(s);
    SortedStableIsUnique(t, SortByWeight(s));
  }

  /**
   `s[k]` is a candidate of greatest weight, and every candidate after it has a
   strictly smaller weight: the latest of the heaviest.
   */
  predicate IsLatestMaximum(s: seq<Candidate>, k: int)
  {
    && 0 <= k < |s|
    && (forall j {:trigger InOrder(s[j], s[k])} :: 0 <= j < |s| ==> InOrder(s[j], s[k]))
    && (forall j {:trigger InOrder(s[k], s[j])} :: k < j < |s| ==> !InOrder(s[k], s[j]))
  }

  /** At most one position is the latest of the heaviest. */
  lemma LatestMaximumIsUnique(s: seq<Candidate>, k: int, l: int)
    requires IsLatestMaximum(s, k) && IsLatestMaximum(s, l)
    ensures k == l
  {
    assert InOrder(s[k], s[l]) && InOrder(s[l], s[k]);
  }

  /** `SortByWeight(s + [x])` inserts `x` into `SortByWeight(s)`. */
  lemma SortByWeightSnoc(s: seq<Candidate>, x: Candidate)
    ensures SortByWeight(s + [x]) == Insert(SortByWeight(s), x)
  {
    assert (s + [x])[..|s|] == s;
  }

  /**
   The latest maximum of a subsequence `sel` of `all`, taken at increasing
   positions `kept`, is also the latest maximum among those positions of `all`.
   */
  lemma LatestMaximumAtPositions(sel: seq<Candidate>, all: seq<Candidate>, kept: seq<nat>, k: nat)
    requires |sel| == |kept|
    requires forall l :: 0 <= l < |kept| ==> kept[l] < |all| && sel[l] == all[kept[l]]
    requires forall l, m :: 0 <= l < m < |kept| ==> kept[l] < kept[m]
    requires IsLatestMaximum(sel, k)
    ensures forall j :: j in kept ==> InOrder(all[j], all[kept[k]])
    ensures forall j :: j in kept && kept[k] < j ==> !InOrder(all[kept[k]], all[j])
  {
    forall j | j in kept
      ensures InOrder(all[j], all[kept[k]])
    {
      var l :| 0 <= l < |kept| && kept[l] == j;
      assert InOrder(sel[l], sel[k]);
    }
    forall j | j in kept && kept[k] < j
      ensures !InOrder(all[kept[k]], all[j])
    {
      var l :| 0 <= l < |kept| && kept[l] == j;
      assert k < l;
      assert !InOrder(sel[k], sel[l]);
    }
  }

  /** The last candidate after an insertion: `x`, unless the old last one is placed after it. */
  lemma InsertLast(t: seq<Candidate>, x: Candidate)
    ensures Insert(t, x)[|t|] == if t == [] || InOrder(t[|t| - 1], x) then x else t[|t| - 1]
  {
  }

  /** When the new candidate is at least the old maximum, it is the latest maximum. */
  lemma LatestMaximumNew(s: seq<Candidate>, k: nat, x: Candidate)
    requires IsLatestMaximum(s, k) && InOrder(s[k], x)
    ensures IsLatestMaximum(s + [x], |s|)
  {
    var s' := s + [x];
    forall j | 0 <= j < |s'|
      ensures InOrder(s'[j], x)
    {
      if j < |s| {
        InOrderTransitive(s[j], s[k], x);
      } else {
        InOrderReflexive(x);
      }
    }
  }

  /** When the new candidate is strictly below the old maximum, the latest maximum stays. */
  lemma LatestMaximumOld(s: seq<Candidate>, k: nat, x: Candidate)
    requires IsLatestMaximum(s, k) && !InOrder(s[k], x)
    ensures IsLatestMaximum(s + [x], k)
  {
    InOrderTotal(s[k], x);
    assert forall j :: 0 <= j < |s| ==> (s + [x])[j] == s[j];
  }

  /**
   One step of `LastOfSortByWeight`: if the last of a sorted `t` is the latest
   maximum of `s`, then the last of `Insert(t, x)` is the latest maximum of
   `s + [x]`.
   */
  lemma LastOfInsert(s: seq<Candidate>, t: seq<Candidate>, x: Candidate, k: nat) returns (k': nat)
    requires |t| == |s| > 0 && IsLatestMaximum(s, k) && t[|t| - 1] == s[k]
    ensures IsLatestMaximum(s + [x], k')
    ensures Insert(t, x)[|t|] == (s + [x])[k']
  {
    InsertLast(t, x);
    if InOrder(t[|t| - 1], x) {
      k' := |s|;
      LatestMaximumNew(s, k, x);
    } else {
      k' := k;
      LatestMaximumOld(s, k, x);
    }
  }

  /**
   The last candidate of the sorted sequence, the one `pop` takes, is the latest
   candidate of greatest weight in the input.
   */
  lemma {:induction false} LastOfSortByWeight(s: seq<Candidate>) returns (k: nat)
    requires s != []
    ensures IsLatestMaximum(s, k)
    ensures |SortByWeight(s)| == |s| && SortByWeight(s)[|s| - 1] == s[k]
  {
    var n := |s| - 1;
    var s', x := s[..n], s[n];
    assert s == s' + [x];
    SortByWeightSnoc(s', x);
    if n == 0 {
      k := 0;
      InOrderReflexive(x);
    } else {
      var k' := LastOfSortByWeight(s');
      k := LastOfInsert(s', SortByWeight(s'), x, k');
    }
  }

  /**
   Where `Insert` puts `x`: after position `j` when the candidate before `j`
   is not placed after `x` and every candidate from `j` on is.
   */
  lemma {:induction false} InsertAt(sorted: seq<Candidate>, x: Candidate, j: nat)
    requires j <= |sorted|
    requires j == 0 || InOrder(sorted[j - 1], x)
    requires forall k {:trigger InOrder(sorted[k], x)} :: j <= k < |sorted| ==> !InOrder(sorted[k], x)
    ensures Insert(sorted, x) == sorted[..j] + [x] + sorted[j..]
    decreases |sorted|
  {
    if j == |sorted| {
      assert sorted[..j] == sorted && sorted[j..] == [];
      assert Insert(sorted, x) == sorted + [x];
    } else {
      var n := |sorted| - 1;
      var init := sorted[..n];
      assert !InOrder(sorted[n], x);
      assert Insert(sorted, x) == Insert(init, x) + [sorted[n]];
      assert forall k :: j <= k < |init| ==> init[k] == sorted[k];
      InsertAt(init, x, j);
      assert init[..j] == sorted[..j];
      assert init[j..] + [sorted[n]] == sorted[j..];
    }
  }

  /**
   The array contents after the shifting loop and the final store: the prefix
   up to `i` is `input[i]` inserted into `input[..i]`, and the rest is unchanged.
   */
  lemma ShiftedIsInserted(input: seq<Candidate>, r: seq<Candidate>, i: nat, j: nat)
    requires |r| == |input| && j <= i < |input|
    requires j == 0 || InOrder(input[j - 1], input[i])
    requires forall k {:trigger InOrder(input[k], input[i])} :: j <= k < i ==> !InOrder(input[k], input[i])
    requires forall k :: 0 <= k < j ==> r[k] == input[k]
    requires r[j] == input[i]
    requires forall k :: j < k <= i ==> r[k] == input[k - 1]
    requires forall k :: i < k < |r| ==> r[k] == input[k]
    ensures r[..i + 1] == Insert(input[..i], input[i])
    ensures r[i + 1..] == input[i + 1..]
  {
    var sorted := input[..i];
    InsertAt(sorted, input[i], j);
    assert r[..i + 1] == sorted[..j] + [input[i]] + sorted[j..];
  }

  lemma SortByWeightStep(s: seq<Candidate>, i: nat)
    requires i < |s|
    ensures SortByWeight(s[..i + 1]) == Insert(SortByWeight(s[..i]), s[i])
  {
    assert s[..i + 1][..i] == s[..i];
  }

  /**
   Moves `a[i]` left past the elements before it that the comparator places
   strictly after it, shifting each of them one place to the right.
   */
  method InsertInPlace(a: array<Candidate>, i: nat)
    requires i < a.Length
    modifies a
    ensures a[..i + 1] == Insert(old(a[..i]), old(a[i]))
    ensures a[i + 1..] == old(a[i + 1..])
  {
    ghost var input := a[..];
    var x := a[i];
    var j := i;
    while j > 0 && !InOrder(a[j - 1], x)
      invariant 0 <= j <= i
      invariant forall k :: 0 <= k < j ==> a[k] == input[k]
      invariant forall k :: j < k <= i ==> a[k] == input[k - 1]
      invariant forall k :: i < k < a.Length ==> a[k] == input[k]
      invariant forall k {:trigger InOrder(input[k], x)} :: j <= k < i ==> !InOrder(input[k], x)
    {
      a[j] := a[j - 1];
      j := j - 1;
    }
    a[j] := x;
    ShiftedIsInserted(input, a[..], i, j);
  }

  /**
   Sorts `a` in place, ascending by weight and stable: each element in turn is
   inserted into the sorted prefix before it.
   */
  method SortAscending(a: array<Candidate>)
    modifies a
    ensures a[..] == SortByWeight(old(a[..]))
  {
    ghost var input := a[..];
    for i := 0 to a.Length
      invariant a[..i] == SortByWeight(input[..i])
      invariant a[i..] == input[i..]
    {
      assert a[i + 1..] == a[i..][1..] && input[i + 1..] == input[i..][1..];
      InsertInPlace(a, i);
      SortByWeightStep(input, i);
    }
    assert input[..a.Length] == input;
  }

}

/** Plain sequence semantics of the few data-frame operations the ticket page
    uses: element-wise comparison masks (`isin`, `==`), their conjunction (`&`),
    boolean-mask row selection (`df[mask]`) and `unique()`, which lists the
    distinct values of a column in the order they are first seen. */
module Frame {

  // ---------------------------------------------------------------------------
  // Masks
  // ---------------------------------------------------------------------------

  /** `col.isin(values)`: true exactly where the entry is one of `values`. */
  function IsIn<T(==)>(col: seq<T>, values: seq<T>): seq<bool>
  {
    seq(|col|, i requires 0 <= i < |col| => col[i] in values)
  }

  /** `col == v`: true exactly where the entry equals `v`. */
  function EqualTo<T(==)>(col: seq<T>, v: T): seq<bool>
  {
    seq(|col|, i requires 0 <= i < |col| => col[i] == v)
  }

  /** `a & b` on two masks of the same length. */
  function And(a: seq<bool>, b: seq<bool>): seq<bool>
    requires |a| == |b|
  {
    seq(|a|, i requires 0 <= i < |a| => a[i] && b[i])
  }

  // ---------------------------------------------------------------------------
  // Boolean-mask selection
  // ---------------------------------------------------------------------------

  /** `t[m]`: the rows whose mask entry is true, in their original order. */
  function Select<T>(t: seq<T>, m: seq<bool>): seq<T>
    requires |t| == |m|
  {
    if |t| == 0 then []
    else Select(t[..|t| - 1], m[..|m| - 1]) + (if m[|m| - 1] then [t[|t| - 1]] else [])
  }

  /** The positions where `m` is true, ascending. */
  function KeptIndices(m: seq<bool>): (idx: seq<nat>)
    ensures forall k :: 0 <= k < |idx| ==> idx[k] < |m| && m[idx[k]]
    ensures forall k, l :: 0 <= k < l < |idx| ==> idx[k] < idx[l]
    ensures forall i :: 0 <= i < |m| && m[i] ==> i in idx
  {
    if |m| == 0 then []
    else KeptIndices(m[..|m| - 1]) + (if m[|m| - 1] then [|m| - 1] else [])
  }

  /** `r` is `t` restricted to the strictly increasing positions `idx`. */
  ghost predicate SubsequenceAt<T>(r: seq<T>, t: seq<T>, idx: seq<nat>)
  {
    && |idx| == |r|
    && (forall k :: 0 <= k < |idx| ==> idx[k] < |t| && r[k] == t[idx[k]])
    && (forall k, l :: 0 <= k < l < |idx| ==> idx[k] < idx[l])
  }

  /** `r` keeps some of the entries of `t`, in their relative order, and adds none. */
  ghost predicate IsSubsequence<T>(r: seq<T>, t: seq<T>)
  {
    exists idx :: SubsequenceAt(r, t, idx)
  }

  /** Selection keeps exactly the rows at the true positions of the mask, in order. */
  lemma {:induction false} SelectAt<T>(t: seq<T>, m: seq<bool>)
    requires |t| == |m|
    ensures SubsequenceAt(Select(t, m), t, KeptIndices(m))
  {
    if |t| > 0 {
      var n := |t| - 1;
      SelectAt(t[..n], m[..n]);
      var r0, idx0 := Select(t[..n], m[..n]), KeptIndices(m[..n]);
      var r, idx := Select(t, m), KeptIndices(m);
      assert r == r0 + (if m[n] then [t[n]] else []);
      assert idx == idx0 + (if m[n] then [n] else []);
      forall k | 0 <= k < |idx|
        ensures idx[k] < |t| && r[k] == t[idx[k]]
      {
        if k < |idx0| {
          assert r[k] == r0[k] == t[..n][idx0[k]];
        }
      }
    }
  }

  /** A row is selected iff it sits at a position where the mask is true. */
  lemma SelectMembership<T>(t: seq<T>, m: seq<bool>, x: T)
    requires |t| == |m|
    ensures x in Select(t, m) <==> exists i :: 0 <= i < |t| && m[i] && t[i] == x
  {
    SelectAt(t, m);
    var r, idx := Select(t, m), KeptIndices(m);
    if x in r {
      var k :| 0 <= k < |r| && r[k] == x;
      assert m[idx[k]] && t[idx[k]] == x;
    }
    if i :| 0 <= i < |t| && m[i] && t[i] == x {
      var k :| 0 <= k < |idx| && idx[k] == i;
      assert r[k] == x;
    }
  }

  /** The selection has as many rows as the mask has true entries. */
  lemma {:induction false} SelectLength<T>(t: seq<T>, m: seq<bool>)
    requires |t| == |m|
    ensures |Select(t, m)| == multiset(m)[true]
  {
    if |t| > 0 {
      var n := |t| - 1;
      SelectLength(t[..n], m[..n]);
      assert m == m[..n] + [m[n]];
      assert multiset(m) == multiset(m[..n]) + multiset{m[n]};
    }
  }

  /** An all-true mask keeps the whole table. */
  lemma {:induction false} SelectAllTrue<T>(t: seq<T>, m: seq<bool>)
    requires |t| == |m|
    requires forall i :: 0 <= i < |m| ==> m[i]
    ensures Select(t, m) == t
  {
    if |t| > 0 {
      var n := |t| - 1;
      SelectAllTrue(t[..n], m[..n]);
      assert t == t[..n] + [t[n]];
    }
  }

  /** An all-false mask keeps nothing. */
  lemma {:induction false} SelectAllFalse<T>(t: seq<T>, m: seq<bool>)
    requires |t| == |m|
    requires forall i :: 0 <= i < |m| ==> !m[i]
    ensures Select(t, m) == []
  {
    if |t| > 0 {
      var n := |t| - 1;
      SelectAllFalse(t[..n], m[..n]);
    }
  }

  /** Two masks that are never true at the same position select at most
      `|t|` rows between them. */
  lemma {:induction false} SelectDisjointBound<T>(t: seq<T>, m1: seq<bool>, m2: seq<bool>)
    requires |t| == |m1| == |m2|
    requires forall i :: 0 <= i < |t| ==> !(m1[i] && m2[i])
    ensures |Select(t, m1)| + |Select(t, m2)| <= |t|
  {
    if |t| > 0 {
      var n := |t| - 1;
      SelectDisjointBound(t[..n], m1[..n], m2[..n]);
    }
  }

  /** Selecting with `col == v` from a column counts the occurrences of `v`. */
  lemma {:induction false} CountEqual<T>(col: seq<T>, v: T)
    ensures |Select(col, EqualTo(col, v))| == multiset(col)[v]
  {
    if |col| > 0 {
      var n := |col| - 1;
      var init := col[..n];
      CountEqual(init, v);
      assert EqualTo(col, v)[..n] == EqualTo(init, v);
      assert col == init + [col[n]];
      assert multiset(col) == multiset(init) + multiset{col[n]};
    }
  }

  // ---------------------------------------------------------------------------
  // Distinct values in first-seen order
  // ---------------------------------------------------------------------------

  /** The position of the first occurrence of `x` in `xs`. */
  function FirstIndex<T(==)>(xs: seq<T>, x: T): (i: nat)
    requires x in xs
    ensures i < |xs| && xs[i] == x && x !in xs[..i]
  {
    var init := xs[..|xs| - 1];
    assert xs == init + [xs[|xs| - 1]];
    if x in init then
      var i := FirstIndex(init, x);
      assert xs[..i] == init[..i];
      i
    else
      |xs| - 1
  }

  ghost predicate NoDuplicates<T>(s: seq<T>)
  {
    forall i, j :: 0 <= i < j < |s| ==> s[i] != s[j]
  }

  /** `r` lists every value of `xs` once, ordered by where each is first seen. */
  ghost predicate IsDistinctInFirstSeenOrder<T>(r: seq<T>, xs: seq<T>)
  {
    && (forall i :: 0 <= i < |r| ==> r[i] in xs)
    && (forall j :: 0 <= j < |xs| ==> xs[j] in r)
    && NoDuplicates(r)
    && forall i, j :: 0 <= i < j < |r| ==>
         r[i] in xs && r[j] in xs && FirstIndex(xs, r[i]) < FirstIndex(xs, r[j])
  }

  /** Appending a value does not move the first occurrence of an earlier one. */
  lemma FirstIndexAppend<T>(xs: seq<T>, y: T, x: T)
    requires y in xs
    ensures FirstIndex(xs + [x], y) == FirstIndex(xs, y)
  {
    assert (xs + [x])[..|xs|] == xs;
  }

  /** Every value of the prefix is first seen where it was first seen in the prefix. */
  lemma PrefixListing<T>(xs: seq<T>, u: seq<T>)
    requires |xs| > 0
    requires forall i :: 0 <= i < |u| ==> u[i] in xs[..|xs| - 1]
    ensures forall i :: 0 <= i < |u| ==>
      u[i] in xs && FirstIndex(xs, u[i]) == FirstIndex(xs[..|xs| - 1], u[i])
  {
    var init, last := xs[..|xs| - 1], xs[|xs| - 1];
    assert xs == init + [last];
    forall i | 0 <= i < |u| ensures u[i] in xs && FirstIndex(xs, u[i]) == FirstIndex(init, u[i]) {
      FirstIndexAppend(init, u[i], last);
    }
  }

  /** One step of `unique()`: a value already listed adds nothing. */
  lemma UniqueStepSeen<T>(xs: seq<T>, u: seq<T>)
    requires |xs| > 0 && xs[|xs| - 1] in u
    requires IsDistinctInFirstSeenOrder(u, xs[..|xs| - 1])
    ensures IsDistinctInFirstSeenOrder(u, xs)
  {
    var init := xs[..|xs| - 1];
    PrefixListing(xs, u);
    forall j | 0 <= j < |xs| ensures xs[j] in u {
      if j < |init| { assert xs[j] == init[j]; }
    }
  }

  /** One step of `unique()`: a value seen for the first time goes at the end. */
  lemma UniqueStepNew<T>(xs: seq<T>, u: seq<T>)
    requires |xs| > 0 && xs[|xs| - 1] !in u
    requires IsDistinctInFirstSeenOrder(u, xs[..|xs| - 1])
    ensures IsDistinctInFirstSeenOrder(u + [xs[|xs| - 1]], xs)
  {
    var init, last := xs[..|xs| - 1], xs[|xs| - 1];
    var r := u + [last];
    PrefixListing(xs, u);
    assert last !in init;
    assert FirstIndex(xs, last) == |init|;
    forall i | 0 <= i < |r| ensures r[i] in xs {
      if i < |u| { assert r[i] == u[i]; }
    }
    forall j | 0 <= j < |xs| ensures xs[j] in r {
      if j < |init| { assert xs[j] == init[j]; }
    }
    forall i, j | 0 <= i < j < |r|
      ensures r[i] != r[j] && FirstIndex(xs, r[i]) < FirstIndex(xs, r[j])
    {
      assert r[i] == u[i];
      if j < |u| { assert r[j] == u[j]; }
    }
  }

  /** `unique()`: the distinct values of `xs` in first-seen order. */
  function Unique<T(==)>(xs: seq<T>): (r: seq<T>)
    ensures IsDistinctInFirstSeenOrder(r, xs)
  {
    if |xs| == 0 then []
    else
      var init, last := xs[..|xs| - 1], xs[|xs| - 1];
      var u := Unique(init);
      if last in u then
        UniqueStepSeen(xs, u);
        u
      else
        UniqueStepNew(xs, u);
        u + [last]
  }

  /** A value first seen at the end of `xs` is listed last. */
  lemma NewValueComesLast<T>(xs: seq<T>, r: seq<T>)
    requires |xs| > 0 && xs[|xs| - 1] !in xs[..|xs| - 1]
    requires IsDistinctInFirstSeenOrder(r, xs)
    ensures |r| > 0 && r[|r| - 1] == xs[|xs| - 1]
  {
    var last := xs[|xs| - 1];
    assert FirstIndex(xs, last) == |xs| - 1;
    assert last in r;
    var p :| 0 <= p < |r| && r[p] == last;
    var q := |r| - 1;
    assert r[q] in xs && FirstIndex(xs, r[q]) < |xs|;
    assert p == q;
  }

  /** Dropping the last value of `xs` from a first-seen listing of `xs`. */
  lemma DistinctDropLast<T>(xs: seq<T>, r: seq<T>)
    requires |xs| > 0
    requires IsDistinctInFirstSeenOrder(r, xs)
    ensures var init, last := xs[..|xs| - 1], xs[|xs| - 1];
      if last in init then IsDistinctInFirstSeenOrder(r, init)
      else |r| > 0 && r[|r| - 1] == last && IsDistinctInFirstSeenOrder(r[..|r| - 1], init)
  {
    var init, last := xs[..|xs| - 1], xs[|xs| - 1];
    assert xs == init + [last];
    forall y | y in init ensures FirstIndex(xs, y) == FirstIndex(init, y) {
      FirstIndexAppend(init, y, last);
    }
    if last in init {
      forall i | 0 <= i < |r| ensures r[i] in init {
        assert r[i] in xs;
      }
    } else {
      NewValueComesLast(xs, r);
      var n := |r| - 1;
      var r' := r[..n];
      forall i | 0 <= i < |r'| ensures r'[i] in init && FirstIndex(xs, r'[i]) == FirstIndex(init, r'[i]) {
        assert r'[i] == r[i] && r[i] != r[n] && r[i] in xs;
      }
      forall j | 0 <= j < |init| ensures init[j] in r' {
        assert xs[j] == init[j] && init[j] in r && init[j] != last;
        var q :| 0 <= q < |r| && r[q] == init[j];
        assert r'[q] == init[j];
      }
    }
  }

  /** A non-empty listing of values of `xs` needs `xs` to have values. */
  lemma ListingNeedsValues<T>(xs: seq<T>, r: seq<T>)
    requires forall i :: 0 <= i < |r| ==> r[i] in xs
    ensures |r| > 0 ==> |xs| > 0
  {
    if |r| > 0 {
      assert r[0] in xs;
    }
  }

  /** The first-seen listing is unique, so `Unique` is the only function
      meeting its contract. */
  lemma {:induction false} UniqueIsDetermined<T>(xs: seq<T>, r: seq<T>)
    requires IsDistinctInFirstSeenOrder(r, xs)
    ensures r == Unique(xs)
  {
    if |xs| == 0 {
      ListingNeedsValues(xs, r);
    } else {
      var init, last := xs[..|xs| - 1], xs[|xs| - 1];
      DistinctDropLast(xs, r);
      var u := Unique(init);
      assert last in u <==> last in init by {
        if last in u {
          var i :| 0 <= i < |u| && u[i] == last;
        }
        if last in init {
          var j :| 0 <= j < |init| && init[j] == last;
        }
      }
      if last in init {
        UniqueIsDetermined(init, r);
      } else {
        UniqueIsDetermined(init, r[..|r| - 1]);
        assert r == r[..|r| - 1] + [last];
      }
    }
  }
}

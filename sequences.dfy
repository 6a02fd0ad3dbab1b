/**
 * Generic facts about building a list by appending, element by element,
 * what each input element contributes: the shape of every loop of the
 * metadata scan.
 */
module Sequences {

  /** The concatenation, in order, of what `f` gives for each element of
      `xs` (a loop that appends `f(x)` for every `x`). */
  function Gather<T, U>(xs: seq<T>, f: T -> seq<U>): seq<U>
  {
    if xs == [] then [] else Gather(xs[..|xs| - 1], f) + f(xs[|xs| - 1])
  }

  /** The elements of `xs` that satisfy `p`, in their order. */
  function Filter<T>(xs: seq<T>, p: T -> bool): (r: seq<T>)
    ensures |r| <= |xs|
    ensures forall x | x in r :: x in xs && p(x)
    ensures forall x | x in xs && p(x) :: x in r
    ensures IsSubsequence(r, xs)
  {
    if xs == [] then []
    else
      var init := xs[..|xs| - 1];
      var last := xs[|xs| - 1];
      assert forall x | x in xs :: x in init || x == last;
      var r := Filter(init, p) + (if p(last) then [last] else []);
      assert p(last) ==> r[..|r| - 1] == Filter(init, p) && r[|r| - 1] == last;
      assert !p(last) ==> r == Filter(init, p);
      assert IsSubsequence(Filter(init, p), init);
      r
  }

  /** `a` is `b` with some elements left out, the others in their order. */
  ghost predicate IsSubsequence<T>(a: seq<T>, b: seq<T>)
    decreases |b|
  {
    || a == []
    || (b != [] && a[|a| - 1] == b[|b| - 1] && IsSubsequence(a[..|a| - 1], b[..|b| - 1]))
    || (b != [] && IsSubsequence(a, b[..|b| - 1]))
  }

  /** Concatenation is associative. */
  lemma ConcatAssoc<T>(x: seq<T>, y: seq<T>, z: seq<T>)
    ensures (x + y) + z == x + (y + z)
  {
  }

  /** One more step of the loop behind `Gather`. */
  lemma GatherStep<T, U>(xs: seq<T>, i: nat, f: T -> seq<U>)
    requires i < |xs|
    ensures Gather(xs[..i + 1], f) == Gather(xs[..i], f) + f(xs[i])
  {
    assert xs[..i + 1][..i] == xs[..i];
  }

  /** On one element, `Gather` gives that element's contribution. */
  lemma GatherOne<T, U>(x: T, f: T -> seq<U>)
    ensures Gather([x], f) == f(x)
  {
    assert [x][..0] == [];
    assert Gather([x][..0], f) == [];
  }

  /** `Gather` works element by element: on two blocks it is the result on
      the first followed by the result on the second. */
  lemma {:induction false} GatherAppend<T, U>(xs: seq<T>, ys: seq<T>, f: T -> seq<U>)
    ensures Gather(xs + ys, f) == Gather(xs, f) + Gather(ys, f)
  {
    if ys == [] {
      assert xs + ys == xs;
    } else {
      var front := ys[..|ys| - 1];
      assert (xs + ys)[..|xs + ys| - 1] == xs + front;
      assert (xs + ys)[|xs + ys| - 1] == ys[|ys| - 1];
      GatherAppend(xs, front, f);
      ConcatAssoc(Gather(xs, f), Gather(front, f), f(ys[|ys| - 1]));
    }
  }

  /** What `Gather` collects comes from the contribution of some element. */
  lemma {:induction false} GatherMember<T, U>(xs: seq<T>, f: T -> seq<U>, y: U)
    requires y in Gather(xs, f)
    ensures exists i | 0 <= i < |xs| :: y in f(xs[i])
  {
    var init := xs[..|xs| - 1];
    if y in Gather(init, f) {
      GatherMember(init, f, y);
      var i :| 0 <= i < |init| && y in f(init[i]);
      assert xs[i] == init[i];
    } else {
      assert y in f(xs[|xs| - 1]);
    }
  }

  /** Every element's contribution is collected. */
  lemma {:induction false} GatherCollects<T, U>(xs: seq<T>, f: T -> seq<U>, i: nat, y: U)
    requires i < |xs| && y in f(xs[i])
    ensures y in Gather(xs, f)
  {
    if i < |xs| - 1 {
      GatherCollects(xs[..|xs| - 1], f, i, y);
    }
  }

  /** Filtering works element by element. */
  lemma {:induction false} FilterAppend<T>(xs: seq<T>, ys: seq<T>, p: T -> bool)
    ensures Filter(xs + ys, p) == Filter(xs, p) + Filter(ys, p)
  {
    if ys == [] {
      assert xs + ys == xs;
    } else {
      var front := ys[..|ys| - 1];
      var last := ys[|ys| - 1];
      assert (xs + ys)[..|xs + ys| - 1] == xs + front;
      assert (xs + ys)[|xs + ys| - 1] == last;
      FilterAppend(xs, front, p);
      ConcatAssoc(Filter(xs, p), Filter(front, p), if p(last) then [last] else []);
    }
  }

  /** If `xs[k]` is the first element satisfying both `p` and `q`, then in
      the elements satisfying `p` it stands at position `m`, and none
      before it satisfies `q`. */
  lemma FilterFirst<T>(xs: seq<T>, p: T -> bool, q: T -> bool, k: nat) returns (m: nat)
    requires k < |xs| && p(xs[k]) && q(xs[k])
    requires forall j | 0 <= j < k :: !(p(xs[j]) && q(xs[j]))
    ensures m < |Filter(xs, p)| && Filter(xs, p)[m] == xs[k]
    ensures forall j | 0 <= j < m :: !q(Filter(xs, p)[j])
  {
    var before := Filter(xs[..k], p);
    m := |before|;
    FilterSplitAt(xs, p, k);
    forall j | 0 <= j < m ensures !q(Filter(xs, p)[j]) {
      NotInPrefix(xs, p, q, k, before[j]);
    }
  }

  lemma FilterSplitAt<T>(xs: seq<T>, p: T -> bool, k: nat)
    requires k < |xs| && p(xs[k])
    ensures Filter(xs, p) == Filter(xs[..k], p) + [xs[k]] + Filter(xs[k + 1..], p)
  {
    var upto := xs[..k + 1];
    assert upto[..k] == xs[..k];
    FilterLast(upto, p);
    assert upto + xs[k + 1..] == xs;
    FilterAppend(upto, xs[k + 1..], p);
  }

  /** Filtering a nonempty sequence looks at its last element last. */
  lemma FilterLast<T>(xs: seq<T>, p: T -> bool)
    requires xs != []
    ensures Filter(xs, p) == Filter(xs[..|xs| - 1], p) + if p(xs[|xs| - 1]) then [xs[|xs| - 1]] else []
  {
  }

  lemma NotInPrefix<T>(xs: seq<T>, p: T -> bool, q: T -> bool, k: nat, x: T)
    requires k <= |xs|
    requires forall j | 0 <= j < k :: !(p(xs[j]) && q(xs[j]))
    requires x in Filter(xs[..k], p)
    ensures !q(x)
  {
    assert x in xs[..k] && p(x);
    var i :| 0 <= i < k && xs[..k][i] == x;
    assert xs[i] == x;
  }

  /** What a first-match search decides about one element: pass it by,
      return it, or fail on it. */
  datatype Verdict = Skip | Take | Fail

  /** Where a first-match search stopped: at an element it returns, at an
      element it fails on, or nowhere. */
  datatype Scan = Hit(index: nat) | Raise(index: nat) | Miss

  /** The search, from index `from` on, for the first element of `xs` that
      `v` does not skip (a `for` loop with an early `return` or `raise`). */
  function ScanFrom<T>(xs: seq<T>, v: T -> Verdict, from: nat): (r: Scan)
    requires from <= |xs|
    ensures r.Hit? ==> from <= r.index < |xs| && v(xs[r.index]) == Take
    ensures r.Raise? ==> from <= r.index < |xs| && v(xs[r.index]) == Fail
    ensures !r.Miss? ==> forall j | from <= j < r.index :: v(xs[j]) == Skip
    ensures r.Miss? <==> forall j | from <= j < |xs| :: v(xs[j]) == Skip
    decreases |xs| - from
  {
    if from == |xs| then Miss
    else
      match v(xs[from])
      case Take => Hit(from)
      case Fail => Raise(from)
      case Skip => ScanFrom(xs, v, from + 1)
  }

  /** The search stops at the first element it does not skip. */
  lemma ScanStopsAt<T>(xs: seq<T>, v: T -> Verdict, k: nat)
    requires k < |xs| && v(xs[k]) != Skip
    requires forall j | 0 <= j < k :: v(xs[j]) == Skip
    ensures ScanFrom(xs, v, 0) == if v(xs[k]) == Take then Hit(k) else Raise(k)
  {
  }
}

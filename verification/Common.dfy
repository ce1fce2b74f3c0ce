/** Shared datatypes and the finite-set facts that several modules use. */
module Common {

  datatype Option<+T> = None | Some(value: T)

  /** Some element of a nonempty set. */
  ghost function Choose<A>(xs: set<A>): (x: A)
    requires xs != {}
    ensures x in xs
  {
    var x :| x in xs; x
  }

  /** A set that maps injectively into another set is no larger. */
  lemma {:induction false} InjectionBound<A, B>(xs: set<A>, f: A --> B, ys: set<B>)
    requires forall x | x in xs :: f.requires(x) && f(x) in ys
    requires forall x, x' | x in xs && x' in xs && f(x) == f(x') :: x == x'
    ensures |xs| <= |ys|
    decreases |xs|
  {
    if xs != {} {
      var x :| x in xs;
      InjectionBound(xs - {x}, f, ys - {f(x)});
    }
  }

  lemma {:induction false} SubsetBound<A>(xs: set<A>, ys: set<A>)
    requires xs <= ys
    ensures |xs| <= |ys|
    decreases |xs|
  {
    if xs != {} {
      var x :| x in xs;
      SubsetBound(xs - {x}, ys - {x});
    }
  }

  /** Instants at least `gap` apart, in order. */
  ghost predicate Spaced(starts: seq<int>, gap: int) {
    forall i, j :: 0 <= i < j < |starts| ==> starts[i] + gap <= starts[j]
  }

  lemma {:induction false} SpacedBy(starts: seq<int>, gap: int, i: nat, j: nat)
    requires Spaced(starts, gap) && i <= j < |starts|
    requires gap > 0
    ensures starts[i] + (j - i) * gap <= starts[j] && starts[i] <= starts[j]
    decreases j - i
  {
    if i < j {
      SpacedBy(starts, gap, i, j - 1);
      assert starts[j - 1] + gap <= starts[j];
    }
  }

  lemma SpacedSnoc(starts: seq<int>, gap: int, next: int)
    requires gap >= 0 && Spaced(starts, gap) && (starts != [] ==> starts[|starts| - 1] + gap <= next)
    ensures Spaced(starts + [next], gap)
  {
  }

  /** Instants less than k gaps apart are less than k places apart. */
  lemma GapBound(starts: seq<int>, window: int, i: nat, j: nat, k: nat)
    requires window > 0 && Spaced(starts, window) && i <= j < |starts|
    requires starts[j] - starts[i] < k * window
    ensures j - i < k
  {
    SpacedBy(starts, window, i, j);
    if k <= j - i {
      ProductMonotone(k, j - i, window);
      assert false;
    }
  }

  lemma ProductMonotone(a: int, b: int, w: int)
    requires a <= b && 0 <= w
    ensures a * w <= b * w
  {
  }

  lemma {:induction false} RangeSize(ids: set<int>, lo: int, size: nat)
    requires forall i | i in ids :: lo <= i < lo + size
    ensures |ids| <= size
  {
    if size > 0 {
      RangeSize(ids - {lo + size - 1}, lo, size - 1);
    } else {
      forall i: int ensures i !in ids {}
      assert ids == {};
    }
  }

  lemma {:induction false} RangeHasSize(ids: set<int>, n: nat)
    requires forall i :: i in ids <==> 0 <= i < n
    ensures |ids| == n
    decreases n
  {
    if n > 0 {
      RangeHasSize(ids - {n - 1}, n - 1);
    } else {
      forall i: int ensures i !in ids {}
      assert ids == {};
    }
  }

  /** An interval k gaps long holds at most k of the instants. */
  lemma SpacedCount(starts: seq<int>, gap: int, from: int, k: nat)
    requires gap > 0 && Spaced(starts, gap)
    ensures |set i | 0 <= i < |starts| && from <= starts[i] < from + k * gap| <= k
  {
    var ids := set i | 0 <= i < |starts| && from <= starts[i] < from + k * gap;
    if ids != {} {
      var first := FirstAtOrAfter(starts, from);
      forall i | i in ids
        ensures first <= i < first + k
      {
        GapBound(starts, gap, first, i, k);
      }
      RangeSize(ids, first, k);
    }
  }

  function FirstAtOrAfter(starts: seq<int>, from: int): (n: nat)
    ensures n <= |starts| && (n < |starts| ==> starts[n] >= from)
    ensures forall i :: 0 <= i < n ==> starts[i] < from
  {
    if starts == [] || starts[0] >= from then 0 else 1 + FirstAtOrAfter(starts[1..], from)
  }
}

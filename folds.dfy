/**
 * Left folds over a sequence. The XOR checksum is such a fold (XOR, starting
 * from 0). Stating the order-independence argument once, for an abstract
 * element type, keeps it free of bit-level reasoning.
 */
module Folds {

  /** p combined with x and then with q. */
  function Then<T>(op: (T, T) -> T, p: T, x: T, q: T): T
  {
    op(op(p, x), q)
  }

  /** Combining with x and then with q is the same as combining with q and then
      with x. (The law is triggered only by Then, so that it is applied where a
      proof asks for it and not to every nested op the folds produce.) */
  ghost predicate RightCommutative<T(!new)>(op: (T, T) -> T)
  {
    forall p, x, q {:trigger Then(op, p, x, q)} :: Then(op, p, x, q) == op(op(p, q), x)
  }

  lemma FoldSnoc<T>(op: (T, T) -> T, unit: T, ws: seq<T>, x: T)
    ensures Fold(op, unit, ws + [x]) == op(Fold(op, unit, ws), x)
  {
    assert (ws + [x])[..|ws|] == ws;
  }

  /** op applied from the first element to the last, starting from unit. */
  function Fold<T>(op: (T, T) -> T, unit: T, ws: seq<T>): T
  {
    if |ws| == 0 then unit else op(Fold(op, unit, ws[..|ws| - 1]), ws[|ws| - 1])
  }

  /** Taking one element out of the fold: the fold of the rest, combined with it. */
  lemma {:induction false} FoldRemove<T(!new)>(op: (T, T) -> T, unit: T, b: seq<T>, j: nat)
    requires RightCommutative(op)
    requires j < |b|
    ensures Fold(op, unit, b) == op(Fold(op, unit, b[..j] + b[j + 1..]), b[j])
    decreases |b|
  {
    var n := |b|;
    if j == n - 1 {
      assert b[..j] + b[j + 1..] == b[..n - 1];
    } else {
      var init, last := b[..n - 1], b[n - 1];
      FoldRemove(op, unit, init, j);
      var rest := b[..j] + b[j + 1..];
      assert rest[..|rest| - 1] == init[..j] + init[j + 1..];
      assert rest[|rest| - 1] == last;
      assert Fold(op, unit, b) == Then(op, Fold(op, unit, init[..j] + init[j + 1..]), b[j], last);
    }
  }

  /** The fold does not depend on the order of the elements. */
  lemma {:induction false} FoldPermutation<T(!new)>(op: (T, T) -> T, unit: T, a: seq<T>, b: seq<T>)
    requires RightCommutative(op)
    requires multiset(a) == multiset(b)
    ensures Fold(op, unit, a) == Fold(op, unit, b)
    decreases |a|
  {
    if |a| == 0 {
      assert |b| == |multiset(b)| == 0;
    } else {
      var a', x := a[..|a| - 1], a[|a| - 1];
      assert a == a' + [x];
      assert x in multiset(b);
      var j :| 0 <= j < |b| && b[j] == x;
      var b' := b[..j] + b[j + 1..];
      assert b == b[..j] + [x] + b[j + 1..];
      assert multiset(b) == multiset(b') + multiset{x};
      assert multiset(a) == multiset(a') + multiset{x};
      assert multiset(a') == multiset(a) - multiset{x};
      assert multiset(b') == multiset(b) - multiset{x};
      FoldPermutation(op, unit, a', b');
      FoldRemove(op, unit, b, j);
    }
  }

  /** A property that holds of unit and of every element, and that op preserves, holds of the fold. */
  lemma {:induction false} FoldClosed<T>(op: (T, T) -> T, unit: T, ws: seq<T>, p: T -> bool)
    requires p(unit)
    requires forall a, b :: p(a) && p(b) ==> p(op(a, b))
    requires forall i :: 0 <= i < |ws| ==> p(ws[i])
    ensures p(Fold(op, unit, ws))
    decreases |ws|
  {
    if |ws| > 0 {
      FoldClosed(op, unit, ws[..|ws| - 1], p);
    }
  }

  /** A map h that turns op into op2 sees only the images of the elements: sequences
      whose elements have pairwise equal images have folds with equal images. */
  lemma {:induction false} FoldHomomorphic<T, U>(op: (T, T) -> T, unit: T, op2: (U, U) -> U, h: T -> U, ws: seq<T>, vs: seq<T>)
    requires forall a, b :: h(op(a, b)) == op2(h(a), h(b))
    requires |ws| == |vs|
    requires forall i :: 0 <= i < |ws| ==> h(ws[i]) == h(vs[i])
    ensures h(Fold(op, unit, ws)) == h(Fold(op, unit, vs))
    decreases |ws|
  {
    if |ws| > 0 {
      FoldHomomorphic(op, unit, op2, h, ws[..|ws| - 1], vs[..|vs| - 1]);
    }
  }
}

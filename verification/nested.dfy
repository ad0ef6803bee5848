/** The recursive extent/stride tree on which the whole layout algebra is built.
    A leaf holds an ordered list of naturals, a branch an ordered list of subtrees;
    `(2,(3,4))` is `Tup([Int([2]), Tup([Int([3]), Int([4])])])` or, flattened one level,
    `Tup([Int([2]), Int([3, 4])])`. */
module Nested {

  datatype Tuple = Int(vals: seq<nat>) | Tup(kids: seq<Tuple>)

  /** Product of a list of naturals; the empty product is 1. */
  function Product(s: seq<nat>): nat
  {
    if s == [] then 1 else s[0] * Product(s[1..])
  }

  /** Sum of pairwise products of two equally long lists. */
  function FlatDot(a: seq<nat>, b: seq<nat>): nat
    requires |a| == |b|
  {
    if a == [] then 0 else a[0] * b[0] + FlatDot(a[1..], b[1..])
  }

  /** The leaves of a tree in pre-order. */
  function Flatten(t: Tuple): seq<nat>
  {
    match t
    case Int(v) => v
    case Tup(k) => FlattenKids(k)
  }

  function FlattenKids(k: seq<Tuple>): seq<nat>
  {
    if k == [] then [] else Flatten(k[0]) + FlattenKids(k[1..])
  }

  /** Number of elements a shape describes: the product of all its leaves. */
  function Size(t: Tuple): nat
  {
    Product(Flatten(t))
  }

  function FlatLen(t: Tuple): nat
  {
    |Flatten(t)|
  }

  function FlatAt(t: Tuple, i: nat): nat
    requires i < FlatLen(t)
  {
    Flatten(t)[i]
  }

  /** Two trees are congruent when they branch the same way at every depth and
      every pair of matched leaves has the same length. */
  predicate Congruent(a: Tuple, b: Tuple)
  {
    if a.Int? && b.Int? then |a.vals| == |b.vals|
    else if a.Tup? && b.Tup? then
      |a.kids| == |b.kids| && forall i :: 0 <= i < |a.kids| ==> Congruent(a.kids[i], b.kids[i])
    else false
  }

  predicate CongruentKids(a: seq<Tuple>, b: seq<Tuple>)
  {
    |a| == |b| && forall i :: 0 <= i < |a| ==> Congruent(a[i], b[i])
  }

  /** Hierarchical inner product: a vector dot product at the leaves, summed over matched children. */
  function Dot(a: Tuple, b: Tuple): nat
    requires Congruent(a, b)
  {
    match a
    case Int(x) => FlatDot(x, b.vals)
    case Tup(x) => DotKids(x, b.kids)
  }

  function DotKids(a: seq<Tuple>, b: seq<Tuple>): nat
    requires CongruentKids(a, b)
  {
    if a == [] then 0 else Dot(a[0], b[0]) + DotKids(a[1..], b[1..])
  }

  /** Elementwise sum of two congruent trees. */
  function Add(a: Tuple, b: Tuple): (r: Tuple)
    requires Congruent(a, b)
    ensures Congruent(r, a)
  {
    match a
    case Int(x) => Int(seq(|x|, i requires 0 <= i < |x| => x[i] + b.vals[i]))
    case Tup(x) => Tup(AddKids(x, b.kids))
  }

  function AddKids(a: seq<Tuple>, b: seq<Tuple>): (r: seq<Tuple>)
    requires CongruentKids(a, b)
    ensures CongruentKids(r, a)
  {
    seq(|a|, i requires 0 <= i < |a| => Add(a[i], b[i]))
  }

  /* ---------- lemmas ---------- */

  lemma {:induction false} ProductAppend(a: seq<nat>, b: seq<nat>)
    ensures Product(a + b) == Product(a) * Product(b)
  {
    if a == [] {
      assert a + b == b;
    } else {
      assert (a + b)[1..] == a[1..] + b;
      ProductAppend(a[1..], b);
      calc {
        Product(a + b);
        a[0] * Product(a[1..] + b);
        a[0] * (Product(a[1..]) * Product(b));
        (a[0] * Product(a[1..])) * Product(b);
      }
    }
  }

  /** A product is zero exactly when one of its factors is. */
  lemma {:induction false} ProductZero(s: seq<nat>)
    ensures Product(s) == 0 <==> exists i :: 0 <= i < |s| && s[i] == 0
  {
    if s != [] {
      var t := s[1..];
      ProductZero(t);
      if Product(t) == 0 {
        var i :| 0 <= i < |t| && t[i] == 0;
        assert s[i + 1] == 0;
      }
      if s[0] != 0 && Product(t) != 0 {
        forall i | 0 <= i < |s|
          ensures s[i] != 0
        {
          if i > 0 {
            assert s[i] == t[i - 1];
          }
        }
      }
    }
  }

  lemma {:induction false} FlatDotAppend(a: seq<nat>, b: seq<nat>, c: seq<nat>, d: seq<nat>)
    requires |a| == |c| && |b| == |d|
    ensures FlatDot(a + b, c + d) == FlatDot(a, c) + FlatDot(b, d)
  {
    if a == [] {
      assert a + b == b && c + d == d;
    } else {
      assert (a + b)[1..] == a[1..] + b;
      assert (c + d)[1..] == c[1..] + d;
      FlatDotAppend(a[1..], b, c[1..], d);
    }
  }

  lemma {:induction false} CongruentSymmetric(a: Tuple, b: Tuple)
    requires Congruent(a, b)
    ensures Congruent(b, a)
    decreases a
  {
    if a.Tup? {
      forall i | 0 <= i < |b.kids| ensures Congruent(b.kids[i], a.kids[i]) {
        CongruentSymmetric(a.kids[i], b.kids[i]);
      }
    }
  }

  lemma {:induction false} CongruentTransitive(a: Tuple, b: Tuple, c: Tuple)
    requires Congruent(a, b) && Congruent(b, c)
    ensures Congruent(a, c)
    decreases a
  {
    if a.Tup? {
      forall i | 0 <= i < |a.kids| ensures Congruent(a.kids[i], c.kids[i]) {
        CongruentTransitive(a.kids[i], b.kids[i], c.kids[i]);
      }
    }
  }

  lemma {:induction false} CongruentReflexive(a: Tuple)
    ensures Congruent(a, a)
    decreases a
  {
    if a.Tup? {
      forall i | 0 <= i < |a.kids| ensures Congruent(a.kids[i], a.kids[i]) {
        CongruentReflexive(a.kids[i]);
      }
    }
  }

  /** Congruent trees have equally many leaves, in matching positions. */
  lemma {:induction false} CongruentFlatLen(a: Tuple, b: Tuple)
    requires Congruent(a, b)
    ensures |Flatten(a)| == |Flatten(b)|
    decreases a, 1
  {
    if a.Tup? {
      CongruentKidsFlatLen(a.kids, b.kids);
    }
  }

  lemma {:induction false} CongruentKidsFlatLen(a: seq<Tuple>, b: seq<Tuple>)
    requires CongruentKids(a, b)
    ensures |FlattenKids(a)| == |FlattenKids(b)|
    decreases a, 0
  {
    if a != [] {
      CongruentFlatLen(a[0], b[0]);
      CongruentKidsFlatLen(a[1..], b[1..]);
    }
  }

  /** The hierarchical dot product equals the flat dot product of the leaves in pre-order. */
  lemma {:induction false} DotFlatten(a: Tuple, b: Tuple)
    requires Congruent(a, b)
    ensures |Flatten(a)| == |Flatten(b)|
    ensures Dot(a, b) == FlatDot(Flatten(a), Flatten(b))
    decreases a, 1
  {
    if a.Tup? {
      DotKidsFlatten(a.kids, b.kids);
    }
  }

  lemma {:induction false} DotKidsFlatten(a: seq<Tuple>, b: seq<Tuple>)
    requires CongruentKids(a, b)
    ensures |FlattenKids(a)| == |FlattenKids(b)|
    ensures DotKids(a, b) == FlatDot(FlattenKids(a), FlattenKids(b))
    decreases a, 0
  {
    if a != [] {
      DotFlatten(a[0], b[0]);
      DotKidsFlatten(a[1..], b[1..]);
      FlatDotAppend(Flatten(a[0]), FlattenKids(a[1..]), Flatten(b[0]), FlattenKids(b[1..]));
    }
  }

  /** Flattening distributes over concatenation of children. */
  lemma {:induction false} FlattenKidsAppend(a: seq<Tuple>, b: seq<Tuple>)
    ensures FlattenKids(a + b) == FlattenKids(a) + FlattenKids(b)
  {
    if a == [] {
      assert a + b == b;
    } else {
      assert (a + b)[1..] == a[1..] + b;
      FlattenKidsAppend(a[1..], b);
    }
  }

  lemma {:induction false} FlatDotLinear(a: seq<nat>, b: seq<nat>, s: seq<nat>)
    requires |a| == |b| == |s|
    ensures FlatDot(seq(|a|, i requires 0 <= i < |a| => a[i] + b[i]), s) == FlatDot(a, s) + FlatDot(b, s)
  {
    var sum := seq(|a|, i requires 0 <= i < |a| => a[i] + b[i]);
    if a != [] {
      assert sum[1..] == seq(|a[1..]|, i requires 0 <= i < |a[1..]| => a[1..][i] + b[1..][i]);
      FlatDotLinear(a[1..], b[1..], s[1..]);
    }
  }

  /** The dot product is linear in its first argument: this is what makes a subview's
      origin offset compose with offsets inside the subview. */
  lemma {:induction false} DotLinear(a: Tuple, b: Tuple, s: Tuple)
    requires Congruent(a, s) && Congruent(b, s)
    ensures Congruent(a, b) && Congruent(Add(a, b), s)
    ensures Dot(Add(a, b), s) == Dot(a, s) + Dot(b, s)
    decreases a, 1
  {
    CongruentSymmetric(b, s);
    CongruentTransitive(a, s, b);
    CongruentTransitive(Add(a, b), a, s);
    if a.Int? {
      FlatDotLinear(a.vals, b.vals, s.vals);
    } else {
      DotKidsLinear(a.kids, b.kids, s.kids);
    }
  }

  lemma {:induction false} DotKidsLinear(a: seq<Tuple>, b: seq<Tuple>, s: seq<Tuple>)
    requires CongruentKids(a, s) && CongruentKids(b, s)
    ensures CongruentKids(a, b) && CongruentKids(AddKids(a, b), s)
    ensures DotKids(AddKids(a, b), s) == DotKids(a, s) + DotKids(b, s)
    decreases a, 0
  {
    forall i | 0 <= i < |a| ensures Congruent(a[i], b[i]) {
      DotLinear(a[i], b[i], s[i]);
    }
    forall i | 0 <= i < |a| ensures Congruent(AddKids(a, b)[i], s[i]) {
      DotLinear(a[i], b[i], s[i]);
    }
    if a != [] {
      DotLinear(a[0], b[0], s[0]);
      DotKidsLinear(a[1..], b[1..], s[1..]);
      assert AddKids(a, b)[1..] == AddKids(a[1..], b[1..]);
    }
  }

  /** A tree is determined by its branching and its leaves: congruent trees with the same
      pre-order leaves are equal. */
  lemma {:induction false} CongruentFlattenEqual(a: Tuple, b: Tuple)
    requires Congruent(a, b) && Flatten(a) == Flatten(b)
    ensures a == b
    decreases a, 1
  {
    if a.Tup? {
      CongruentKidsFlattenEqual(a.kids, b.kids);
    }
  }

  lemma {:induction false} CongruentKidsFlattenEqual(a: seq<Tuple>, b: seq<Tuple>)
    requires CongruentKids(a, b) && FlattenKids(a) == FlattenKids(b)
    ensures a == b
    decreases a, 0
  {
    if a != [] {
      CongruentFlatLen(a[0], b[0]);
      var n := |Flatten(a[0])|;
      assert Flatten(a[0]) == FlattenKids(a)[..n] == FlattenKids(b)[..n] == Flatten(b[0]);
      assert FlattenKids(a[1..]) == FlattenKids(a)[n..] == FlattenKids(b)[n..] == FlattenKids(b[1..]);
      CongruentFlattenEqual(a[0], b[0]);
      CongruentKidsFlattenEqual(a[1..], b[1..]);
      assert a == [a[0]] + a[1..] && b == [b[0]] + b[1..];
    }
  }
}

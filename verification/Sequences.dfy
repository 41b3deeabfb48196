/** Where a sequence stands inside another one. */
module Sequences {

  /** `enc` stands in `b` at position `p`. */
  predicate At<T(==)>(b: seq<T>, p: nat, enc: seq<T>) {
    p + |enc| <= |b| && b[p..p + |enc|] == enc
  }

  lemma AtSplit<T>(b: seq<T>, p: nat, x: seq<T>, y: seq<T>)
    ensures At(b, p, x + y) <==> At(b, p, x) && At(b, p + |x|, y)
  {
    if At(b, p, x + y) {
      assert x == b[p..p + |x + y|][..|x|] == b[p..p + |x|];
      assert y == b[p..p + |x + y|][|x|..] == b[p + |x|..p + |x + y|];
    }
    if At(b, p, x) && At(b, p + |x|, y) {
      assert b[p..p + |x + y|] == b[p..p + |x|] + b[p + |x|..p + |x| + |y|];
    }
  }

  lemma SliceWithin<T>(b: seq<T>, p: nat, x: seq<T>, i: nat, j: nat)
    requires At(b, p, x) && i <= j <= |x|
    ensures b[p + i..p + j] == x[i..j]
  {
    assert x == x[..i] + (x[i..j] + x[j..]);
    AtSplit(b, p, x[..i], x[i..j] + x[j..]);
    AtSplit(b, p + i, x[i..j], x[j..]);
  }
}

/** Locating one byte string inside another: the bookkeeping behind every codec proof. */
module Slices {

  /** `x` stands in `b` at offset `o`. */
  predicate At<T(==)>(b: seq<T>, o: nat, x: seq<T>) {
    o + |x| <= |b| && b[o..o + |x|] == x
  }

  lemma AtSlice<T>(b: seq<T>, o: nat, x: seq<T>)
    requires At(b, o, x)
    ensures o + |x| <= |b| && b[o..o + |x|] == x
  {
  }

  lemma AtSplit<T>(b: seq<T>, o: nat, x: seq<T>, y: seq<T>)
    ensures At(b, o, x + y) <==> At(b, o, x) && At(b, o + |x|, y)
  {
    if o + |x + y| <= |b| {
      var z := b[o..o + |x + y|];
      assert b[o..o + |x|] == z[..|x|] && b[o + |x|..o + |x| + |y|] == z[|x|..];
      assert z == z[..|x|] + z[|x|..];
      assert (x + y)[..|x|] == x && (x + y)[|x|..] == y;
    }
  }

  lemma AtExtend<T>(b: seq<T>, c: seq<T>, o: nat, x: seq<T>)
    requires At(b, o, x)
    ensures At(b + c, o, x)
  {
    assert (b + c)[o..o + |x|] == b[o..o + |x|];
  }

  lemma AtWhole<T>(b: seq<T>)
    ensures At(b, 0, b)
  {
  }
}

/** Applying a function to every element of a sequence, and why that commutes
    with rearranging the sequence. */
module Seqs {

  function Map<A, B>(f: A -> B, s: seq<A>): (r: seq<B>)
    ensures |r| == |s|
    decreases |s|
  {
    if |s| == 0 then [] else [f(s[0])] + Map(f, s[1..])
  }

  lemma {:induction false} MapAppend<A, B>(f: A -> B, a: seq<A>, b: seq<A>)
    ensures Map(f, a + b) == Map(f, a) + Map(f, b)
    decreases |a|
  {
    if |a| > 0 {
      assert (a + b)[1..] == a[1..] + b;
      MapAppend(f, a[1..], b);
    } else {
      assert a + b == b;
    }
  }

  lemma RemoveAt<A>(b: seq<A>, i: nat)
    requires i < |b|
    ensures multiset(b[..i] + b[i + 1..]) == multiset(b) - multiset{b[i]}
  {
    assert b == b[..i] + [b[i]] + b[i + 1..];
  }

  lemma MapSingle<A, B>(f: A -> B, y: A)
    ensures Map(f, [y]) == [f(y)]
  {
    assert [y][1..] == [];
  }

  /** Taking one element out of the middle takes its image out of the images. */
  lemma MapTakeOut<A, B>(f: A -> B, x: seq<A>, y: A, z: seq<A>)
    ensures multiset(Map(f, x + [y] + z)) == multiset(Map(f, x + z)) + multiset{f(y)}
  {
    MapAppend(f, x + [y], z);
    MapAppend(f, x, [y]);
    MapSingle(f, y);
    MapAppend(f, x, z);
  }

  /** The images of `a` and of `b` agree once the element they share at the
      front of `a` and at `i` in `b` is set aside. */
  lemma MapPermutationStep<A, B>(f: A -> B, a: seq<A>, b: seq<A>, i: nat)
    requires 0 < |a| && i < |b| && b[i] == a[0]
    requires multiset(Map(f, a[1..])) == multiset(Map(f, b[..i] + b[i + 1..]))
    ensures multiset(Map(f, a)) == multiset(Map(f, b))
  {
    var x, y, z := b[..i], b[i], b[i + 1..];
    assert multiset(Map(f, a)) == multiset(Map(f, a[1..])) + multiset{f(y)} by {
      assert a == [] + [y] + a[1..];
      assert [] + a[1..] == a[1..];
      MapTakeOut(f, [], y, a[1..]);
    }
    assert multiset(Map(f, b)) == multiset(Map(f, x + z)) + multiset{f(y)} by {
      assert b == x + [y] + z;
      MapTakeOut(f, x, y, z);
    }
  }

  /** Setting aside a shared element keeps two rearrangements rearrangements. */
  lemma RemoveShared<A>(a: seq<A>, b: seq<A>, i: nat)
    requires multiset(a) == multiset(b)
    requires 0 < |a| && i < |b| && b[i] == a[0]
    ensures multiset(a[1..]) == multiset(b[..i] + b[i + 1..])
  {
    assert multiset(a[1..]) == multiset(a) - multiset{a[0]} by {
      assert a == [a[0]] + a[1..];
    }
    RemoveAt(b, i);
  }

  /** Rearranging the elements rearranges their images the same way. */
  lemma {:induction false} MapPermutation<A, B>(f: A -> B, a: seq<A>, b: seq<A>)
    requires multiset(a) == multiset(b)
    ensures multiset(Map(f, a)) == multiset(Map(f, b))
    decreases |a|
  {
    if |a| > 0 {
      assert a[0] in multiset(b);
      var i :| 0 <= i < |b| && b[i] == a[0];
      RemoveShared(a, b, i);
      MapPermutation(f, a[1..], b[..i] + b[i + 1..]);
      MapPermutationStep(f, a, b, i);
    } else {
      assert |b| == |multiset(b)| == 0;
    }
  }

  /** An image occurs exactly when some element maps to it. */
  lemma {:induction false} MapMembers<A, B>(f: A -> B, s: seq<A>, y: B)
    ensures y in Map(f, s) <==> exists x :: x in s && y == f(x)
    decreases |s|
  {
    if |s| > 0 {
      MapMembers(f, s[1..], y);
      assert s == [s[0]] + s[1..];
    }
  }
}

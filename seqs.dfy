/** Sequence helpers standing for the `lo.Uniq` and `lo.Flatten` calls of the cluster manager. */
module Seqs {

  /** No element occurs twice. */
  ghost predicate NoDup<T>(s: seq<T>)
  {
    forall i, j | 0 <= i < j < |s| :: s[i] != s[j]
  }

  /** `lo.Uniq`: the elements of `s` in the order of their first occurrence. */
  function Uniq<T(==,!new)>(s: seq<T>): (r: seq<T>)
    ensures forall x :: x in r <==> x in s
    ensures NoDup(r)
    ensures |r| <= |s|
  {
    if s == [] then []
    else
      var u := Uniq(s[..|s| - 1]);
      if s[|s| - 1] in u then u else u + [s[|s| - 1]]
  }

  /** `lo.Flatten`: the concatenation of the inner sequences, in order. */
  function Flatten<T(!new)>(ss: seq<seq<T>>): (r: seq<T>)
    ensures forall x :: x in r <==> exists i | 0 <= i < |ss| :: x in ss[i]
  {
    if ss == [] then [] else ss[0] + Flatten(ss[1..])
  }

  /** Unfolds one step of Uniq on a sequence written as `p + [x]`. */
  lemma UniqSnoc<T(!new)>(p: seq<T>, x: T)
    ensures Uniq(p + [x]) == if x in Uniq(p) then Uniq(p) else Uniq(p) + [x]
  {
    assert (p + [x])[..|p + [x]| - 1] == p;
  }

  /** What Uniq keeps of a prefix it keeps in front: first occurrences come first. */
  lemma {:induction false} UniqPrefix<T(!new)>(a: seq<T>, b: seq<T>)
    ensures Uniq(a) <= Uniq(a + b)
  {
    if b != [] {
      var b', x := b[..|b| - 1], b[|b| - 1];
      assert b == b' + [x];
      assert a + b == (a + b') + [x];
      UniqPrefix(a, b');
      UniqSnoc(a + b', x);
    } else {
      assert a + b == a;
    }
  }

  /** De-duplicating a suffix first does not change the result. */
  lemma {:induction false} UniqAbsorbRight<T(!new)>(a: seq<T>, b: seq<T>)
    ensures Uniq(a + Uniq(b)) == Uniq(a + b)
  {
    if b == [] {
      assert a + Uniq(b) == a;
      assert a + b == a;
    } else {
      var b', x := b[..|b| - 1], b[|b| - 1];
      assert b == b' + [x];
      var u, p := Uniq(b'), a + b';
      UniqAbsorbRight(a, b');
      assert Uniq(a + u) == Uniq(p);
      UniqSnoc(b', x);
      assert a + b == p + [x];
      UniqSnoc(p, x);
      if x in u {
        assert a + Uniq(b) == a + u;
        assert x in p;
      } else {
        assert a + Uniq(b) == (a + u) + [x];
        UniqSnoc(a + u, x);
        assert x in a + u <==> x in p;
      }
    }
  }

  /** De-duplicating twice is de-duplicating once. */
  lemma UniqIdempotent<T(!new)>(a: seq<T>)
    ensures Uniq(Uniq(a)) == Uniq(a)
  {
    assert [] + Uniq(a) == Uniq(a);
    assert [] + a == a;
    UniqAbsorbRight([], a);
  }

  /** De-duplicating a prefix first does not change the result. */
  lemma {:induction false} UniqAbsorbLeft<T(!new)>(a: seq<T>, b: seq<T>)
    ensures Uniq(Uniq(a) + b) == Uniq(a + b)
  {
    if b == [] {
      assert Uniq(a) + b == Uniq(a);
      assert a + b == a;
      UniqIdempotent(a);
    } else {
      var b', x := b[..|b| - 1], b[|b| - 1];
      assert b == b' + [x];
      var p, q := Uniq(a) + b', a + b';
      UniqAbsorbLeft(a, b');
      assert Uniq(p) == Uniq(q);
      assert Uniq(a) + b == p + [x];
      assert a + b == q + [x];
      UniqSnoc(p, x);
      UniqSnoc(q, x);
    }
  }

  lemma FlattenFive<T(!new)>(a: seq<T>, b: seq<T>, c: seq<T>, d: seq<T>, e: seq<T>)
    ensures Flatten([a, b, c, d, e]) == a + (b + (c + (d + e)))
  {
    var parts := [a, b, c, d, e];
    assert Flatten(parts[4..]) == e by { assert parts[4..][1..] == []; }
    assert parts[3..][1..] == parts[4..];
    assert parts[2..][1..] == parts[3..];
    assert parts[1..][1..] == parts[2..];
    assert Flatten(parts[3..]) == d + e;
    assert Flatten(parts[2..]) == c + (d + e);
    assert Flatten(parts[1..]) == b + (c + (d + e));
  }

  /** Uniq sees a suffix only through its own Uniq. */
  lemma UniqCongruence<T(!new)>(p: seq<T>, y: seq<T>, y': seq<T>)
    requires Uniq(y) == Uniq(y')
    ensures Uniq(p + y) == Uniq(p + y')
  {
    UniqAbsorbRight(p, y);
    UniqAbsorbRight(p, y');
  }

  /** De-duplicating a leading part in front of an equivalent suffix. */
  lemma UniqStep<T(!new)>(a: seq<T>, y: seq<T>, y': seq<T>)
    requires Uniq(y) == Uniq(y')
    ensures Uniq(Uniq(a) + y) == Uniq(a + y')
  {
    UniqCongruence(Uniq(a), y, y');
    UniqAbsorbLeft(a, y');
  }

  /** De-duplicating each of four leading parts first does not change the result. */
  lemma UniqAbsorbFour<T(!new)>(a: seq<T>, b: seq<T>, c: seq<T>, d: seq<T>, e: seq<T>)
    ensures Uniq(Uniq(a) + (Uniq(b) + (Uniq(c) + (Uniq(d) + e)))) == Uniq(a + (b + (c + (d + e))))
  {
    UniqStep(d, e, e);
    UniqStep(c, Uniq(d) + e, d + e);
    UniqStep(b, Uniq(c) + (Uniq(d) + e), c + (d + e));
    UniqStep(a, Uniq(b) + (Uniq(c) + (Uniq(d) + e)), b + (c + (d + e)));
  }
}

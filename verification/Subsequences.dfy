/** Sequences with some of the elements of others, in the same order. */
module Subsequences {

  /** a is b with some entries left out. */
  predicate Sub<T(==)>(a: seq<T>, b: seq<T>) {
    a == [] || (b != [] && if a[0] == b[0] then Sub(a[1..], b[1..]) else Sub(a, b[1..]))
  }

  lemma {:induction false} SubDropFirst<T>(a: seq<T>, b: seq<T>)
    requires Sub(a, b) && a != []
    ensures Sub(a[1..], b)
    decreases |b|, 0
  {
    if a[0] != b[0] {
      SubDropFirst(a, b[1..]);
      SubPrepend(a[1..], b[1..], b[0]);
    } else {
      SubPrepend(a[1..], b[1..], b[0]);
    }
    assert b == [b[0]] + b[1..];
  }

  lemma {:induction false} SubPrepend<T>(a: seq<T>, b: seq<T>, x: T)
    requires Sub(a, b)
    ensures Sub(a, [x] + b)
    decreases |b|, 1
  {
    assert ([x] + b)[1..] == b;
    if a != [] && a[0] == x { SubDropFirst(a, b); }
  }

  lemma {:induction false} SubAppend<T>(a: seq<T>, b: seq<T>, x: T)
    requires Sub(a, b)
    ensures Sub(a + [x], b + [x]) && Sub(a, b + [x])
    decreases |b|
  {
    if b == [] {
      assert a + [x] == [x] == b + [x];
    } else {
      assert (b + [x])[1..] == b[1..] + [x];
      if a == [] {
        SubAppend(a, b[1..], x);
        assert a + [x] == [x];
        SubLast(b, x);
      } else if a[0] == b[0] {
        assert (a + [x])[1..] == a[1..] + [x];
        SubAppend(a[1..], b[1..], x);
      } else {
        SubAppend(a, b[1..], x);
      }
    }
  }

  lemma {:induction false} SubLast<T>(b: seq<T>, x: T)
    ensures Sub([x], b + [x])
  {
    if b != [] && b[0] != x {
      assert (b + [x])[1..] == b[1..] + [x];
      SubLast(b[1..], x);
    }
  }

  lemma {:induction false} SubMember<T>(a: seq<T>, b: seq<T>, i: nat) returns (j: nat)
    requires Sub(a, b) && i < |a|
    ensures j < |b| && b[j] == a[i] && |a| <= |b|
    decreases |b|
  {
    if a[0] == b[0] {
      if i == 0 {
        j := 0;
        if 1 < |a| { var _ := SubMember(a[1..], b[1..], 0); }
      } else {
        var j' := SubMember(a[1..], b[1..], i - 1);
        j := j' + 1;
      }
    } else {
      var j' := SubMember(a, b[1..], i);
      j := j' + 1;
    }
  }

  lemma SubBoth<T>(a: seq<T>, b: seq<T>, x: T)
    requires Sub(a, b)
    ensures Sub([x] + a, [x] + b)
  {
    assert ([x] + a)[1..] == a && ([x] + b)[1..] == b;
  }

  lemma SubDropBoth<T>(a: seq<T>, b: seq<T>)
    requires Sub(a, b) && a != []
    ensures b != [] && Sub(a[1..], b[1..])
  {
    if a[0] != b[0] { SubDropFirst(a, b[1..]); }
  }
}

/** Generic facts about sequences that the caption and summary models share. */
module Seqs {

  datatype Option<T> = None | Some(value: T)

  /** `a` can be obtained from `b` by deleting elements: what is left keeps its order. */
  ghost predicate Sublist<T>(a: seq<T>, b: seq<T>)
    decreases |b|
  {
    if b == [] then a == []
    else (a != [] && a[0] == b[0] && Sublist(a[1..], b[1..])) || Sublist(a, b[1..])
  }

  /** The elements of `s` that satisfy `p`, in their original order
      (a Python list comprehension with an `if` clause). */
  function Filter<T>(p: T -> bool, s: seq<T>): (r: seq<T>)
    ensures |r| <= |s|
  {
    if s == [] then [] else (if p(s[0]) then [s[0]] else []) + Filter(p, s[1..])
  }

  /** Concatenation of a sequence of sequences. */
  function Concat<T>(ss: seq<seq<T>>): seq<T>
  {
    if ss == [] then [] else ss[0] + Concat(ss[1..])
  }

  lemma {:induction false} SublistRefl<T>(s: seq<T>)
    ensures Sublist(s, s)
  {
    if s != [] {
      SublistRefl(s[1..]);
    }
  }

  lemma {:induction false} SublistPrepend<T>(a: seq<T>, p: seq<T>, b: seq<T>)
    requires Sublist(a, b)
    ensures Sublist(a, p + b)
  {
    if p == [] {
      assert p + b == b;
    } else {
      SublistPrepend(a, p[1..], b);
      assert p + b != [] && (p + b)[1..] == p[1..] + b;
      assert Sublist(a, (p + b)[1..]);
    }
  }

  lemma SublistCons<T>(x: T, a: seq<T>, b: seq<T>)
    requires Sublist(a, b)
    ensures Sublist([x] + a, [x] + b)
  {
    assert ([x] + a)[1..] == a;
    assert ([x] + b)[1..] == b;
  }

  /** A filter keeps exactly the elements that pass the test. */
  lemma {:induction false} FilterMembers<T>(p: T -> bool, s: seq<T>)
    ensures forall x :: x in Filter(p, s) <==> x in s && p(x)
  {
    if s != [] {
      FilterMembers(p, s[1..]);
      assert s == [s[0]] + s[1..];
    }
  }

  /** A filter keeps the surviving elements in their original order. */
  lemma {:induction false} FilterSublist<T>(p: T -> bool, s: seq<T>)
    ensures Sublist(Filter(p, s), s)
  {
    if s != [] {
      FilterSublist(p, s[1..]);
      assert s == [s[0]] + s[1..];
      if p(s[0]) {
        SublistCons(s[0], Filter(p, s[1..]), s[1..]);
      } else {
        SublistPrepend(Filter(p, s[1..]), [s[0]], s[1..]);
        assert Filter(p, s) == Filter(p, s[1..]);
      }
    }
  }

  lemma {:induction false} FilterConcat<T>(p: T -> bool, a: seq<T>, b: seq<T>)
    ensures Filter(p, a + b) == Filter(p, a) + Filter(p, b)
  {
    if a == [] {
      assert a + b == b;
    } else {
      var head := if p(a[0]) then [a[0]] else [];
      FilterConcat(p, a[1..], b);
      assert (a + b)[0] == a[0] && (a + b)[1..] == a[1..] + b;
      assert Filter(p, a + b) == head + Filter(p, a[1..] + b);
      assert Filter(p, a) == head + Filter(p, a[1..]);
    }
  }

  lemma FilterCons<T>(p: T -> bool, x: T, s: seq<T>)
    ensures Filter(p, [x] + s) == (if p(x) then [x] else []) + Filter(p, s)
  {
    assert ([x] + s)[1..] == s;
  }

  lemma {:induction false} FilterNone<T>(p: T -> bool, s: seq<T>)
    requires forall i :: 0 <= i < |s| ==> !p(s[i])
    ensures Filter(p, s) == []
  {
    if s != [] {
      FilterNone(p, s[1..]);
    }
  }

  /** An element of a sublist is an element of the whole. */
  lemma SublistMembers<T>(a: seq<T>, b: seq<T>, x: T)
    requires Sublist(a, b) && x in a
    ensures x in b
    decreases |b|
  {
    if b != [] {
      if a[0] == b[0] && Sublist(a[1..], b[1..]) {
        if x != a[0] {
          SublistMembers(a[1..], b[1..], x);
        }
      } else {
        SublistMembers(a, b[1..], x);
      }
    }
  }

  lemma DropConcat<T>(a: seq<T>, c: seq<T>, k: nat)
    requires k <= |a|
    ensures (a + c)[k..] == a[k..] + c
  {
  }
}

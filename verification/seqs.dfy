/** Sequence notions shared by the model: duplicate-freedom, the insertion-ordered
    set that JavaScript's `Set` is, and flattening a sequence of sequences. */
module Seqs {

  /** No element occurs twice. */
  predicate NoDup<T(==)>(s: seq<T>) {
    forall i, j :: 0 <= i < j < |s| ==> s[i] != s[j]
  }

  /** The elements of a sequence, as a set. */
  function Elems<T>(s: seq<T>): set<T> {
    set x | x in s
  }

  /** Adding each element of `xs` in turn to the insertion-ordered set `d`: an element
      already present is ignored, a new one goes to the end. This is what
      `set.add` in a loop and `new Set(xs)` do. */
  function AddAll<T(==)>(d: seq<T>, xs: seq<T>): seq<T>
    decreases |xs|
  {
    if xs == [] then d
    else
      var a := AddAll(d, xs[..|xs| - 1]);
      var x := xs[|xs| - 1];
      if x in a then a else a + [x]
  }

  /** Adding keeps the set duplicate-free, adds exactly the new elements, and never
      disturbs what was already there. */
  lemma {:induction false} AddAllSpec<T>(d: seq<T>, xs: seq<T>)
    ensures NoDup(d) ==> NoDup(AddAll(d, xs))
    ensures Elems(AddAll(d, xs)) == Elems(d) + Elems(xs)
    ensures |d| <= |AddAll(d, xs)| && AddAll(d, xs)[..|d|] == d
    decreases |xs|
  {
    if xs != [] {
      var p := xs[..|xs| - 1];
      var x := xs[|xs| - 1];
      var a := AddAll(d, p);
      AddAllSpec(d, p);
      assert xs == p + [x];
      assert Elems(xs) == Elems(p) + {x};
      if x !in a {
        assert Elems(a + [x]) == Elems(a) + {x};
        assert (a + [x])[..|d|] == a[..|d|];
      }
    }
  }

  /** `[...new Set(xs)]`: the distinct elements of `xs` in order of first occurrence. */
  function Dedup<T(==)>(xs: seq<T>): seq<T> {
    AddAll([], xs)
  }

  /** Adding `a` and then `b` is adding `a + b`. */
  lemma {:induction false} AddAllConcat<T>(d: seq<T>, a: seq<T>, b: seq<T>)
    ensures AddAll(AddAll(d, a), b) == AddAll(d, a + b)
    decreases |b|
  {
    if b == [] {
      assert a + b == a;
    } else {
      var b' := b[..|b| - 1];
      AddAllConcat(d, a, b');
      assert (a + b)[..|a + b| - 1] == a + b';
    }
  }

  /** Deduplicating keeps exactly the elements, once each, so the result has as many
      elements as the input has distinct values. */
  lemma DedupSpec<T>(xs: seq<T>)
    ensures NoDup(Dedup(xs))
    ensures Elems(Dedup(xs)) == Elems(xs)
    ensures |Dedup(xs)| == |Elems(xs)| <= |xs|
  {
    AddAllSpec([], xs);
    NoDupCard(Dedup(xs));
    CardElems(xs);
  }

  /** A duplicate-free sequence is left unchanged by deduplication. */
  lemma {:induction false} DedupOfNoDup<T>(xs: seq<T>)
    requires NoDup(xs)
    ensures Dedup(xs) == xs
    decreases |xs|
  {
    if xs != [] {
      var p := xs[..|xs| - 1];
      assert NoDup(p);
      DedupOfNoDup(p);
      assert xs[|xs| - 1] !in p;
      assert xs == p + [xs[|xs| - 1]];
    }
  }

  /** The index of the first occurrence of `x` in `xs`. */
  function FirstIndex<T(==)>(xs: seq<T>, x: T): (k: nat)
    requires x in xs
    ensures k < |xs| && xs[k] == x
    ensures forall i :: 0 <= i < k ==> xs[i] != x
  {
    if xs[0] == x then 0 else 1 + FirstIndex(xs[1..], x)
  }

  /** `xs.indexOf(x)`: the position of the first occurrence of `x`, or -1 when it
      does not occur. */
  function IndexOf<T(==)>(xs: seq<T>, x: T): (r: int)
    ensures -1 <= r < |xs|
    ensures r < 0 <==> x !in xs
    ensures r >= 0 ==> xs[r] == x && forall i :: 0 <= i < r ==> xs[i] != x
  {
    if x in xs then FirstIndex(xs, x) else -1
  }

  /** `a` and `b` both occur in `xs`, and `a` occurs first. */
  predicate OccursBefore<T(==)>(xs: seq<T>, a: T, b: T) {
    a in xs && b in xs && FirstIndex(xs, a) < FirstIndex(xs, b)
  }

  /** The deduplicated sequence lists elements in order of their first occurrence. */
  lemma DedupFirstOccurrenceOrder<T>(xs: seq<T>)
    ensures forall i, j :: 0 <= i < j < |Dedup(xs)| ==> OccursBefore(xs, Dedup(xs)[i], Dedup(xs)[j])
  {
    forall i, j | 0 <= i < j < |Dedup(xs)| ensures OccursBefore(xs, Dedup(xs)[i], Dedup(xs)[j]) {
      DedupOrderPair(xs, i, j);
    }
  }

  lemma {:induction false} DedupOrderPair<T>(xs: seq<T>, i: nat, j: nat)
    requires i < j < |Dedup(xs)|
    ensures OccursBefore(xs, Dedup(xs)[i], Dedup(xs)[j])
    decreases |xs|
  {
    var p := xs[..|xs| - 1];
    var x := xs[|xs| - 1];
    var d := Dedup(p);
    var r := Dedup(xs);
    AddAllSpec([], p);
    assert xs == p + [x];
    assert Elems(d) == Elems(p);
    assert r == if x in d then d else d + [x];
    assert r[i] == d[i] && d[i] in Elems(p);
    FirstIndexOfPrefix(p, [x], d[i]);
    if j < |d| {
      assert r[j] == d[j] && d[j] in Elems(p);
      DedupOrderPair(p, i, j);
      FirstIndexOfPrefix(p, [x], d[j]);
    } else {
      assert x !in d && r[j] == x;
      assert x !in Elems(p);
      FirstIndexOfLast(p, x);
    }
  }

  lemma FirstIndexOfLast<T>(p: seq<T>, x: T)
    requires x !in p
    ensures x in p + [x] && FirstIndex(p + [x], x) == |p|
  {
    var q := p + [x];
    assert forall i :: 0 <= i < |p| ==> q[i] == p[i];
  }

  lemma {:induction false} FirstIndexOfPrefix<T>(p: seq<T>, q: seq<T>, y: T)
    requires y in p
    ensures y in p + q && FirstIndex(p + q, y) == FirstIndex(p, y)
  {
    if p[0] != y {
      assert (p + q)[1..] == p[1..] + q;
      FirstIndexOfPrefix(p[1..], q, y);
    }
  }

  /** A duplicate-free sequence has as many elements as its set. */
  lemma {:induction false} NoDupCard<T>(s: seq<T>)
    requires NoDup(s)
    ensures |Elems(s)| == |s|
    decreases |s|
  {
    if s != [] {
      var p := s[..|s| - 1];
      assert NoDup(p);
      NoDupCard(p);
      assert s == p + [s[|s| - 1]];
      assert s[|s| - 1] !in p;
      assert Elems(s) == Elems(p) + {s[|s| - 1]};
    }
  }

  /** A sequence has at least as many elements as its set. */
  lemma {:induction false} CardElems<T>(s: seq<T>)
    ensures |Elems(s)| <= |s|
    decreases |s|
  {
    if s != [] {
      var p := s[..|s| - 1];
      CardElems(p);
      assert s == p + [s[|s| - 1]];
      assert Elems(s) == Elems(p) + {s[|s| - 1]};
    }
  }

  /** Concatenation of the sequences in order. */
  function Flatten<T>(ss: seq<seq<T>>): seq<T> {
    if ss == [] then [] else Flatten(ss[..|ss| - 1]) + ss[|ss| - 1]
  }

  lemma {:induction false} FlattenConcat<T>(a: seq<seq<T>>, b: seq<seq<T>>)
    ensures Flatten(a + b) == Flatten(a) + Flatten(b)
    decreases |b|
  {
    if b == [] {
      assert a + b == a;
    } else {
      FlattenConcat(a, b[..|b| - 1]);
      assert (a + b)[..|a + b| - 1] == a + b[..|b| - 1];
      assert (a + b)[|a + b| - 1] == b[|b| - 1];
    }
  }
}

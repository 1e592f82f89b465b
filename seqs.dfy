/**
 * The array operations the container applies to its key order: `filter`
 * against one key, `splice` (insert one element, delete a run), the
 * first-occurrence de-duplication of `[...new Set(xs)]`, concatenation of
 * several arrays, and an in-place comparator sort.
 */
module Seqs {

  /** No element occurs twice in `s`. */
  predicate NoDup<T(==)>(s: seq<T>) {
    forall i, j :: 0 <= i < j < |s| ==> s[i] != s[j]
  }

  /** The set of elements of `s`. */
  function Elems<T>(s: seq<T>): set<T> {
    set x | x in s
  }

  lemma ElemsConcat<T>(a: seq<T>, b: seq<T>)
    ensures Elems(a + b) == Elems(a) + Elems(b)
  {
    forall x | x in a + b ensures x in a || x in b {
      var k :| 0 <= k < |a + b| && (a + b)[k] == x;
      if k >= |a| {
        assert b[k - |a|] == x;
      }
    }
  }

  /** A concatenation is duplicate-free iff both parts are and they share nothing. */
  lemma NoDupConcat<T>(a: seq<T>, b: seq<T>)
    ensures NoDup(a + b) <==> NoDup(a) && NoDup(b) && Elems(a) !! Elems(b)
  {
    var c := a + b;
    if NoDup(c) {
      forall i, j | 0 <= i < j < |b| ensures b[i] != b[j] {
        assert b[i] == c[|a| + i] && b[j] == c[|a| + j];
      }
      forall x | x in a ensures x !in b {
        var i :| 0 <= i < |a| && a[i] == x;
        assert c[i] == x;
        assert forall j :: 0 <= j < |b| ==> b[j] == c[|a| + j];
      }
      assert NoDup(a) by {
        forall i, j | 0 <= i < j < |a| ensures a[i] != a[j] {
          assert a[i] == c[i] && a[j] == c[j];
        }
      }
    }
    if NoDup(a) && NoDup(b) && Elems(a) !! Elems(b) {
      forall i, j | 0 <= i < j < |c| ensures c[i] != c[j] {
        if j < |a| {
          assert c[i] == a[i] && c[j] == a[j];
        } else if i < |a| {
          assert c[i] == a[i] && c[j] == b[j - |a|];
          assert c[i] in Elems(a) && c[j] in Elems(b);
        } else {
          assert c[i] == b[i - |a|] && c[j] == b[j - |a|];
        }
      }
    }
  }

  /** A duplicate-free sequence has as many distinct elements as it is long. */
  lemma {:induction false} NoDupCard<T>(s: seq<T>)
    requires NoDup(s)
    ensures |Elems(s)| == |s|
  {
    if s != [] {
      var t := s[1..];
      assert NoDup(t) by {
        forall i, j | 0 <= i < j < |t| ensures t[i] != t[j] {
          assert t[i] == s[i + 1] && t[j] == s[j + 1];
        }
      }
      NoDupCard(t);
      assert s == [s[0]] + t;
      assert Elems(s) == {s[0]} + Elems(t);
      assert s[0] !in Elems(t) by {
        assert forall k :: 0 <= k < |t| ==> t[k] == s[k + 1];
      }
    }
  }

  /** Being duplicate-free is a property of the multiset of elements. */
  lemma {:induction false} NoDupMultiset<T>(s: seq<T>)
    ensures NoDup(s) <==> forall x :: multiset(s)[x] <= 1
  {
    if s != [] {
      var t := s[1..];
      NoDupMultiset(t);
      assert s == [s[0]] + t;
      assert multiset(s) == multiset{s[0]} + multiset(t);
      if NoDup(s) {
        assert NoDup(t) by {
          forall i, j | 0 <= i < j < |t| ensures t[i] != t[j] {
            assert t[i] == s[i + 1] && t[j] == s[j + 1];
          }
        }
        assert s[0] !in t by {
          assert forall k :: 0 <= k < |t| ==> t[k] == s[k + 1];
        }
        assert multiset(t)[s[0]] == 0;
      }
      if forall x :: multiset(s)[x] <= 1 {
        assert multiset(t)[s[0]] == 0 by {
          assert multiset(s)[s[0]] == 1 + multiset(t)[s[0]];
        }
        forall x ensures multiset(t)[x] <= 1 {
          assert multiset(s)[x] >= multiset(t)[x];
        }
        forall i, j | 0 <= i < j < |s| ensures s[i] != s[j] {
          if i == 0 {
            assert s[j] == t[j - 1];
            assert s[j] in multiset(t);
          } else {
            assert s[i] == t[i - 1] && s[j] == t[j - 1];
          }
        }
      }
    }
  }

  /** A permutation of a duplicate-free sequence is duplicate-free. */
  lemma PermutationKeepsNoDup<T>(a: seq<T>, b: seq<T>)
    requires NoDup(a) && multiset(a) == multiset(b)
    ensures NoDup(b) && Elems(b) == Elems(a)
  {
    NoDupMultiset(a);
    NoDupMultiset(b);
    forall x ensures x in b <==> x in a {
      assert x in b <==> x in multiset(b);
      assert x in a <==> x in multiset(a);
    }
  }

  // ---------------------------------------------------------------------------
  // keys.filter((k) => k !== key)

  /** `s` with every occurrence of `x` dropped, the rest in their order. */
  function Without<T(==)>(s: seq<T>, x: T): (r: seq<T>)
    ensures Elems(r) == Elems(s) - {x}
    ensures NoDup(s) ==> NoDup(r)
    ensures |r| <= |s|
  {
    if s == [] then []
    else
      var rest := Without(s[1..], x);
      assert s == [s[0]] + s[1..];
      ElemsConcat([s[0]], s[1..]);
      NoDupConcat([s[0]], s[1..]);
      NoDupConcat([s[0]], rest);
      ElemsConcat([s[0]], rest);
      if s[0] == x then rest else [s[0]] + rest
  }

  /** Filtering out an element that is not there changes nothing. */
  lemma {:induction false} WithoutAbsent<T>(s: seq<T>, x: T)
    requires x !in s
    ensures Without(s, x) == s
  {
    if s != [] {
      WithoutAbsent(s[1..], x);
    }
  }

  /** Filtering distributes over concatenation. */
  lemma {:induction false} WithoutConcat<T>(a: seq<T>, b: seq<T>, x: T)
    ensures Without(a + b, x) == Without(a, x) + Without(b, x)
  {
    if a == [] {
      assert a + b == b;
    } else {
      assert (a + b)[1..] == a[1..] + b;
      WithoutConcat(a[1..], b, x);
    }
  }

  /**
   * Removing a key that sits at position `i` of a duplicate-free order closes
   * the gap: the keys before and after it keep their relative order.
   */
  lemma WithoutAt<T>(s: seq<T>, i: nat)
    requires NoDup(s) && i < |s|
    ensures Without(s, s[i]) == s[..i] + s[i + 1..]
    ensures |Without(s, s[i])| == |s| - 1
  {
    var x := s[i];
    assert s == s[..i] + ([x] + s[i + 1..]);
    assert x !in s[..i] && x !in s[i + 1..];
    WithoutConcat(s[..i], [x] + s[i + 1..], x);
    WithoutConcat([x], s[i + 1..], x);
    WithoutAbsent(s[..i], x);
    WithoutAbsent(s[i + 1..], x);
  }

  /** Appending a new key and then filtering it out again is the identity. */
  lemma AppendThenWithout<T>(s: seq<T>, x: T)
    requires x !in s
    ensures Without(s + [x], x) == s
  {
    WithoutConcat(s, [x], x);
    WithoutAbsent(s, x);
  }

  // ---------------------------------------------------------------------------
  // splice: ECMAScript's Array.prototype.splice argument normalisation

  /**
   * The position at which `splice(index, ...)` starts on an array of length
   * `len`: a negative index counts from the end, and the result is clamped
   * to 0 .. len.
   */
  function SpliceStart(index: int, len: nat): (r: nat)
    ensures r <= len
    ensures 0 <= index <= len ==> r == index
    ensures index < 0 && 0 <= len + index ==> r == len + index
  {
    if index < 0 then (if len + index < 0 then 0 else len + index)
    else if index < len then index
    else len
  }

  /**
   * How many elements `splice(start, count)` deletes: `count` clamped to
   * 0 .. len - start.
   */
  function SpliceDeleteCount(count: int, start: nat, len: nat): (r: nat)
    requires start <= len
    ensures start + r <= len
    ensures 0 <= count <= len - start ==> r == count
    ensures count <= 0 || start == len ==> r == 0
  {
    if count < 0 then 0 else if count < len - start then count else len - start
  }

  /** `s` with `x` inserted before position `i`. */
  function InsertAt<T>(s: seq<T>, i: nat, x: T): (r: seq<T>)
    requires i <= |s|
    ensures |r| == |s| + 1 && r[i] == x
    ensures r[..i] == s[..i] && r[i + 1..] == s[i..]
  {
    s[..i] + [x] + s[i..]
  }

  /** The smaller of two integers. */
  function Min(a: int, b: int): int {
    if a < b then a else b
  }

  /** The run of elements that `splice(index, count)` deletes from `s`. */
  function SpliceRun<T>(s: seq<T>, index: int, count: int): (r: seq<T>)
    ensures 0 <= index <= |s| && 0 <= count ==> r == s[index..Min(index + count, |s|)]
    ensures count <= 0 || index >= |s| ==> r == []
  {
    var start := SpliceStart(index, |s|);
    s[start..start + SpliceDeleteCount(count, start, |s|)]
  }

  /**
   * What `splice(index, count)` leaves of `s`: the elements before and after
   * the deleted run, each part in its order.
   */
  function SpliceRest<T>(s: seq<T>, index: int, count: int): (r: seq<T>)
    ensures |r| == |s| - |SpliceRun(s, index, count)|
    ensures 0 <= index <= |s| && 0 <= count ==> r == s[..index] + s[Min(index + count, |s|)..]
    ensures count <= 0 || index >= |s| ==> r == s
  {
    var start := SpliceStart(index, |s|);
    var n := SpliceDeleteCount(count, start, |s|);
    assert n == 0 ==> s[..start] + s[start..] == s;
    s[..start] + s[start + n..]
  }

  /**
   * Deleting a run from a duplicate-free order leaves a duplicate-free order
   * holding exactly the elements that were not in the run.
   */
  lemma SpliceRestElems<T>(s: seq<T>, index: int, count: int)
    requires NoDup(s)
    ensures NoDup(SpliceRest(s, index, count))
    ensures Elems(SpliceRest(s, index, count)) == Elems(s) - Elems(SpliceRun(s, index, count))
  {
    var start := SpliceStart(index, |s|);
    var n := SpliceDeleteCount(count, start, |s|);
    var front, cut, back := s[..start], s[start..start + n], s[start + n..];
    assert NoDup(front + back) && Elems(front + back) == Elems(s) - Elems(cut) by {
      assert s == front + (cut + back);
      CutMiddle(front, cut, back);
    }
  }

  /** Cutting the middle part out of a duplicate-free sequence removes exactly its elements. */
  lemma CutMiddle<T>(front: seq<T>, cut: seq<T>, back: seq<T>)
    requires NoDup(front + (cut + back))
    ensures NoDup(front + back)
    ensures Elems(front + back) == Elems(front + (cut + back)) - Elems(cut)
  {
    assert NoDup(front) && NoDup(cut + back) && Elems(front) !! Elems(cut + back) by {
      NoDupConcat(front, cut + back);
    }
    assert NoDup(back) && Elems(cut) !! Elems(back) && Elems(cut + back) == Elems(cut) + Elems(back) by {
      NoDupConcat(cut, back);
      ElemsConcat(cut, back);
    }
    assert Elems(front + (cut + back)) == Elems(front) + Elems(cut + back) by {
      ElemsConcat(front, cut + back);
    }
    NoDupConcat(front, back);
    ElemsConcat(front, back);
  }

  // ---------------------------------------------------------------------------
  // setTo: remove(key), then splice(index, 0, key)

  /**
   * The order after `x` is filtered out and re-inserted at `index`: `x` is
   * listed, and the other elements keep their relative order.
   */
  function MoveTo<T(==)>(s: seq<T>, index: int, x: T): (r: seq<T>)
    ensures x in r && Without(r, x) == Without(s, x)
  {
    var rest := Without(s, x);
    var at := SpliceStart(index, |rest|);
    WithoutInsertAt(rest, at, x);
    InsertAt(rest, at, x)
  }

  /**
   * Moving (or inserting) a key keeps the order duplicate-free, adds exactly
   * that key, and puts it at `index` whenever `index` is a valid insertion
   * point of the order without it.
   */
  lemma MoveToSpec<T>(s: seq<T>, index: int, x: T)
    requires NoDup(s)
    ensures NoDup(MoveTo(s, index, x))
    ensures Elems(MoveTo(s, index, x)) == Elems(s) + {x}
    ensures |MoveTo(s, index, x)| == if x in s then |s| else |s| + 1
    ensures 0 <= index <= |Without(s, x)| ==> MoveTo(s, index, x)[index] == x
  {
    var rest := Without(s, x);
    InsertFresh(rest, SpliceStart(index, |rest|), x);
    assert |rest| == if x in s then |s| - 1 else |s| by {
      if x in s {
        var i :| 0 <= i < |s| && s[i] == x;
        WithoutAt(s, i);
      } else {
        WithoutAbsent(s, x);
      }
    }
  }

  /** Inserting an element that is not yet there keeps a sequence duplicate-free. */
  lemma InsertFresh<T>(t: seq<T>, i: nat, x: T)
    requires NoDup(t) && x !in t && i <= |t|
    ensures NoDup(InsertAt(t, i, x)) && Elems(InsertAt(t, i, x)) == Elems(t) + {x}
  {
    var front, back := t[..i], t[i..];
    assert NoDup(front) && NoDup(back) && Elems(front) !! Elems(back) by {
      assert t == front + back;
      NoDupConcat(front, back);
    }
    assert Elems(t) == Elems(front) + Elems(back) by {
      assert t == front + back;
      ElemsConcat(front, back);
    }
    var fx := front + [x];
    assert NoDup(fx) && Elems(fx) == Elems(front) + {x} by {
      NoDupConcat(front, [x]);
      ElemsConcat(front, [x]);
    }
    assert InsertAt(t, i, x) == fx + back;
    NoDupConcat(fx, back);
    ElemsConcat(fx, back);
  }

  /** Inserting an element that is not yet there and filtering it out again is the identity. */
  lemma WithoutInsertAt<T>(t: seq<T>, i: nat, x: T)
    requires x !in t && i <= |t|
    ensures Without(InsertAt(t, i, x), x) == t
  {
    var front, back := t[..i], t[i..];
    assert t == front + back;
    assert InsertAt(t, i, x) == front + [x] + back;
    WithoutConcat(front + [x], back, x);
    WithoutConcat(front, [x], x);
    WithoutAbsent(front, x);
    WithoutAbsent(back, x);
  }

  /**
   * Moving the same key twice is the same as moving it once, to the second
   * index: the first move is forgotten because the second filters it out.
   */
  lemma MoveToTwice<T>(s: seq<T>, i: int, j: int, x: T)
    ensures MoveTo(MoveTo(s, i, x), j, x) == MoveTo(s, j, x)
  {
  }

  // ---------------------------------------------------------------------------
  // [...new Set(xs)] and [...a, ...b, ...]

  /** The elements of `s` in order of first occurrence, each once. */
  function Dedup<T(==)>(s: seq<T>): (r: seq<T>)
    ensures NoDup(r) && Elems(r) == Elems(s)
    ensures |r| <= |s|
  {
    if s == [] then []
    else
      var init := s[..|s| - 1];
      var d := Dedup(init);
      assert s == init + [s[|s| - 1]];
      assert Elems(s) == Elems(init) + {s[|s| - 1]};
      if s[|s| - 1] in d then d else d + [s[|s| - 1]]
  }

  /** A duplicate-free sequence is its own de-duplication. */
  lemma {:induction false} DedupOfNoDup<T>(s: seq<T>)
    requires NoDup(s)
    ensures Dedup(s) == s
  {
    if s != [] {
      var init := s[..|s| - 1];
      assert NoDup(init);
      DedupOfNoDup(init);
      assert s[|s| - 1] !in init by {
        assert forall k :: 0 <= k < |init| ==> init[k] == s[k];
      }
      assert s == init + [s[|s| - 1]];
    }
  }

  /**
   * De-duplicating a duplicate-free sequence followed by anything keeps that
   * sequence as the prefix: its elements never move.
   */
  lemma {:induction false} DedupPrefix<T>(a: seq<T>, b: seq<T>)
    requires NoDup(a)
    ensures |Dedup(a + b)| >= |a| && Dedup(a + b)[..|a|] == a
  {
    if b == [] {
      assert a + b == a;
      DedupOfNoDup(a);
    } else {
      var init := b[..|b| - 1];
      assert (a + b)[..|a + b| - 1] == a + init;
      DedupPrefix(a, init);
    }
  }

  /** The position of the first occurrence of `x` in `s`. */
  function FirstIndex<T(==)>(s: seq<T>, x: T): (i: nat)
    requires x in s
    ensures i < |s| && s[i] == x && x !in s[..i]
  {
    if s[0] == x then 0
    else
      var i := 1 + FirstIndex(s[1..], x);
      assert s[..i] == [s[0]] + s[1..][..i - 1];
      i
  }

  /** The first occurrence of an element of `a` in `a + b` lies in `a`. */
  lemma FirstIndexPrefix<T>(a: seq<T>, b: seq<T>, x: T)
    requires x in a
    ensures FirstIndex(a + b, x) == FirstIndex(a, x)
  {
    var k, f := FirstIndex(a, x), FirstIndex(a + b, x);
    assert forall m :: 0 <= m < k ==> (a + b)[m] == a[..k][m] != x;
    assert forall m :: 0 <= m < f ==> (a + b)[m] == (a + b)[..f][m] != x;
    assert (a + b)[k] == x && (a + b)[f] == x;
  }

  /**
   * `[...new Set(xs)]` lists the distinct elements in the order of their
   * first occurrences in `xs`.
   */
  lemma {:induction false} DedupFirstOccurrence<T>(s: seq<T>, i: nat, j: nat)
    requires i < j < |Dedup(s)|
    ensures Dedup(s)[i] in s && Dedup(s)[j] in s
    ensures FirstIndex(s, Dedup(s)[i]) < FirstIndex(s, Dedup(s)[j])
  {
    var init, x := s[..|s| - 1], s[|s| - 1];
    var d := Dedup(init);
    assert s == init + [x];
    assert d[i] in Elems(init) && FirstIndex(s, d[i]) == FirstIndex(init, d[i]) by {
      assert d[i] in Elems(d);
      FirstIndexPrefix(init, [x], d[i]);
    }
    if j < |d| {
      DedupFirstOccurrence(init, i, j);
      assert d[j] in Elems(d);
      FirstIndexPrefix(init, [x], d[j]);
    } else {
      assert x !in init by {
        assert x !in Elems(d);
      }
      assert Dedup(s)[j] == x;
      assert FirstIndex(s, x) == |init| by {
        assert forall m :: 0 <= m < |init| ==> s[m] == init[m] != x;
      }
    }
  }

  /** The concatenation of all sequences in `ss`, left to right. */
  function Flatten<T>(ss: seq<seq<T>>): (r: seq<T>)
    ensures forall j :: 0 <= j < |ss| ==> Elems(ss[j]) <= Elems(r)
    ensures forall i :: 0 <= i < |r| ==> exists j :: 0 <= j < |ss| && r[i] in ss[j]
  {
    if ss == [] then []
    else
      var init := ss[..|ss| - 1];
      var r := Flatten(init) + ss[|ss| - 1];
      assert forall j :: 0 <= j < |init| ==> init[j] == ss[j];
      r
  }

  /** Flattening one more sequence on the right appends it. */
  lemma FlattenSnoc<T>(ss: seq<seq<T>>, s: seq<T>)
    ensures Flatten(ss + [s]) == Flatten(ss) + s
  {
    assert (ss + [s])[..|ss|] == ss;
  }

  /** Concatenating a sequence in front of the others flattens to that sequence followed by the rest. */
  lemma {:induction false} FlattenCons<T>(s: seq<T>, ss: seq<seq<T>>)
    ensures Flatten([s] + ss) == s + Flatten(ss)
  {
    if ss != [] {
      var n := |ss| - 1;
      assert ([s] + ss)[..|ss|] == [s] + ss[..n];
      FlattenCons(s, ss[..n]);
    }
  }

  // ---------------------------------------------------------------------------
  // keys.sort(comparator)

  /**
   * `inverted` never holds both ways between two elements of `s`: a
   * comparator that says "a after b" does not also say "b after a".
   */
  ghost predicate Asymmetric<T>(s: seq<T>, inverted: (T, T) -> bool) {
    forall i, j :: 0 <= i < |s| && 0 <= j < |s| && inverted(s[i], s[j]) ==> !inverted(s[j], s[i])
  }

  /** No two neighbours of `s` are out of order. */
  ghost predicate AdjacentOrdered<T>(s: seq<T>, inverted: (T, T) -> bool) {
    forall i :: 0 <= i < |s| - 1 ==> InOrderAt(s, i, inverted)
  }

  /** The neighbours at `i` and `i + 1` are not out of order. */
  ghost predicate InOrderAt<T>(s: seq<T>, i: nat, inverted: (T, T) -> bool)
    requires i + 1 < |s|
  {
    !inverted(s[i], s[i + 1])
  }

  /**
   * Insertion sort: returns a permutation of `s` that, for a comparator that
   * is asymmetric on `s`, has no neighbours out of order.
   */
  method SortBy<T>(s: seq<T>, inverted: (T, T) -> bool) returns (r: seq<T>)
    ensures multiset(r) == multiset(s)
    ensures Asymmetric(s, inverted) ==> AdjacentOrdered(r, inverted)
  {
    r := s;
    var i := 0;
    while i < |r|
      invariant 0 <= i <= |r| == |s| && multiset(r) == multiset(s)
      invariant Asymmetric(s, inverted) ==> AdjacentOrdered(r[..i], inverted)
    {
      r := Sink(r, i, inverted, s);
      i := i + 1;
    }
    assert r[..i] == r;
  }

  /**
   * One insertion step: moves `r[i]` left past every neighbour it is out of
   * order with, so that an ordered prefix `r[..i]` becomes `r[..i + 1]`.
   */
  method Sink<T>(r0: seq<T>, i: nat, inverted: (T, T) -> bool, ghost s: seq<T>) returns (r: seq<T>)
    requires i < |r0| && multiset(r0) == multiset(s)
    ensures |r| == |r0| && multiset(r) == multiset(s)
    ensures Asymmetric(s, inverted) && AdjacentOrdered(r0[..i], inverted) ==> AdjacentOrdered(r[..i + 1], inverted)
  {
    ghost var asym := Asymmetric(s, inverted) && AdjacentOrdered(r0[..i], inverted);
    r := r0;
    var j := i;
    if asym {
      SinkStart(r, i, inverted);
    }
    while 0 < j && inverted(r[j - 1], r[j])
      invariant 0 <= j <= i < |r| == |r0| && multiset(r) == multiset(s)
      invariant asym ==> Sinking(r, j, i, inverted)
    {
      ghost var prev := r;
      r := r[j - 1 := r[j]][j := r[j - 1]];
      if asym {
        AsymmetricPermutation(s, prev, inverted, j - 1, j);
        SinkStep(prev, j, i, inverted);
      }
      j := j - 1;
    }
    if asym {
      SinkDone(r, j, i, inverted);
    }
  }

  /**
   * The state of an insertion step with the moving element at `j`: the
   * prefix before it and the run after it up to `i` have no neighbours out
   * of order, and the element can be dropped in between them.
   */
  ghost predicate Sinking<T>(r: seq<T>, j: nat, i: nat, inverted: (T, T) -> bool)
    requires j <= i < |r|
  {
    && (forall k :: 0 <= k < j - 1 ==> InOrderAt(r, k, inverted))
    && (forall k :: j < k < i ==> InOrderAt(r, k, inverted))
    && (0 < j < i ==> !inverted(r[j - 1], r[j + 1]))
    && (j < i ==> !inverted(r[j], r[j + 1]))
  }

  /** Asymmetry on `s` carries over to every permutation of `s`. */
  lemma AsymmetricPermutation<T>(s: seq<T>, r: seq<T>, inverted: (T, T) -> bool, a: nat, b: nat)
    requires Asymmetric(s, inverted) && multiset(r) == multiset(s) && a < |r| && b < |r|
    ensures inverted(r[a], r[b]) ==> !inverted(r[b], r[a])
  {
    assert r[a] in multiset(s) && r[b] in multiset(s);
    var a' :| 0 <= a' < |s| && s[a'] == r[a];
    var b' :| 0 <= b' < |s| && s[b'] == r[b];
  }

  /** An insertion step starts with the moving element at `i` after an ordered prefix. */
  lemma SinkStart<T>(r: seq<T>, i: nat, inverted: (T, T) -> bool)
    requires i < |r| && AdjacentOrdered(r[..i], inverted)
    ensures Sinking(r, i, i, inverted)
  {
    forall k | 0 <= k < i - 1 ensures InOrderAt(r, k, inverted) {
      assert InOrderAt(r[..i], k, inverted);
      assert r[..i][k] == r[k] && r[..i][k + 1] == r[k + 1];
    }
  }

  /** Swapping the moving element with an out-of-order left neighbour keeps the step's state. */
  lemma SinkStep<T>(r: seq<T>, j: nat, i: nat, inverted: (T, T) -> bool)
    requires 0 < j <= i < |r| && Sinking(r, j, i, inverted)
    requires !inverted(r[j], r[j - 1])
    ensures Sinking(r[j - 1 := r[j]][j := r[j - 1]], j - 1, i, inverted)
  {
    var t := r[j - 1 := r[j]][j := r[j - 1]];
    forall k | 0 <= k < j - 2 ensures InOrderAt(t, k, inverted) {
      assert InOrderAt(r, k, inverted);
    }
    forall k | j - 1 < k < i ensures InOrderAt(t, k, inverted) {
      if k == j {
        assert t[k] == r[j - 1] && t[k + 1] == r[j + 1];
      } else {
        assert InOrderAt(r, k, inverted);
      }
    }
    if 1 < j {
      assert InOrderAt(r, j - 2, inverted);
    }
  }

  /** When the moving element has stopped, the whole run up to `i` is in order. */
  lemma SinkDone<T>(r: seq<T>, j: nat, i: nat, inverted: (T, T) -> bool)
    requires j <= i < |r| && Sinking(r, j, i, inverted)
    requires j == 0 || !inverted(r[j - 1], r[j])
    ensures AdjacentOrdered(r[..i + 1], inverted)
  {
    var p := r[..i + 1];
    forall k | 0 <= k < |p| - 1 ensures InOrderAt(p, k, inverted) {
      assert p[k] == r[k] && p[k + 1] == r[k + 1];
      if k < j - 1 || j < k {
        assert InOrderAt(r, k, inverted);
      }
    }
  }
}

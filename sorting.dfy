/**
 * `Array.prototype.sort(comparefn)` applied to a fresh copy of a sequence.
 * The host engine's algorithm is not visible; it is modelled as an
 * insertion sort, which is stable: when the comparator is a total preorder
 * on the data, elements it ties keep their input order. A comparator
 * returns a number whose sign
 * says whether its first argument goes after (> 0) or not after (<= 0) the
 * second.
 */
module Sorting {
  import opened Seqs

  /** Every element is not after any later element. */
  ghost predicate Sorted<T>(s: seq<T>, cmp: (T, T) -> real) {
    forall i, j :: 0 <= i < j < |s| ==> cmp(s[i], s[j]) <= 0.0
  }

  /** On the values of `s`, "not after" is total and transitive. */
  ghost predicate PreorderOn<T(!new)>(cmp: (T, T) -> real, s: seq<T>) {
    && (forall a, b :: a in s && b in s ==> cmp(a, b) <= 0.0 || cmp(b, a) <= 0.0)
    && (forall a, b, c :: a in s && b in s && c in s && cmp(a, b) <= 0.0 && cmp(b, c) <= 0.0 ==> cmp(a, c) <= 0.0)
  }

  /**
   * The elements satisfying `last` are placed after all others whatever the
   * rest of the comparator says: nothing goes after one of them, and each of
   * them goes after every other element.
   */
  ghost predicate SinksLast<T(!new)>(cmp: (T, T) -> real, last: T -> bool) {
    && (forall a, b :: last(b) ==> cmp(a, b) <= 0.0)
    && (forall a, b :: last(a) && !last(b) ==> cmp(a, b) > 0.0)
  }

  /** The elements tied with `z`: neither goes after the other. */
  function Ties<T(!new)>(cmp: (T, T) -> real, z: T): (tied: T -> bool)
    ensures forall y :: tied(y) <==> cmp(z, y) <= 0.0 && cmp(y, z) <= 0.0
  {
    (y: T) => cmp(z, y) <= 0.0 && cmp(y, z) <= 0.0
  }

  /**
   * For every element `z` of `among`, the elements of `r` tied with `z`
   * come in the same order, and with the same repeats, as in `s`.
   */
  ghost predicate TiesInOrder<T(!new)>(r: seq<T>, s: seq<T>, cmp: (T, T) -> real, among: seq<T>) {
    forall z | z in among :: Keep(r, Ties(cmp, z)) == Keep(s, Ties(cmp, z))
  }

  /** Once an element satisfying `last` appears, all later ones do too. */
  ghost predicate LastAtEnd<T>(s: seq<T>, last: T -> bool) {
    forall i, j :: 0 <= i < j < |s| && last(s[i]) ==> last(s[j])
  }

  /** Inserting `x` where insertion sort stops keeps a sorted prefix sorted. */
  lemma InsertSorted<T(!new)>(q: seq<T>, j: nat, x: T, cmp: (T, T) -> real, s: seq<T>)
    requires j <= |q|
    requires Sorted(q, cmp)
    requires PreorderOn(cmp, s) && (forall y :: y in q ==> y in s) && x in s
    requires j == 0 || cmp(q[j - 1], x) <= 0.0
    requires forall k :: j <= k < |q| ==> cmp(q[k], x) > 0.0
    ensures Sorted(q[..j] + [x] + q[j..], cmp)
  {
    var r := q[..j] + [x] + q[j..];
    forall p, k | 0 <= p < k < |r| ensures cmp(r[p], r[k]) <= 0.0 {
      if k < j {
        assert r[p] == q[p] && r[k] == q[k];
      } else if k == j {
        assert r[p] == q[p] && r[k] == x;
        if p < j - 1 {
          assert q[p] in s && q[j - 1] in s;
          assert cmp(q[p], q[j - 1]) <= 0.0;
        }
      } else if p == j {
        assert r[p] == x && r[k] == q[k - 1];
        assert q[k - 1] in s;
        assert cmp(q[k - 1], x) > 0.0;
      } else if p < j {
        assert r[p] == q[p] && r[k] == q[k - 1];
      } else {
        assert r[p] == q[p - 1] && r[k] == q[k - 1];
      }
    }
  }

  lemma KeepNone<T>(s: seq<T>, p: T -> bool)
    requires forall i :: 0 <= i < |s| ==> !p(s[i])
    ensures Keep(s, p) == []
  {
  }

  /** A `last` element stops insertion sort at once: it is put at the end. */
  lemma SinkStaysAtEnd<T(!new)>(q: seq<T>, j: nat, x: T, cmp: (T, T) -> real, last: T -> bool)
    requires j <= |q| && SinksLast(cmp, last) && last(x)
    requires j < |q| ==> cmp(q[j], x) > 0.0
    ensures j == |q|
  {
  }

  /** Any other element stops before every `last` element. */
  lemma OthersStopBeforeSinks<T(!new)>(q: seq<T>, j: nat, x: T, cmp: (T, T) -> real, last: T -> bool)
    requires j <= |q| && SinksLast(cmp, last) && LastAtEnd(q, last) && !last(x)
    requires j == 0 || cmp(q[j - 1], x) <= 0.0
    ensures forall p :: 0 <= p < j ==> !last(q[p])
  {
  }

  /**
   * Inserting `x` at `j` keeps the `last` elements at the end, provided no
   * `last` element precedes position `j` unless `x` goes to the very end.
   */
  lemma InsertSinksAtEnd<T>(q: seq<T>, j: nat, x: T, last: T -> bool)
    requires j <= |q| && LastAtEnd(q, last)
    requires last(x) ==> j == |q|
    requires !last(x) ==> forall p :: 0 <= p < j ==> !last(q[p])
    ensures LastAtEnd(q[..j] + [x] + q[j..], last)
  {
    var r := q[..j] + [x] + q[j..];
    if last(x) {
      assert r == q + [x];
      forall p, k | 0 <= p < k < |r| && last(r[p]) ensures last(r[k]) {
        if k < |q| {
          assert r[p] == q[p] && r[k] == q[k];
        }
      }
    } else {
      forall p, k | 0 <= p < k < |r| && last(r[p]) ensures last(r[k]) {
        assert p > j;
        assert r[p] == q[p - 1] && r[k] == q[k - 1];
      }
    }
  }

  /** Under the same conditions the `last` elements keep their relative order. */
  lemma InsertSinksInOrder<T>(q: seq<T>, j: nat, x: T, last: T -> bool)
    requires j <= |q|
    requires last(x) ==> j == |q|
    requires !last(x) ==> forall p :: 0 <= p < j ==> !last(q[p])
    ensures Keep(q[..j] + [x] + q[j..], last) == Keep(q + [x], last)
  {
    if last(x) {
      assert q[..j] + [x] + q[j..] == q + [x];
    } else {
      InsertOtherInOrder(q, j, x, last);
    }
  }

  /** An element that is not `last`, inserted before every `last` element, does not change their sequence. */
  lemma InsertOtherInOrder<T>(q: seq<T>, j: nat, x: T, last: T -> bool)
    requires j <= |q| && !last(x)
    requires forall p :: 0 <= p < j ==> !last(q[p])
    ensures Keep(q[..j] + [x] + q[j..], last) == Keep(q + [x], last)
  {
    InsertedSkipsFront(q, j, x, last);
    UntouchedSkipsFront(q, j, last);
    KeepSnocNone(q, x, last);
  }

  lemma InsertedSkipsFront<T>(q: seq<T>, j: nat, x: T, last: T -> bool)
    requires j <= |q| && !last(x)
    requires forall p :: 0 <= p < j ==> !last(q[p])
    ensures Keep(q[..j] + [x] + q[j..], last) == Keep(q[j..], last)
  {
    var px := q[..j] + [x];
    forall i | 0 <= i < |px| ensures !last(px[i]) {
      if i < j {
        assert px[i] == q[i];
      }
    }
    KeepSkipsPrefix(px, q[j..], last);
  }

  lemma UntouchedSkipsFront<T>(q: seq<T>, j: nat, last: T -> bool)
    requires j <= |q|
    requires forall p :: 0 <= p < j ==> !last(q[p])
    ensures Keep(q, last) == Keep(q[j..], last)
  {
    assert q == q[..j] + q[j..];
    KeepSkipsPrefix(q[..j], q[j..], last);
  }

  lemma KeepSnocNone<T>(q: seq<T>, x: T, last: T -> bool)
    requires !last(x)
    ensures Keep(q + [x], last) == Keep(q, last)
  {
    KeepAppend(q, [x], last);
    KeepNone([x], last);
  }

  /** A prefix with no element satisfying `p` contributes nothing to `Keep`. */
  lemma KeepSkipsPrefix<T>(a: seq<T>, b: seq<T>, p: T -> bool)
    requires forall i :: 0 <= i < |a| ==> !p(a[i])
    ensures Keep(a + b, p) == Keep(b, p)
  {
    KeepAppend(a, b, p);
    KeepNone(a, p);
  }

  /** What insertion sort has achieved once the prefix `p` of the work array holds the first `|p|` input elements. */
  ghost predicate SortedPrefix<T(!new)>(s: seq<T>, p: seq<T>, cmp: (T, T) -> real, last: T -> bool) {
    && |p| <= |s|
    && multiset(p) == multiset(s[..|p|])
    && (PreorderOn(cmp, s) ==> Sorted(p, cmp) && TiesInOrder(p, s[..|p|], cmp, s))
    && (SinksLast(cmp, last) ==> LastAtEnd(p, last) && Keep(p, last) == Keep(s[..|p|], last))
  }

  /** Nothing has been sorted yet. */
  lemma SortedPrefixEmpty<T(!new)>(s: seq<T>, cmp: (T, T) -> real, last: T -> bool)
    ensures SortedPrefix(s, [], cmp, last)
  {
    assert s[..0] == [];
  }

  /** Once the prefix covers the whole input, the sort has met its specification. */
  lemma SortedPrefixDone<T(!new)>(s: seq<T>, r: seq<T>, cmp: (T, T) -> real, last: T -> bool)
    requires |r| == |s| && SortedPrefix(s, r, cmp, last)
    ensures multiset(r) == multiset(s)
    ensures PreorderOn(cmp, s) ==> Sorted(r, cmp) && TiesInOrder(r, s, cmp, s)
    ensures SinksLast(cmp, last) ==> LastAtEnd(r, last) && Keep(r, last) == Keep(s, last)
  {
    assert s[..|r|] == s;
  }

  /** Inserting the next input element keeps the prefix a permutation of the input's prefix. */
  lemma InsertPermutes<T>(s: seq<T>, i: nat, q: seq<T>, j: nat)
    requires i < |s| && |q| == i && j <= i
    requires multiset(q) == multiset(s[..i])
    ensures multiset(q[..j] + [s[i]] + q[j..]) == multiset(s[..i + 1])
  {
    assert s[..i + 1] == s[..i] + [s[i]];
    assert q == q[..j] + q[j..];
  }

  /** Where insertion sort stops for `x` relative to the `last` elements of a prefix that keeps them at its end. */
  lemma StopAroundSinks<T(!new)>(q: seq<T>, j: nat, x: T, cmp: (T, T) -> real, last: T -> bool)
    requires j <= |q| && SinksLast(cmp, last) && LastAtEnd(q, last)
    requires j == 0 || cmp(q[j - 1], x) <= 0.0
    requires j < |q| ==> cmp(q[j], x) > 0.0
    ensures last(x) ==> j == |q|
    ensures !last(x) ==> forall p :: 0 <= p < j ==> !last(q[p])
  {
    if last(x) {
      SinkStaysAtEnd(q, j, x, cmp, last);
    } else {
      OthersStopBeforeSinks(q, j, x, cmp, last);
    }
  }

  /** Inserting the next input element where insertion sort stops keeps the sinks at the end and in input order. */
  lemma InsertKeepsSinks<T(!new)>(s: seq<T>, i: nat, q: seq<T>, j: nat, cmp: (T, T) -> real, last: T -> bool)
    requires i < |s| && |q| == i && j <= i
    requires SinksLast(cmp, last) && LastAtEnd(q, last) && Keep(q, last) == Keep(s[..i], last)
    requires j == 0 || cmp(q[j - 1], s[i]) <= 0.0
    requires j < i ==> cmp(q[j], s[i]) > 0.0
    ensures LastAtEnd(q[..j] + [s[i]] + q[j..], last)
    ensures Keep(q[..j] + [s[i]] + q[j..], last) == Keep(s[..i + 1], last)
  {
    StopAroundSinks(q, j, s[i], cmp, last);
    InsertSinksAtEnd(q, j, s[i], last);
    InsertSinksInOrder(q, j, s[i], last);
    SnocKeep(s, i, q, last);
  }

  /** Appending the next input element to two prefixes with the same sinks keeps their sinks equal. */
  lemma SnocKeep<T>(s: seq<T>, i: nat, q: seq<T>, last: T -> bool)
    requires i < |s| && Keep(q, last) == Keep(s[..i], last)
    ensures Keep(q + [s[i]], last) == Keep(s[..i + 1], last)
  {
    assert s[..i + 1] == s[..i] + [s[i]];
    KeepAppend(q, [s[i]], last);
    KeepAppend(s[..i], [s[i]], last);
  }

  /** Inserting the next input element where insertion sort stops keeps the prefix sorted. */
  lemma InsertKeepsSorted<T(!new)>(s: seq<T>, i: nat, q: seq<T>, j: nat, cmp: (T, T) -> real)
    requires i < |s| && |q| == i && j <= i
    requires multiset(q) == multiset(s[..i])
    requires PreorderOn(cmp, s) && Sorted(q, cmp)
    requires j == 0 || cmp(q[j - 1], s[i]) <= 0.0
    requires forall k :: j <= k < i ==> cmp(q[k], s[i]) > 0.0
    ensures Sorted(q[..j] + [s[i]] + q[j..], cmp)
  {
    forall y | y in q ensures y in s {
      assert y in multiset(q);
      assert y in multiset(s[..i]);
    }
    InsertSorted(q, j, s[i], cmp, s);
  }

  /** One step of insertion sort re-establishes the outer loop's invariant for one more element. */
  lemma InsertStep<T(!new)>(s: seq<T>, i: nat, q: seq<T>, j: nat, cmp: (T, T) -> real, last: T -> bool)
    requires i < |s| && |q| == i && j <= i
    requires SortedPrefix(s, q, cmp, last)
    requires j == 0 || cmp(q[j - 1], s[i]) <= 0.0
    requires forall k :: j <= k < i ==> cmp(q[k], s[i]) > 0.0
    requires j < i ==> cmp(q[j], s[i]) > 0.0
    ensures SortedPrefix(s, q[..j] + [s[i]] + q[j..], cmp, last)
  {
    var r := q[..j] + [s[i]] + q[j..];
    assert |r| == i + 1;
    InsertPermutes(s, i, q, j);
    InsertStepSorted(s, i, q, j, cmp, last);
    InsertStepTies(s, i, q, j, cmp, last);
    InsertStepSinks(s, i, q, j, cmp, last);
  }

  lemma InsertStepSorted<T(!new)>(s: seq<T>, i: nat, q: seq<T>, j: nat, cmp: (T, T) -> real, last: T -> bool)
    requires i < |s| && |q| == i && j <= i
    requires SortedPrefix(s, q, cmp, last)
    requires j == 0 || cmp(q[j - 1], s[i]) <= 0.0
    requires forall k :: j <= k < i ==> cmp(q[k], s[i]) > 0.0
    ensures PreorderOn(cmp, s) ==> Sorted(q[..j] + [s[i]] + q[j..], cmp)
  {
    if PreorderOn(cmp, s) {
      InsertKeepsSorted(s, i, q, j, cmp);
    }
  }

  lemma InsertStepSinks<T(!new)>(s: seq<T>, i: nat, q: seq<T>, j: nat, cmp: (T, T) -> real, last: T -> bool)
    requires i < |s| && |q| == i && j <= i
    requires SortedPrefix(s, q, cmp, last)
    requires j == 0 || cmp(q[j - 1], s[i]) <= 0.0
    requires j < i ==> cmp(q[j], s[i]) > 0.0
    ensures SinksLast(cmp, last) ==>
      LastAtEnd(q[..j] + [s[i]] + q[j..], last) && Keep(q[..j] + [s[i]] + q[j..], last) == Keep(s[..i + 1], last)
  {
    if SinksLast(cmp, last) {
      InsertKeepsSinks(s, i, q, j, cmp, last);
    }
  }

  lemma InsertStepTies<T(!new)>(s: seq<T>, i: nat, q: seq<T>, j: nat, cmp: (T, T) -> real, last: T -> bool)
    requires i < |s| && |q| == i && j <= i
    requires SortedPrefix(s, q, cmp, last)
    requires forall k :: j <= k < i ==> cmp(q[k], s[i]) > 0.0
    ensures PreorderOn(cmp, s) ==> TiesInOrder(q[..j] + [s[i]] + q[j..], s[..i + 1], cmp, s)
  {
    if PreorderOn(cmp, s) {
      forall z | z in s
        ensures Keep(q[..j] + [s[i]] + q[j..], Ties(cmp, z)) == Keep(s[..i + 1], Ties(cmp, z))
      {
        InsertKeepsTies(s, i, q, j, cmp, z);
      }
    }
  }

  /**
   * Insertion sort puts the next element after every element it ties with:
   * the elements it passes all go after it, so none is tied with it.
   */
  lemma InsertKeepsTies<T(!new)>(s: seq<T>, i: nat, q: seq<T>, j: nat, cmp: (T, T) -> real, z: T)
    requires i < |s| && |q| == i && j <= i && z in s
    requires multiset(q) == multiset(s[..i]) && PreorderOn(cmp, s)
    requires Keep(q, Ties(cmp, z)) == Keep(s[..i], Ties(cmp, z))
    requires forall k :: j <= k < i ==> cmp(q[k], s[i]) > 0.0
    ensures Keep(q[..j] + [s[i]] + q[j..], Ties(cmp, z)) == Keep(s[..i + 1], Ties(cmp, z))
  {
    var p := Ties(cmp, z);
    SnocKeep(s, i, q, p);
    if p(s[i]) {
      PassedNotTied(s, i, q, j, cmp, z);
      InsertAfterSkipped(q, j, s[i], p);
    } else {
      KeepSnocNone(q, s[i], p);
      InsertSkipped(q, j, s[i], p);
    }
  }

  /** No element that insertion sort moves past is tied with `z` when the inserted one is. */
  lemma PassedNotTied<T(!new)>(s: seq<T>, i: nat, q: seq<T>, j: nat, cmp: (T, T) -> real, z: T)
    requires i < |s| && |q| == i && j <= i && z in s
    requires multiset(q) == multiset(s[..i]) && PreorderOn(cmp, s)
    requires forall k :: j <= k < i ==> cmp(q[k], s[i]) > 0.0
    requires Ties(cmp, z)(s[i])
    ensures forall k :: 0 <= k < |q[j..]| ==> !Ties(cmp, z)(q[j..][k])
  {
    forall k | 0 <= k < |q[j..]| ensures !Ties(cmp, z)(q[j..][k]) {
      var y := q[j + k];
      assert q[j..][k] == y;
      assert y in multiset(s[..i]);
      assert y in s && s[i] in s;
      assert cmp(y, s[i]) > 0.0;
    }
  }

  /** Inserting `x` in front of elements that `p` skips puts `x` after everything `p` keeps. */
  lemma InsertAfterSkipped<T>(q: seq<T>, j: nat, x: T, p: T -> bool)
    requires j <= |q|
    requires forall k :: 0 <= k < |q[j..]| ==> !p(q[j..][k])
    ensures Keep(q[..j] + [x] + q[j..], p) == Keep(q + [x], p)
  {
    assert q == q[..j] + q[j..];
    KeepNone(q[j..], p);
    KeepAppend(q[..j] + [x], q[j..], p);
    KeepAppend(q[..j], [x], p);
    KeepAppend(q[..j], q[j..], p);
    KeepAppend(q, [x], p);
  }

  /** Inserting an element `p` skips anywhere leaves what `p` keeps unchanged. */
  lemma InsertSkipped<T>(q: seq<T>, j: nat, x: T, p: T -> bool)
    requires j <= |q| && !p(x)
    ensures Keep(q[..j] + [x] + q[j..], p) == Keep(q, p)
  {
    assert q == q[..j] + q[j..];
    KeepAppend(q[..j] + [x], q[j..], p);
    KeepSnocNone(q[..j], x, p);
    KeepAppend(q[..j], q[j..], p);
  }

  /**
   * One pass of insertion sort: moves `a[i]` left past every element of
   * `a[..i]` that goes after it, and reports where it stopped.
   */
  method InsertLeft<T>(a: array<T>, i: nat, cmp: (T, T) -> real) returns (j: nat)
    requires i < a.Length
    modifies a
    ensures j <= i
    ensures a[..i + 1] == old(a[..i])[..j] + [old(a[i])] + old(a[..i])[j..]
    ensures a[i + 1..] == old(a[i + 1..])
    ensures j == 0 || cmp(old(a[..i])[j - 1], old(a[i])) <= 0.0
    ensures forall k :: j <= k < i ==> cmp(old(a[..i])[k], old(a[i])) > 0.0
  {
    var x := a[i];
    ghost var q := a[..i];
    ghost var tail := a[i + 1..];
    j := i;
    while j > 0 && cmp(a[j - 1], x) > 0.0
      invariant 0 <= j <= i
      invariant forall k :: 0 <= k < j ==> a[k] == q[k]
      invariant forall k :: j < k <= i ==> a[k] == q[k - 1]
      invariant forall k :: i < k < a.Length ==> a[k] == old(a[k])
      invariant forall k :: j <= k < i ==> cmp(q[k], x) > 0.0
    {
      a[j] := a[j - 1];
      j := j - 1;
    }
    a[j] := x;
    ghost var r := q[..j] + [x] + q[j..];
    InsertedAt(q, j, x);
    forall k | 0 <= k <= i ensures a[k] == r[k] {
      if k < j {
      } else if k == j {
      } else {
      }
    }
    assert a[..i + 1] == r;
    forall k | 0 <= k < |tail| ensures a[i + 1..][k] == tail[k] {
      assert a[i + 1..][k] == a[i + 1 + k];
    }
    assert a[i + 1..] == tail;
  }

  /** Where the elements land when `x` is inserted at `j`. */
  lemma InsertedAt<T>(q: seq<T>, j: nat, x: T)
    requires j <= |q|
    ensures |q[..j] + [x] + q[j..]| == |q| + 1
    ensures forall k :: 0 <= k < j ==> (q[..j] + [x] + q[j..])[k] == q[k]
    ensures (q[..j] + [x] + q[j..])[j] == x
    ensures forall k :: j < k <= |q| ==> (q[..j] + [x] + q[j..])[k] == q[k - 1]
  {
  }

  /** Moves the next input element into the sorted prefix of the work array. */
  method InsertNext<T(!new)>(a: array<T>, i: nat, ghost s: seq<T>, cmp: (T, T) -> real, ghost last: T -> bool)
    requires i < a.Length == |s| && a[i..] == s[i..]
    requires SortedPrefix(s, a[..i], cmp, last)
    modifies a
    ensures a[i + 1..] == s[i + 1..]
    ensures SortedPrefix(s, a[..i + 1], cmp, last)
  {
    ghost var q := a[..i];
    assert a[i] == s[i];
    var j := InsertLeft(a, i, cmp);
    assert j < i ==> cmp(q[j], s[i]) > 0.0;
    InsertStep(s, i, q, j, cmp, last);
  }

  /**
   * Sorts a copy of `s` (`[...s].sort(cmp)`); `s` itself is a value and is
   * not changed. `last` names a class of elements the comparator always
   * sends to the end (for the table view, the records whose sort key is
   * null or undefined).
   */
  method SortCopy<T(!new)>(s: seq<T>, cmp: (T, T) -> real, ghost last: T -> bool) returns (r: seq<T>)
    ensures multiset(r) == multiset(s)
    ensures PreorderOn(cmp, s) ==> Sorted(r, cmp) && TiesInOrder(r, s, cmp, s)
    ensures SinksLast(cmp, last) ==> LastAtEnd(r, last) && Keep(r, last) == Keep(s, last)
  {
    var a := new T[|s|](k requires 0 <= k < |s| => s[k]);
    var i := 0;
    assert a[..i] == [];
    SortedPrefixEmpty(s, cmp, last);
    while i < a.Length
      invariant 0 <= i <= a.Length == |s|
      invariant a[i..] == s[i..]
      invariant SortedPrefix(s, a[..i], cmp, last)
    {
      InsertNext(a, i, s, cmp, last);
      i := i + 1;
    }
    assert a[..] == a[..a.Length];
    r := a[..];
    SortedPrefixDone(s, r, cmp, last);
  }
}

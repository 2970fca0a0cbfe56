/**
 * The JavaScript array built-ins the application relies on (`filter`,
 * `flatMap`, `Array.from(new Set(...))`, `indexOf`) and the order facts
 * used to state what they keep.
 */
module Seqs {

  /** `a` is an order-preserving sub-list of `b` (what survives a `filter`). */
  predicate Subsequence<T(==)>(a: seq<T>, b: seq<T>)
    decreases |b|
  {
    if a == [] then true
    else if b == [] then false
    else if a[0] == b[0] then Subsequence(a[1..], b[1..])
    else Subsequence(a, b[1..])
  }

  /** Every list is a sub-list of itself. */
  lemma SubsequenceRefl<T>(s: seq<T>)
    ensures Subsequence(s, s)
  {
    if s != [] { SubsequenceRefl(s[1..]); }
  }

  /** No element occurs twice. */
  predicate NoDup<T(==)>(s: seq<T>) {
    forall i, j :: 0 <= i < j < |s| ==> s[i] != s[j]
  }

  /** `s.filter(p)`: the elements satisfying `p`, in their original order. */
  function Filter<T(!new)>(p: T -> bool, s: seq<T>): (r: seq<T>)
    ensures |r| <= |s|
  {
    if s == [] then []
    else if p(s[0]) then [s[0]] + Filter(p, s[1..])
    else Filter(p, s[1..])
  }

  /** The filtered list holds exactly the elements of `s` that satisfy `p`. */
  lemma {:induction false} FilterMembers<T(!new)>(p: T -> bool, s: seq<T>)
    ensures forall x :: x in Filter(p, s) <==> x in s && p(x)
  {
    if s != [] {
      FilterMembers(p, s[1..]);
      assert forall x :: x in s <==> x == s[0] || x in s[1..] by {
        assert s == [s[0]] + s[1..];
      }
    }
  }

  /** The position of the first occurrence of `x` in `s` (`s.indexOf(x)`). */
  function IndexOf<T(==)>(s: seq<T>, x: T): (i: nat)
    requires x in s
    ensures i < |s| && s[i] == x && x !in s[..i]
  {
    if s[0] == x then 0 else 1 + IndexOf(s[1..], x)
  }

  /** `rows.flat()`: the rows concatenated in order. */
  function Flatten<T(!new)>(rows: seq<seq<T>>): (r: seq<T>)
    ensures forall x :: x in r <==> exists i :: 0 <= i < |rows| && x in rows[i]
  {
    if rows == [] then []
    else
      var rest := Flatten(rows[1..]);
      assert forall i :: 1 <= i < |rows| ==> rows[i] == rows[1..][i - 1];
      rows[0] + rest
  }

  /**
   * `Array.from(new Set(s))`: a `Set` remembers insertion order and ignores
   * repeated insertions, so the result keeps the first occurrence of each
   * element. It holds each element of `s` exactly once.
   */
  function Dedup<T(==,!new)>(s: seq<T>): (r: seq<T>)
    ensures NoDup(r)
    ensures forall x :: x in r <==> x in s
    ensures |r| <= |s|
  {
    if s == [] then []
    else
      var d := Dedup(s[..|s| - 1]);
      assert forall x :: x in s <==> x in s[..|s| - 1] || x == s[|s| - 1] by {
        assert s == s[..|s| - 1] + [s[|s| - 1]];
      }
      if s[|s| - 1] in d then d else d + [s[|s| - 1]]
  }

  lemma {:induction false} FilterIsSubsequence<T(!new)>(p: T -> bool, s: seq<T>)
    ensures Subsequence(Filter(p, s), s)
  {
    if s != [] {
      FilterIsSubsequence(p, s[1..]);
      if !p(s[0]) {
        SubsequenceOfTail(Filter(p, s), s);
      }
    }
  }

  /** A sub-list of the tail is a sub-list of the whole. */
  lemma {:induction false} SubsequenceOfTail<T>(a: seq<T>, b: seq<T>)
    requires b != [] && Subsequence(a, b[1..])
    ensures Subsequence(a, b)
    decreases |b|, 0
  {
    if a != [] && a[0] == b[0] {
      SubsequenceDropHead(a, b[1..]);
    }
  }

  /** Dropping the first element of a sub-list keeps it a sub-list. */
  lemma {:induction false} SubsequenceDropHead<T>(a: seq<T>, b: seq<T>)
    requires a != [] && Subsequence(a, b)
    ensures Subsequence(a[1..], b)
    decreases |b|, 1
  {
    if a[0] != b[0] {
      SubsequenceDropHead(a, b[1..]);
    }
    SubsequenceOfTail(a[1..], b);
  }

  /** Filtering distributes over concatenation. */
  lemma {:induction false} FilterConcat<T(!new)>(p: T -> bool, s: seq<T>, t: seq<T>)
    ensures Filter(p, s + t) == Filter(p, s) + Filter(p, t)
  {
    if s == [] {
      assert s + t == t;
    } else {
      var x, tail := s[0], s[1..];
      assert s == [x] + tail && s + t == [x] + (tail + t);
      FilterCons(p, x, tail + t);
      FilterCons(p, x, tail);
      FilterConcat(p, tail, t);
      if p(x) {
        assert [x] + (Filter(p, tail) + Filter(p, t)) == ([x] + Filter(p, tail)) + Filter(p, t);
      }
    }
  }

  /** Filtering a sequence with one more element at its end. */
  lemma FilterSnoc<T(!new)>(p: T -> bool, s: seq<T>, x: T)
    ensures Filter(p, s + [x]) == Filter(p, s) + if p(x) then [x] else []
  {
    FilterConcat(p, s, [x]);
    assert [x][1..] == [];
  }

  /** A filter that every element passes keeps the whole sequence. */
  lemma {:induction false} FilterAll<T(!new)>(p: T -> bool, s: seq<T>)
    requires forall x :: x in s ==> p(x)
    ensures Filter(p, s) == s
  {
    if s != [] { FilterAll(p, s[1..]); }
  }

  /** A filter that no element passes keeps nothing. */
  lemma {:induction false} FilterNone<T(!new)>(p: T -> bool, s: seq<T>)
    requires forall x :: x in s ==> !p(x)
    ensures Filter(p, s) == []
  {
    if s != [] { FilterNone(p, s[1..]); }
  }

  lemma FilterCons<T(!new)>(p: T -> bool, x: T, s: seq<T>)
    ensures Filter(p, [x] + s) == if p(x) then [x] + Filter(p, s) else Filter(p, s)
  {
    assert ([x] + s)[0] == x && ([x] + s)[1..] == s;
  }

  /** Splitting by a predicate and its negation loses and duplicates nothing. */
  lemma {:induction false} FilterPartition<T(!new)>(p: T -> bool, q: T -> bool, s: seq<T>)
    requires forall x :: q(x) == !p(x)
    ensures multiset(Filter(p, s)) + multiset(Filter(q, s)) == multiset(s)
  {
    if s != [] {
      var x, tail := s[0], s[1..];
      assert s == [x] + tail;
      FilterPartition(p, q, tail);
      FilterCons(p, x, tail);
      FilterCons(q, x, tail);
      assert multiset(s) == multiset{x} + multiset(tail);
      if p(x) {
        assert multiset(Filter(p, s)) == multiset{x} + multiset(Filter(p, tail));
      } else {
        assert multiset(Filter(q, s)) == multiset{x} + multiset(Filter(q, tail));
      }
    }
  }

  /** An element occurring before the end of a list is found at the same place after an append. */
  lemma IndexOfAppend<T>(s: seq<T>, x: T, y: T)
    requires y in s
    ensures IndexOf(s + [x], y) == IndexOf(s, y)
  {
    var i := IndexOf(s, y);
    assert (s + [x])[..i] == s[..i];
    IndexOfUnique(s + [x], y, i);
  }

  /** The first occurrence is the one with nothing equal before it. */
  lemma {:induction false} IndexOfUnique<T>(s: seq<T>, x: T, i: nat)
    requires i < |s| && s[i] == x && x !in s[..i]
    ensures IndexOf(s, x) == i
  {
    if s[0] != x {
      assert i > 0;
      assert s[1..][..i - 1] == s[..i][1..];
      IndexOfUnique(s[1..], x, i - 1);
    }
  }

  /**
   * `Dedup` keeps elements in the order of their first occurrence: an
   * element comes earlier in the result exactly when it first occurred
   * earlier in the input.
   */
  lemma {:induction false} DedupFirstOccurrenceOrder<T(!new)>(s: seq<T>)
    ensures forall i, j :: 0 <= i < j < |Dedup(s)| ==> IndexOf(s, Dedup(s)[i]) < IndexOf(s, Dedup(s)[j])
  {
    if s != [] {
      var init, x := s[..|s| - 1], s[|s| - 1];
      assert s == init + [x];
      var d := Dedup(init);
      DedupFirstOccurrenceOrder(init);
      assert forall i, j :: 0 <= i < j < |d| ==> IndexOf(init, d[i]) < IndexOf(init, d[j]);
      var r := Dedup(s);
      if x in d {
        assert r == d;
        forall i, j | 0 <= i < j < |r| ensures IndexOf(s, r[i]) < IndexOf(s, r[j]) {
          IndexOfAppend(init, x, r[i]);
          IndexOfAppend(init, x, r[j]);
          assert IndexOf(init, d[i]) < IndexOf(init, d[j]);
        }
      } else {
        assert r == d + [x];
        assert x !in init;
        IndexOfUnique(s, x, |s| - 1);
        forall i, j | 0 <= i < j < |r| ensures IndexOf(s, r[i]) < IndexOf(s, r[j]) {
          assert r[i] == d[i];
          IndexOfAppend(init, x, r[i]);
          if j < |d| {
            assert r[j] == d[j];
            IndexOfAppend(init, x, r[j]);
            assert IndexOf(init, d[i]) < IndexOf(init, d[j]);
          }
        }
      }
    }
  }

  /** Each element is kept as often as it occurs, if it satisfies `p`, and dropped otherwise. */
  lemma {:induction false} FilterCount<T(!new)>(p: T -> bool, s: seq<T>, x: T)
    ensures multiset(Filter(p, s))[x] == if p(x) then multiset(s)[x] else 0
  {
    if s != [] {
      FilterCount(p, s[1..], x);
      assert s == [s[0]] + s[1..];
    }
  }

  /** Filtering by a weaker predicate keeps everything a stronger one keeps, in the same order. */
  lemma {:induction false} FilterMonotone<T(!new)>(p: T -> bool, q: T -> bool, s: seq<T>)
    requires forall x :: p(x) ==> q(x)
    ensures Subsequence(Filter(p, s), Filter(q, s))
  {
    if s != [] {
      FilterMonotone(p, q, s[1..]);
      if q(s[0]) && !p(s[0]) {
        SubsequenceOfTail(Filter(p, s), Filter(q, s));
      }
    }
  }
}

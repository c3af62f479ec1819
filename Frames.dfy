/**
 * Cells and the sequence operations that pandas applies to whole columns and
 * tables: numeric coercion, filtering and duplicate removal.
 */
module Frames {
  import opened Wrappers

  /**
   * A cell as pandas holds it after reading a CSV or a JSON payload: a number
   * (every numeric literal, whether pandas stored it as a number or as text),
   * a text that does not read as a number, or a missing value (NaN or None).
   */
  datatype Cell = Num(x: real) | Text(s: string) | Null

  /** pd.to_numeric(..., errors="coerce") on one cell: anything that is not a number becomes NaN. */
  function ToNumeric(c: Cell): Option<real>
  {
    if c.Num? then Some(c.x) else None
  }

  /** The values of the non-missing entries of a numeric column, in order. */
  function Present(col: seq<Option<real>>): (r: seq<real>)
    ensures |r| <= |col|
    ensures forall v :: v in r <==> Some(v) in col
  {
    if col == [] then []
    else
      var rest := Present(col[1..]);
      assert forall v :: Some(v) in col <==> col[0] == Some(v) || Some(v) in col[1..];
      if col[0].Some? then [col[0].value] + rest else rest
  }

  /** No element occurs twice. */
  predicate NoDuplicates<T(==)>(s: seq<T>)
  {
    forall i, j :: 0 <= i < j < |s| ==> s[i] != s[j]
  }

  /** r is s with some elements left out, the rest in their original order. */
  predicate IsSubsequence<T(==)>(r: seq<T>, s: seq<T>)
    decreases |s|
  {
    if r == [] then true
    else if s == [] then false
    else if r[|r| - 1] == s[|s| - 1] then IsSubsequence(r[..|r| - 1], s[..|s| - 1])
    else IsSubsequence(r, s[..|s| - 1])
  }

  /** Moving a piece from the rest to the done part keeps the whole. */
  lemma Regroup<T>(done: seq<T>, piece: seq<T>, rest: seq<T>, remaining: seq<T>)
    requires piece + rest == remaining
    ensures (done + piece) + rest == done + remaining
  {
  }

  lemma {:induction false} SubsequenceRefl<T>(s: seq<T>)
    ensures IsSubsequence(s, s)
    decreases |s|
  {
    if s != [] {
      SubsequenceRefl(s[..|s| - 1]);
    }
  }

  lemma {:induction false} SubsequenceBounds<T>(r: seq<T>, s: seq<T>)
    requires IsSubsequence(r, s)
    ensures |r| <= |s|
    ensures forall x :: x in r ==> x in s
    decreases |s|
  {
    if r != [] {
      assert s != [];
      if r[|r| - 1] == s[|s| - 1] {
        SubsequenceBounds(r[..|r| - 1], s[..|s| - 1]);
        assert r == r[..|r| - 1] + [r[|r| - 1]];
        assert s == s[..|s| - 1] + [s[|s| - 1]];
      } else {
        SubsequenceBounds(r, s[..|s| - 1]);
        assert s == s[..|s| - 1] + [s[|s| - 1]];
      }
    }
  }

  /** Dropping the last element of a subsequence leaves a subsequence. */
  lemma {:induction false} SubsequenceDropLast<T>(r: seq<T>, s: seq<T>)
    requires r != []
    requires IsSubsequence(r, s)
    ensures IsSubsequence(r[..|r| - 1], s)
    decreases |s|, 0
  {
    var s' := s[..|s| - 1];
    assert s' + [s[|s| - 1]] == s;
    if r[|r| - 1] == s[|s| - 1] {
      SubsequenceExtend(r[..|r| - 1], s', s[|s| - 1]);
    } else {
      SubsequenceDropLast(r, s');
      SubsequenceExtend(r[..|r| - 1], s', s[|s| - 1]);
    }
  }

  /** A subsequence of s is a subsequence of s extended by one element. */
  lemma {:induction false} SubsequenceExtend<T>(r: seq<T>, s: seq<T>, x: T)
    requires IsSubsequence(r, s)
    ensures IsSubsequence(r, s + [x])
    decreases |s|, 1
  {
    assert (s + [x])[..|s + [x]| - 1] == s;
    if r != [] && r[|r| - 1] == x {
      SubsequenceDropLast(r, s);
    }
  }

  lemma {:induction false} SubsequenceOfSnoc<T>(r: seq<T>, s: seq<T>, x: T)
    requires IsSubsequence(r, s)
    ensures IsSubsequence(r, s + [x]) && IsSubsequence(r + [x], s + [x])
  {
    SubsequenceExtend(r, s, x);
    assert (r + [x])[..|r + [x]| - 1] == r;
    assert (s + [x])[..|s + [x]| - 1] == s;
  }

  /** Subsequences of two sequences concatenate to a subsequence of their concatenation. */
  lemma {:induction false} SubsequenceConcat<T>(a: seq<T>, b: seq<T>, c: seq<T>, d: seq<T>)
    requires IsSubsequence(a, b) && IsSubsequence(c, d)
    ensures IsSubsequence(a + c, b + d)
    decreases |d|
  {
    if d == [] {
      assert c == [];
      assert a + c == a && b + d == b;
    } else {
      var d', x := d[..|d| - 1], d[|d| - 1];
      assert b + d == (b + d') + [x];
      if c != [] && c[|c| - 1] == x {
        var c' := c[..|c| - 1];
        SubsequenceConcat(a, b, c', d');
        SubsequenceOfSnoc(a + c', b + d', x);
        assert a + c == (a + c') + [x];
      } else {
        SubsequenceConcat(a, b, c, d');
        SubsequenceExtend(a + c, b + d', x);
      }
    }
  }

  /** data[i:i + size] in Python's clamping slice semantics, for 0 <= i. */
  function Slice<T>(data: seq<T>, i: nat, size: nat): (r: seq<T>)
    ensures |r| <= size
    ensures i < |data| && size > 0 ==> r != []
    ensures i + size <= |data| ==> r == data[i..i + size]
  {
    if i >= |data| then [] else if i + size <= |data| then data[i..i + size] else data[i..]
  }

  /** f applied to every element: a list comprehension or an element-wise pandas operation. */
  function Map<A, B>(f: A -> B, s: seq<A>): (r: seq<B>)
    ensures |r| == |s|
    ensures forall i :: 0 <= i < |s| ==> r[i] == f(s[i])
  {
    seq(|s|, i requires 0 <= i < |s| => f(s[i]))
  }

  lemma MapSnoc<A, B>(f: A -> B, s: seq<A>, x: A)
    ensures Map(f, s + [x]) == Map(f, s) + [f(x)]
  {
  }

  /** The elements of s that satisfy p, in their original order. */
  function Filter<T(!new)>(p: T -> bool, s: seq<T>): (r: seq<T>)
    ensures |r| <= |s|
    ensures forall x :: x in r <==> x in s && p(x)
    ensures forall i :: 0 <= i < |r| ==> p(r[i])
  {
    if s == [] then []
    else
      var rest := Filter(p, s[..|s| - 1]);
      assert s == s[..|s| - 1] + [s[|s| - 1]];
      if p(s[|s| - 1]) then rest + [s[|s| - 1]] else rest
  }

  lemma {:induction false} FilterIsSubsequence<T(!new)>(p: T -> bool, s: seq<T>)
    ensures IsSubsequence(Filter(p, s), s)
  {
    if s != [] {
      var s' := s[..|s| - 1];
      FilterIsSubsequence(p, s');
      SubsequenceOfSnoc(Filter(p, s'), s', s[|s| - 1]);
      assert s' + [s[|s| - 1]] == s;
    }
  }

  /** Filtering a sequence with a head filters the head, then the rest. */
  lemma {:induction false} FilterCons<T(!new)>(p: T -> bool, x: T, s: seq<T>)
    ensures Filter(p, [x] + s) == (if p(x) then [x] else []) + Filter(p, s)
    decreases |s|
  {
    if s != [] {
      var s', l := s[..|s| - 1], s[|s| - 1];
      assert ([x] + s)[..|s|] == [x] + s' && ([x] + s)[|s|] == l;
      assert Filter(p, [x] + s) == Filter(p, [x] + s') + (if p(l) then [l] else []);
      assert Filter(p, s) == Filter(p, s') + (if p(l) then [l] else []);
      FilterCons(p, x, s');
    }
  }

  /** Map over a concatenation is the concatenation of the maps. */
  lemma MapConcat<A, B>(f: A -> B, a: seq<A>, b: seq<A>)
    ensures Map(f, a + b) == Map(f, a) + Map(f, b)
  {
  }

  /** Keeping and transforming a sequence with a head handles the head, then the rest. */
  lemma MapFilterCons<A(!new), B>(f: A -> B, p: A -> bool, x: A, s: seq<A>)
    ensures Map(f, Filter(p, [x] + s)) == (if p(x) then [f(x)] else []) + Map(f, Filter(p, s))
  {
    FilterCons(p, x, s);
    MapConcat(f, if p(x) then [x] else [], Filter(p, s));
    assert Map(f, if p(x) then [x] else []) == (if p(x) then [f(x)] else []);
  }

  /** The transformed kept elements are exactly the images of the elements p accepts. */
  lemma KeptImages<A(!new), B>(f: A -> B, p: A -> bool, s: seq<A>)
    ensures forall x :: x in s && p(x) ==> f(x) in Map(f, Filter(p, s))
    ensures forall y :: y in Map(f, Filter(p, s)) ==> exists x :: x in s && p(x) && y == f(x)
  {
    var kept := Filter(p, s);
    var r := Map(f, kept);
    forall x | x in s && p(x) ensures f(x) in r {
      var k :| 0 <= k < |kept| && kept[k] == x;
      assert r[k] == f(x);
    }
    forall y | y in r ensures exists x :: x in s && p(x) && y == f(x) {
      var k :| 0 <= k < |r| && r[k] == y;
      assert kept[k] in kept;
    }
  }

  /** Filtering with a predicate every element already satisfies changes nothing. */
  lemma {:induction false} FilterAllKept<T(!new)>(p: T -> bool, s: seq<T>)
    requires forall i :: 0 <= i < |s| ==> p(s[i])
    ensures Filter(p, s) == s
  {
    if s != [] {
      FilterAllKept(p, s[..|s| - 1]);
      assert s[..|s| - 1] + [s[|s| - 1]] == s;
    }
  }

  /**
   * DataFrame.drop_duplicates(): keeps the first occurrence of every distinct
   * element, in order.
   */
  function DropDuplicates<T(==,!new)>(s: seq<T>): (r: seq<T>)
    ensures NoDuplicates(r)
    ensures forall x :: x in r <==> x in s
    ensures |r| <= |s|
    ensures FirstOccurrenceOrder(r, s)
  {
    if s == [] then []
    else
      var rest := DropDuplicates(s[..|s| - 1]);
      var last := s[|s| - 1];
      assert s == s[..|s| - 1] + [last];
      DropDuplicatesStep(s[..|s| - 1], last, rest);
      if last in rest then rest else rest + [last]
  }

  /** The elements of r come in the order of their first occurrences in s. */
  predicate FirstOccurrenceOrder<T(==)>(r: seq<T>, s: seq<T>)
  {
    forall i, j :: 0 <= i < j < |r| ==> IndexOf(s, r[i]) < IndexOf(s, r[j])
  }

  /** Appending an element does not move the first occurrence of an element already present. */
  lemma IndexOfSnoc<T>(s: seq<T>, l: T, x: T)
    requires x in s
    ensures IndexOf(s + [l], x) == IndexOf(s, x)
  {
    var k, k' := IndexOf(s, x), IndexOf(s + [l], x);
    assert (s + [l])[..k'] == s[..k'] || k' == |s|;
    if k' < k {
      assert false;
    } else if k < k' {
      assert false;
    }
  }

  /** An element new to s first occurs at the end of s + [l]. */
  lemma IndexOfSnocNew<T>(s: seq<T>, l: T)
    requires l !in s
    ensures IndexOf(s + [l], l) == |s|
  {
  }

  lemma DropDuplicatesStep<T>(s: seq<T>, last: T, rest: seq<T>)
    requires FirstOccurrenceOrder(rest, s) && forall x :: x in rest <==> x in s
    ensures FirstOccurrenceOrder(if last in rest then rest else rest + [last], s + [last])
  {
    forall x | x in rest ensures IndexOf(s + [last], x) == IndexOf(s, x) {
      IndexOfSnoc(s, last, x);
    }
    if last !in rest {
      IndexOfSnocNew(s, last);
      var r := rest + [last];
      forall i, j | 0 <= i < j < |r| ensures IndexOf(s + [last], r[i]) < IndexOf(s + [last], r[j]) {
        assert r[i] in rest;
        if j < |rest| {
          assert r[j] in rest;
        }
      }
    }
  }

  lemma {:induction false} DropDuplicatesIsSubsequence<T(!new)>(s: seq<T>)
    ensures IsSubsequence(DropDuplicates(s), s)
  {
    if s != [] {
      var s' := s[..|s| - 1];
      DropDuplicatesIsSubsequence(s');
      SubsequenceOfSnoc(DropDuplicates(s'), s', s[|s| - 1]);
      assert s' + [s[|s| - 1]] == s;
    }
  }

  /** A sequence without duplicates is left exactly as it is. */
  lemma {:induction false} DropDuplicatesOfDistinct<T(!new)>(s: seq<T>)
    requires NoDuplicates(s)
    ensures DropDuplicates(s) == s
  {
    if s != [] {
      var s' := s[..|s| - 1];
      assert NoDuplicates(s');
      DropDuplicatesOfDistinct(s');
      assert s[|s| - 1] !in s';
    }
  }

  /** A sub-sequence of a sequence without duplicates has none either. */
  lemma {:induction false} SubsequenceOfDistinct<T>(r: seq<T>, s: seq<T>)
    requires IsSubsequence(r, s) && NoDuplicates(s)
    ensures NoDuplicates(r)
    decreases |s|
  {
    if r != [] {
      var s' := s[..|s| - 1];
      assert NoDuplicates(s');
      if r[|r| - 1] == s[|s| - 1] {
        var r' := r[..|r| - 1];
        SubsequenceOfDistinct(r', s');
        SubsequenceBounds(r', s');
        forall i | 0 <= i < |r'| ensures r'[i] != r[|r| - 1] {
          assert r'[i] in s';
        }
      } else {
        SubsequenceOfDistinct(r, s');
      }
    }
  }

  /** Two sequences without duplicates and without common elements concatenate to one without duplicates. */
  lemma AppendDistinct<T>(a: seq<T>, b: seq<T>)
    requires NoDuplicates(a) && NoDuplicates(b)
    requires forall x :: x in b ==> x !in a
    ensures NoDuplicates(a + b)
  {
    var ab := a + b;
    forall i, j | 0 <= i < j < |ab| ensures ab[i] != ab[j] {
      if i < |a| && j >= |a| {
        assert ab[j] == b[j - |a|];
        assert ab[j] in b;
      } else if i >= |a| {
        assert ab[i] == b[i - |a|] && ab[j] == b[j - |a|];
      }
    }
  }

  /** Filtering with two predicates that agree on s gives the same result. */
  lemma {:induction false} FilterSamePredicate<T(!new)>(p: T -> bool, q: T -> bool, s: seq<T>)
    requires forall x :: x in s ==> p(x) == q(x)
    ensures Filter(p, s) == Filter(q, s)
  {
    if s != [] {
      var s' := s[..|s| - 1];
      assert forall x :: x in s' ==> x in s;
      FilterSamePredicate(p, q, s');
      assert s[|s| - 1] in s;
    }
  }

  /** Filtering with a predicate no element satisfies leaves nothing. */
  lemma {:induction false} FilterNone<T(!new)>(p: T -> bool, s: seq<T>)
    requires forall x :: x in s ==> !p(x)
    ensures Filter(p, s) == []
  {
    if s != [] {
      var s' := s[..|s| - 1];
      assert forall x :: x in s' ==> x in s;
      FilterNone(p, s');
      assert s[|s| - 1] in s;
    }
  }

  /** When at most one position satisfies p, the filter keeps at most one element. */
  lemma {:induction false} FilterAtMostOne<T(!new)>(p: T -> bool, s: seq<T>)
    requires forall i, j :: 0 <= i < j < |s| && p(s[i]) ==> !p(s[j])
    ensures |Filter(p, s)| <= 1
  {
    if s != [] {
      var s' := s[..|s| - 1];
      FilterAtMostOne(p, s');
      if p(s[|s| - 1]) {
        forall x | x in s' ensures !p(x) {
          var i :| 0 <= i < |s'| && s'[i] == x;
          assert s[i] == x;
        }
        FilterNone(p, s');
      }
    }
  }

  /** A subsequence of a subsequence of s is a subsequence of s. */
  lemma {:induction false} SubsequenceTransitive<T>(a: seq<T>, b: seq<T>, c: seq<T>)
    requires IsSubsequence(a, b) && IsSubsequence(b, c)
    ensures IsSubsequence(a, c)
    decreases |c|
  {
    if b == [] {
      assert a == [];
    } else {
      assert c != [];
      var c', x := c[..|c| - 1], c[|c| - 1];
      assert c == c' + [x];
      if b[|b| - 1] == x {
        if a != [] && a[|a| - 1] == x {
          SubsequenceTransitive(a[..|a| - 1], b[..|b| - 1], c');
        } else {
          if a != [] {
            assert a[|a| - 1] != b[|b| - 1];
          }
          SubsequenceTransitive(a, b[..|b| - 1], c');
          SubsequenceExtend(a, c', x);
        }
      } else {
        SubsequenceTransitive(a, b, c');
        SubsequenceExtend(a, c', x);
      }
    }
  }

  /** Filtering keeps the order of first occurrences. */
  lemma {:induction false} FilterIndexOrder<T(!new)>(p: T -> bool, s: seq<T>, x: T, y: T)
    requires x in Filter(p, s) && y in Filter(p, s)
    requires IndexOf(Filter(p, s), x) < IndexOf(Filter(p, s), y)
    ensures IndexOf(s, x) < IndexOf(s, y)
    decreases |s|
  {
    var s', l := s[..|s| - 1], s[|s| - 1];
    var f' := Filter(p, s');
    assert s == s' + [l];
    assert Filter(p, s) == if p(l) then f' + [l] else f';
    if x in f' && y in f' {
      if p(l) {
        IndexOfSnoc(f', l, x);
        IndexOfSnoc(f', l, y);
      }
      FilterIndexOrder(p, s', x, y);
      IndexOfSnoc(s', l, x);
      IndexOfSnoc(s', l, y);
    } else if y !in f' {
      assert y == l && p(l) && l !in s';
      IndexOfSnocNew(s', l);
      if x == y {
        assert false;
      }
      IndexOfSnoc(s', l, x);
    } else {
      assert false;
    }
  }

  /** An order of first occurrences in a filtered sequence is one in the whole sequence. */
  lemma FilterKeepsFirstOccurrenceOrder<T(!new)>(p: T -> bool, s: seq<T>, r: seq<T>)
    requires FirstOccurrenceOrder(r, Filter(p, s)) && forall x :: x in r ==> x in Filter(p, s)
    ensures FirstOccurrenceOrder(r, s)
  {
    forall i, j | 0 <= i < j < |r| ensures IndexOf(s, r[i]) < IndexOf(s, r[j]) {
      FilterIndexOrder(p, s, r[i], r[j]);
    }
  }

  /** In a sequence without duplicates, an element's first occurrence is its position. */
  lemma {:induction false} IndexOfDistinct<T>(s: seq<T>, i: int)
    requires NoDuplicates(s) && 0 <= i < |s|
    ensures IndexOf(s, s[i]) == i
  {
    if i > 0 {
      assert s[0] != s[i];
      assert s[1..][i - 1] == s[i];
      IndexOfDistinct(s[1..], i - 1);
    }
  }

  /** The first occurrence of x in s; |s| when x does not occur. */
  function IndexOf<T(==)>(s: seq<T>, x: T): (i: nat)
    ensures i <= |s|
    ensures i < |s| <==> x in s
    ensures i < |s| ==> s[i] == x && x !in s[..i]
  {
    if s == [] then 0
    else if s[0] == x then 0
    else
      var k := IndexOf(s[1..], x);
      assert s[1..][..k] == s[1..k + 1];
      1 + k
  }
}

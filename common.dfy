/** Small value types and sequence helpers shared by every module. */
module Common {

  datatype Option<T> = None | Some(value: T)

  /** The value `datetime.datetime.now()` would produce; the model never looks inside it. */
  datatype Timestamp = Timestamp(ticks: int)

  /** Index of the first element of `s` satisfying `p` (what `query(...).filter_by(...).first()` picks). */
  function FirstIndex<T>(s: seq<T>, p: T -> bool): (r: Option<nat>)
    ensures r.Some? ==> r.value < |s| && p(s[r.value]) && forall j :: 0 <= j < r.value ==> !p(s[j])
    ensures r.None? <==> forall j :: 0 <= j < |s| ==> !p(s[j])
  {
    if |s| == 0 then None
    else if p(s[0]) then Some(0)
    else
      match FirstIndex(s[1..], p)
      case None => None
      case Some(k) => Some(k + 1)
  }

  /** The largest element of a non-empty sequence. */
  function Max(ids: seq<int>): (m: int)
    requires |ids| > 0
    ensures m in ids
    ensures forall i :: 0 <= i < |ids| ==> ids[i] <= m
  {
    if |ids| == 1 then ids[0]
    else
      var rest := Max(ids[1..]);
      assert rest in ids by { assert rest in ids[1..]; }
      if ids[0] >= rest then ids[0] else rest
  }

  /** The id rule of the repository: current largest id plus one, or 1 for an empty table. */
  function NextId(ids: seq<int>): (r: int)
    ensures forall i :: 0 <= i < |ids| ==> ids[i] < r
    ensures |ids| == 0 ==> r == 1
    ensures |ids| > 0 ==> r - 1 in ids
  {
    if |ids| == 0 then 1 else Max(ids) + 1
  }

  /** No value occurs twice. */
  predicate Distinct<T(==)>(s: seq<T>) {
    forall i, j :: 0 <= i < j < |s| ==> s[i] != s[j]
  }

  /** A fresh id from `NextId` keeps a distinct sequence of ids distinct. */
  lemma AppendNextDistinct(ids: seq<int>)
    requires Distinct(ids)
    ensures Distinct(ids + [NextId(ids)])
  {
    var r := ids + [NextId(ids)];
    forall i, j | 0 <= i < j < |r| ensures r[i] != r[j] {
      if j == |ids| { assert r[i] == ids[i]; } else { assert r[i] == ids[i] && r[j] == ids[j]; }
    }
  }

  /** `s` with the element at index `i` taken out. */
  function RemoveAt<T>(s: seq<T>, i: nat): (r: seq<T>)
    requires i < |s|
    ensures |r| == |s| - 1
    ensures forall j :: 0 <= j < i ==> r[j] == s[j]
    ensures forall j :: i <= j < |r| ==> r[j] == s[j + 1]
  {
    s[..i] + s[i + 1..]
  }

  /** `t` occurs in `s` as a contiguous block (Python's `t in s` on strings). */
  predicate IsSubstring(t: string, s: string)
    decreases |s|
  {
    if |t| > |s| then false
    else if s[..|t|] == t then true
    else IsSubstring(t, s[1..])
  }

  lemma {:induction false} IsSubstringOfConcat(t: string, a: string, b: string)
    requires IsSubstring(t, b)
    ensures IsSubstring(t, a + b)
    decreases |a|
  {
    if |a| > 0 {
      IsSubstringOfConcat(t, a[1..], b);
      assert (a + b)[1..] == a[1..] + b;
    } else {
      assert a + b == b;
    }
  }

  /** The elements of `s` for which `p` holds, in order (a SQL WHERE over a table). */
  function Filter<T(!new)>(s: seq<T>, p: T -> bool): (r: seq<T>)
    ensures |r| <= |s|
    ensures forall x :: x in r <==> x in s && p(x)
  {
    if |s| == 0 then []
    else if p(s[0]) then [s[0]] + Filter(s[1..], p)
    else Filter(s[1..], p)
  }

  lemma {:induction false} FilterPairwise<T(!new)>(s: seq<T>, p: T -> bool, rel: (T, T) -> bool)
    requires forall i, j :: 0 <= i < j < |s| ==> rel(s[i], s[j])
    ensures forall i, j :: 0 <= i < j < |Filter(s, p)| ==> rel(Filter(s, p)[i], Filter(s, p)[j])
    decreases |s|
  {
    if |s| > 0 {
      FilterPairwise(s[1..], p, rel);
      var rest := Filter(s[1..], p);
      if p(s[0]) {
        var r := [s[0]] + rest;
        forall i, j | 0 <= i < j < |r| ensures rel(r[i], r[j]) {
          if i == 0 {
            assert r[j] in s[1..];
            var k :| 0 <= k < |s[1..]| && s[1..][k] == r[j];
            assert s[k + 1] == r[j];
          } else {
            assert r[i] == rest[i - 1] && r[j] == rest[j - 1];
          }
        }
      }
    }
  }

  /** Filtering a sequence extended by one element extends the filtered sequence by that element, if it passes. */
  lemma {:induction false} FilterSnoc<T(!new)>(s: seq<T>, x: T, p: T -> bool)
    ensures Filter(s + [x], p) == Filter(s, p) + (if p(x) then [x] else [])
    decreases |s|
  {
    if |s| == 0 {
      assert s + [x] == [x];
    } else {
      assert (s + [x])[1..] == s[1..] + [x];
      FilterSnoc(s[1..], x, p);
    }
  }

  /** Filtering a concatenation filters each part. */
  lemma {:induction false} FilterAppend<T(!new)>(a: seq<T>, b: seq<T>, p: T -> bool)
    ensures Filter(a + b, p) == Filter(a, p) + Filter(b, p)
    decreases |a|
  {
    if |a| == 0 {
      assert a + b == b;
    } else {
      assert (a + b)[1..] == a[1..] + b;
      FilterAppend(a[1..], b, p);
    }
  }

  /** Filtering twice is filtering once by both conditions. */
  lemma {:induction false} FilterFilter<T(!new)>(s: seq<T>, p: T -> bool, q: T -> bool, pq: T -> bool)
    requires forall x :: pq(x) == (p(x) && q(x))
    ensures Filter(Filter(s, p), q) == Filter(s, pq)
    decreases |s|
  {
    if |s| > 0 {
      FilterFilter(s[1..], p, q, pq);
      if p(s[0]) {
        assert Filter(s, p) == [s[0]] + Filter(s[1..], p);
        assert (Filter(s, p))[1..] == Filter(s[1..], p);
      }
    }
  }

  /** Filters by conditions that agree on every element are equal. */
  lemma {:induction false} FilterCongruent<T(!new)>(s: seq<T>, p: T -> bool, q: T -> bool)
    requires forall i :: 0 <= i < |s| ==> p(s[i]) == q(s[i])
    ensures Filter(s, p) == Filter(s, q)
    decreases |s|
  {
    if |s| > 0 {
      FilterCongruent(s[1..], p, q);
    }
  }

  /** The first element a filter keeps is the first element that passes. */
  lemma {:induction false} FilterFirst<T(!new)>(s: seq<T>, p: T -> bool)
    ensures |Filter(s, p)| > 0 <==> FirstIndex(s, p).Some?
    ensures |Filter(s, p)| > 0 ==> Filter(s, p)[0] == s[FirstIndex(s, p).value]
    decreases |s|
  {
    if |s| > 0 && !p(s[0]) {
      FilterFirst(s[1..], p);
    }
  }

  /** The distinct elements of `s`, each at its first occurrence (SQL DISTINCT). */
  function Dedup<T(==,!new)>(s: seq<T>): (r: seq<T>)
    ensures Distinct(r)
    ensures forall x :: x in r <==> x in s
    ensures |r| <= |s|
  {
    if |s| == 0 then []
    else
      var d := Dedup(s[..|s| - 1]);
      assert forall x :: x in s <==> x in s[..|s| - 1] || x == s[|s| - 1] by {
        assert s == s[..|s| - 1] + [s[|s| - 1]];
      }
      if s[|s| - 1] in d then d else d + [s[|s| - 1]]
  }

  /** Taking an element out keeps a relation that held between every earlier and later element. */
  lemma RemoveAtPairwise<T>(s: seq<T>, i: nat, rel: (T, T) -> bool)
    requires i < |s|
    requires forall a, b :: 0 <= a < b < |s| ==> rel(s[a], s[b])
    ensures forall a, b :: 0 <= a < b < |RemoveAt(s, i)| ==> rel(RemoveAt(s, i)[a], RemoveAt(s, i)[b])
  {
    var r := RemoveAt(s, i);
    forall a, b | 0 <= a < b < |r| ensures rel(r[a], r[b]) {
      var a' := if a < i then a else a + 1;
      var b' := if b < i then b else b + 1;
      assert r[a] == s[a'] && r[b] == s[b'];
    }
  }
}

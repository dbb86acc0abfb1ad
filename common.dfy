/** Small shared vocabulary: an optional value (JavaScript's `undefined`/`NaN`
    outcomes) and the order-preserving filter that `Array.prototype.filter`
    performs. */
module Common {

  datatype Option<+T> = None | Some(value: T)

  datatype Result<+T, +E> = Success(value: T) | Failure(error: E)

  function Min(a: int, b: int): int { if a <= b then a else b }

  /** `s.filter(p)`: the elements of `s` that satisfy `p`, in their original order. */
  function Filter<T>(s: seq<T>, p: T -> bool): (r: seq<T>)
    ensures |r| <= |s|
    ensures forall i :: 0 <= i < |r| ==> r[i] in s && p(r[i])
    ensures forall i :: 0 <= i < |s| && p(s[i]) ==> s[i] in r
  {
    if s == [] then []
    else (if p(s[0]) then [s[0]] else []) + Filter(s[1..], p)
  }

  /** Filtering distributes over concatenation: the kept elements of a prefix
      come before the kept elements of what follows it (order preservation). */
  lemma {:induction false} FilterAppend<T>(a: seq<T>, b: seq<T>, p: T -> bool)
    ensures Filter(a + b, p) == Filter(a, p) + Filter(b, p)
  {
    if a == [] {
      assert a + b == b;
    } else {
      assert (a + b)[1..] == a[1..] + b;
      FilterAppend(a[1..], b, p);
    }
  }

  /** Each value is kept exactly as often as it occurs, or not at all. */
  lemma {:induction false} FilterCount<T>(s: seq<T>, p: T -> bool, x: T)
    ensures multiset(Filter(s, p))[x] == if p(x) then multiset(s)[x] else 0
  {
    if s != [] {
      FilterCount(s[1..], p, x);
      assert s == [s[0]] + s[1..];
    }
  }

  /** Filtering twice keeps exactly what the conjunction of the two tests keeps. */
  lemma {:induction false} FilterFilter<T>(s: seq<T>, p: T -> bool, q: T -> bool, pq: T -> bool)
    requires forall x :: pq(x) == (p(x) && q(x))
    ensures Filter(Filter(s, p), q) == Filter(s, pq)
  {
    if s != [] {
      FilterFilter(s[1..], p, q, pq);
      var rest := Filter(s[1..], p);
      if p(s[0]) {
        var fs := [s[0]] + rest;
        assert Filter(s, p) == fs;
        assert fs[0] == s[0] && fs[1..] == rest;
      } else {
        assert Filter(s, p) == rest;
      }
    }
  }

  /** Filtering depends only on which elements the test keeps. */
  lemma {:induction false} FilterSame<T>(s: seq<T>, p: T -> bool, q: T -> bool)
    requires forall x :: p(x) == q(x)
    ensures Filter(s, p) == Filter(s, q)
  {
    if s != [] {
      FilterSame(s[1..], p, q);
    }
  }

  /** Everything is kept when every element passes the test. */
  lemma {:induction false} FilterAll<T>(s: seq<T>, p: T -> bool)
    requires forall i :: 0 <= i < |s| ==> p(s[i])
    ensures Filter(s, p) == s
  {
    if s != [] {
      FilterAll(s[1..], p);
    }
  }

  /** Nothing is kept when no element passes the test. */
  lemma {:induction false} FilterNone<T>(s: seq<T>, p: T -> bool)
    requires forall i :: 0 <= i < |s| ==> !p(s[i])
    ensures Filter(s, p) == []
  {
    if s != [] {
      FilterNone(s[1..], p);
    }
  }

  /** An index argument of `slice`: a negative one counts back from the end,
      and both kinds are clamped to `0..n`. */
  function RelativeIndex(i: int, n: nat): (r: nat)
    ensures r <= n
    ensures 0 <= i ==> r == Min(i, n)
  {
    if i < 0 then (if n + i < 0 then 0 else n + i) else Min(i, n)
  }

  /** `s.slice(start, end)`. */
  function Slice<T>(s: seq<T>, start: int, end: int): (r: seq<T>)
    ensures |r| <= |s|
  {
    var from := RelativeIndex(start, |s|);
    var to := RelativeIndex(end, |s|);
    if from < to then s[from..to] else []
  }

  /** For non-negative bounds `slice` is the clamped sub-sequence. */
  lemma SliceNonNegative<T>(s: seq<T>, start: int, end: int)
    requires 0 <= start <= end
    ensures Slice(s, start, end) == if start < Min(end, |s|) then s[start..Min(end, |s|)] else []
    ensures |Slice(s, start, end)| <= end - start
  {
  }

  /** `new Map(entries)`: each key maps to the value of its last entry. */
  function MapFromEntries<K, V>(entries: seq<(K, V)>): (m: map<K, V>)
    ensures m.Keys == set i | 0 <= i < |entries| :: entries[i].0
  {
    if entries == [] then map[]
    else
      var m := MapFromEntries(entries[..|entries| - 1]);
      var last := entries[|entries| - 1];
      assert forall i :: 0 <= i < |entries| - 1 ==> entries[..|entries| - 1][i] == entries[i];
      m[last.0 := last.1]
  }

  /** One more entry sets its key to its value. */
  lemma MapFromEntriesSnoc<K, V>(entries: seq<(K, V)>, x: (K, V))
    ensures MapFromEntries(entries + [x]) == MapFromEntries(entries)[x.0 := x.1]
  {
    assert (entries + [x])[..|entries|] == entries;
  }

  /** `map.get(k)` of a map built from entries. */
  function Get<K, V>(m: map<K, V>, k: K): Option<V>
  {
    if k in m then Some(m[k]) else None
  }

  /** The value a key gets is the one of its last entry: an earlier duplicate
      is overwritten by a later one. */
  lemma {:induction false} LastEntryWins<K, V>(entries: seq<(K, V)>, i: int)
    requires 0 <= i < |entries|
    requires forall j :: i < j < |entries| ==> entries[j].0 != entries[i].0
    ensures Get(MapFromEntries(entries), entries[i].0) == Some(entries[i].1)
    decreases |entries|
  {
    if i < |entries| - 1 {
      var prefix := entries[..|entries| - 1];
      assert forall j :: i < j < |prefix| ==> prefix[j] == entries[j];
      LastEntryWins(prefix, i);
    }
  }

  /** Every key found was given by some entry, and by no later one. */
  lemma {:induction false} GetFindsLastEntry<K, V>(entries: seq<(K, V)>, k: K)
    requires k in MapFromEntries(entries)
    ensures exists i :: 0 <= i < |entries| && entries[i].0 == k
                        && MapFromEntries(entries)[k] == entries[i].1
                        && forall j :: i < j < |entries| ==> entries[j].0 != k
    decreases |entries|
  {
    var n := |entries|;
    var prefix := entries[..n - 1];
    var last := entries[n - 1];
    assert entries == prefix + [last];
    MapFromEntriesSnoc(prefix, last);
    if last.0 == k {
      assert MapFromEntries(entries)[k] == entries[n - 1].1;
    } else {
      assert k in MapFromEntries(prefix);
      GetFindsLastEntry(prefix, k);
      var i :| 0 <= i < |prefix| && prefix[i].0 == k && MapFromEntries(prefix)[k] == prefix[i].1
               && forall j :: i < j < |prefix| ==> prefix[j].0 != k;
      assert entries[i] == prefix[i];
      assert MapFromEntries(entries)[k] == entries[i].1;
      assert forall j :: i < j < n ==> entries[j].0 != k by {
        forall j | i < j < n
          ensures entries[j].0 != k
        {
          if j < n - 1 {
            assert entries[j] == prefix[j];
          }
        }
      }
    }
  }
}

/**
 * What the listing queries do after selecting rows: `ORDER BY name`, then
 * `OFFSET`, then `LIMIT`. Names are ordered lexicographically by character.
 */
module Listing {

  /** `WHERE p`, keeping table order. */
  function Filter<T>(s: seq<T>, p: T -> bool): (r: seq<T>)
    ensures |r| <= |s|
    ensures forall i :: 0 <= i < |r| ==> r[i] in s && p(r[i])
    ensures forall i :: 0 <= i < |s| && p(s[i]) ==> s[i] in r
    decreases |s|
  {
    if |s| == 0 then []
    else Filter(s[..|s| - 1], p) + (if p(s[|s| - 1]) then [s[|s| - 1]] else [])
  }

  /** Lexicographic order on names: a prefix comes first. */
  predicate NameLe(a: string, b: string)
    decreases |a|
  {
    |a| == 0 || (|b| > 0 && (a[0] < b[0] || (a[0] == b[0] && NameLe(a[1..], b[1..]))))
  }

  lemma {:induction false} NameLeTotal(a: string, b: string)
    ensures NameLe(a, b) || NameLe(b, a)
    decreases |a|
  {
    if |a| > 0 && |b| > 0 && a[0] == b[0] {
      NameLeTotal(a[1..], b[1..]);
    }
  }

  lemma {:induction false} NameLeTransitive(a: string, b: string, c: string)
    requires NameLe(a, b) && NameLe(b, c)
    ensures NameLe(a, c)
    decreases |a|
  {
    if |a| > 0 && a[0] == b[0] && b[0] == c[0] {
      NameLeTransitive(a[1..], b[1..], c[1..]);
    }
  }

  ghost predicate SortedBy<T>(s: seq<T>, key: T -> string) {
    forall i, j :: 0 <= i < j < |s| ==> NameLe(key(s[i]), key(s[j]))
  }

  /** Inserts `x` before the first element it does not follow. */
  function Insert<T>(x: T, s: seq<T>, key: T -> string): (r: seq<T>)
    ensures multiset(r) == multiset(s) + multiset{x}
    decreases |s|
  {
    if |s| == 0 || NameLe(key(x), key(s[0])) then [x] + s
    else
      assert s == [s[0]] + s[1..];
      [s[0]] + Insert(x, s[1..], key)
  }

  lemma {:induction false} InsertSorted<T>(x: T, s: seq<T>, key: T -> string)
    requires SortedBy(s, key)
    ensures SortedBy(Insert(x, s, key), key)
    decreases |s|
  {
    if |s| == 0 {
    } else if NameLe(key(x), key(s[0])) {
      forall j | 0 < j < |s| ensures NameLe(key(x), key(s[j])) {
        NameLeTransitive(key(x), key(s[0]), key(s[j]));
      }
    } else {
      var rest := Insert(x, s[1..], key);
      InsertSorted(x, s[1..], key);
      NameLeTotal(key(x), key(s[0]));
      forall i | 0 <= i < |rest| ensures NameLe(key(s[0]), key(rest[i])) {
        assert rest[i] in multiset(rest);
        if rest[i] != x {
          assert rest[i] in multiset(s[1..]);
          var j :| 0 <= j < |s[1..]| && s[1..][j] == rest[i];
          assert s[j + 1] == rest[i];
        }
      }
      var r := Insert(x, s, key);
      assert r == [s[0]] + rest;
      forall i, j | 0 <= i < j < |r| ensures NameLe(key(r[i]), key(r[j])) {
        if i > 0 { assert r[i] == rest[i - 1] && r[j] == rest[j - 1]; }
        else { assert r[j] == rest[j - 1]; }
      }
    }
  }

  /**
   * `ORDER BY name`: an insertion sort. Elements with equal names may come
   * out in any order, as the query leaves them.
   */
  function SortBy<T>(s: seq<T>, key: T -> string): (r: seq<T>)
    ensures multiset(r) == multiset(s)
    decreases |s|
  {
    if |s| == 0 then []
    else
      assert s == s[..|s| - 1] + [s[|s| - 1]];
      Insert(s[|s| - 1], SortBy(s[..|s| - 1], key), key)
  }

  /** The sorted listing is in name order. */
  lemma {:induction false} SortBySorted<T>(s: seq<T>, key: T -> string)
    ensures SortedBy(SortBy(s, key), key)
    decreases |s|
  {
    if |s| > 0 {
      SortBySorted(s[..|s| - 1], key);
      InsertSorted(s[|s| - 1], SortBy(s[..|s| - 1], key), key);
    }
  }

  /** `LIMIT limit OFFSET offset`: skip `offset` rows, then keep at most `limit`. */
  function Page<T>(s: seq<T>, limit: nat, offset: nat): (r: seq<T>)
    ensures |r| <= limit
    ensures |r| == if offset >= |s| then 0 else if |s| - offset < limit then |s| - offset else limit
    ensures forall i :: 0 <= i < |r| ==> r[i] == s[offset + i]
  {
    if offset >= |s| then []
    else if |s| - offset < limit then s[offset..]
    else s[offset..offset + limit]
  }

  /** A page of a sorted listing is sorted. */
  lemma PageOfSorted<T>(s: seq<T>, key: T -> string, limit: nat, offset: nat)
    requires SortedBy(s, key)
    ensures SortedBy(Page(s, limit, offset), key)
  {
  }

  /** The `rows.Next()` loop of a listing: collects, in table order, the rows the query keeps. */
  method Select<T>(s: seq<T>, p: T -> bool) returns (r: seq<T>)
    ensures r == Filter(s, p)
  {
    r := [];
    for i := 0 to |s|
      invariant r == Filter(s[..i], p)
    {
      assert s[..i + 1][..i] == s[..i];
      if p(s[i]) {
        r := r + [s[i]];
      }
    }
    assert s[..|s|] == s;
  }

  /**
   * A whole listing query: `WHERE p ORDER BY key LIMIT limit OFFSET offset`.
   * The result is in key order, and each of its elements is an element of
   * `s` that satisfies `p`; it holds `limit` of the matching elements, or
   * all those after the first `offset` when fewer remain, taken from
   * position `offset` of their sorted order.
   */
  function Listed<T>(s: seq<T>, p: T -> bool, key: T -> string, limit: nat, offset: nat): (r: seq<T>)
    ensures |r| <= limit
    ensures |r| == if offset >= |Filter(s, p)| then 0
                   else if |Filter(s, p)| - offset < limit then |Filter(s, p)| - offset else limit
    ensures SortedBy(r, key)
    ensures forall i :: 0 <= i < |r| ==> r[i] in s && p(r[i])
    ensures forall i :: 0 <= i < |r| ==> r[i] == SortBy(Filter(s, p), key)[offset + i]
  {
    var sorted := SortBy(Filter(s, p), key);
    assert |sorted| == |Filter(s, p)| by {
      assert |multiset(sorted)| == |multiset(Filter(s, p))|;
    }
    SortBySorted(Filter(s, p), key);
    PageOfSorted(sorted, key, limit, offset);
    var r := Page(sorted, limit, offset);
    assert forall i :: 0 <= i < |r| ==> r[i] in multiset(Filter(s, p)) by {
      forall i | 0 <= i < |r| ensures r[i] in multiset(Filter(s, p)) {
        assert r[i] == sorted[offset + i];
        assert r[i] in multiset(sorted);
      }
    }
    r
  }

  /**
   * With no offset and a limit that covers every match, a listing returns
   * every row that satisfies `p`, each as often as in the table.
   */
  lemma {:induction false} ListedAll<T>(s: seq<T>, p: T -> bool, key: T -> string, limit: nat)
    requires limit >= |Filter(s, p)|
    ensures multiset(Listed(s, p, key, limit, 0)) == multiset(Filter(s, p))
    ensures forall i :: 0 <= i < |s| && p(s[i]) ==> s[i] in Listed(s, p, key, limit, 0)
  {
    var sorted := SortBy(Filter(s, p), key);
    var r := Listed(s, p, key, limit, 0);
    assert |sorted| == |Filter(s, p)| by {
      assert |multiset(sorted)| == |multiset(Filter(s, p))|;
    }
    assert r == sorted;
    forall i | 0 <= i < |s| && p(s[i]) ensures s[i] in r {
      assert s[i] in multiset(Filter(s, p));
      assert s[i] in multiset(r);
    }
  }
}

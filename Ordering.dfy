/** `ORDER BY name`: a lexicographic order on names and the sort of a query's rows by it. */
module Ordering {
  import opened Paging

  /** Lexicographic order on names, character by character; a prefix comes first. */
  predicate NameLe(a: string, b: string)
    decreases |a|
  {
    a == [] || (b != [] && (a[0] < b[0] || (a[0] == b[0] && NameLe(a[1..], b[1..]))))
  }

  /** Any two names are ordered one way or the other. */
  lemma {:induction false} NameLeTotal(a: string, b: string)
    decreases |a|
    ensures NameLe(a, b) || NameLe(b, a)
  {
    if a != [] && b != [] && a[0] == b[0] {
      NameLeTotal(a[1..], b[1..]);
    }
  }

  lemma {:induction false} NameLeTrans(a: string, b: string, c: string)
    decreases |a|
    requires NameLe(a, b) && NameLe(b, c)
    ensures NameLe(a, c)
  {
    if a != [] && b != [] && c != [] && a[0] == b[0] && b[0] == c[0] {
      NameLeTrans(a[1..], b[1..], c[1..]);
    }
  }

  /** The rows are in ascending order of their key. */
  predicate SortedBy<T>(s: seq<T>, key: T -> string) {
    forall i, j :: 0 <= i < j < |s| ==> NameLe(key(s[i]), key(s[j]))
  }

  /** Every row of `s` has a key at or above `k`. */
  predicate AllAbove<T>(k: string, s: seq<T>, key: T -> string) {
    forall j :: 0 <= j < |s| ==> NameLe(k, key(s[j]))
  }

  /** A row whose key is at or below every key of sorted rows can lead them. */
  lemma SortedCons<T>(x: T, s: seq<T>, key: T -> string)
    requires SortedBy(s, key) && AllAbove(key(x), s, key)
    ensures SortedBy([x] + s, key)
  {
    var r := [x] + s;
    forall i, j | 0 <= i < j < |r| ensures NameLe(key(r[i]), key(r[j])) {
      if i == 0 {
        assert r[j] == s[j - 1];
      } else {
        assert r[i] == s[i - 1] && r[j] == s[j - 1];
      }
    }
  }

  /** A key at or below the first of sorted rows is at or below all of them. */
  lemma SortedHeadAbove<T>(k: string, s: seq<T>, key: T -> string)
    requires SortedBy(s, key) && s != [] && NameLe(k, key(s[0]))
    ensures AllAbove(k, s, key)
  {
    forall j | 0 < j < |s| ensures NameLe(k, key(s[j])) {
      NameLeTrans(k, key(s[0]), key(s[j]));
    }
  }

  /** `x` placed in the sorted rows `s` before the first row whose key is above its own. */
  function InsertBy<T>(x: T, s: seq<T>, key: T -> string): (r: seq<T>)
    requires SortedBy(s, key)
    ensures SortedBy(r, key)
    ensures multiset(r) == multiset(s) + multiset{x}
    ensures |r| == |s| + 1
    ensures r[0] == x || (s != [] && r[0] == s[0])
  {
    if s == [] then [x]
    else if NameLe(key(x), key(s[0])) && key(x) != key(s[0]) then
      SortedHeadAbove(key(x), s, key);
      SortedCons(x, s, key);
      [x] + s
    else
      var rest := InsertBy(x, s[1..], key);
      NameLeTotal(key(x), key(s[0]));
      SortedHeadAbove(key(s[0]), rest, key);
      SortedCons(s[0], rest, key);
      assert s == [s[0]] + s[1..];
      [s[0]] + rest
  }

  /** The rows of `s` in ascending order of their key; rows with equal keys keep their order. */
  function SortBy<T>(s: seq<T>, key: T -> string): (r: seq<T>)
    ensures SortedBy(r, key)
    ensures multiset(r) == multiset(s)
    ensures |r| == |s|
  {
    if s == [] then []
    else
      assert s == s[..|s| - 1] + [s[|s| - 1]];
      InsertBy(s[|s| - 1], SortBy(s[..|s| - 1], key), key)
  }

  /** Sorting neither adds nor drops a row. */
  lemma SortByMembers<T>(s: seq<T>, key: T -> string)
    ensures forall y :: y in SortBy(s, key) <==> y in s
  {
    var r := SortBy(s, key);
    forall y ensures y in r <==> y in s {
      assert y in r <==> y in multiset(r);
      assert y in s <==> y in multiset(s);
    }
  }

  /** A page of sorted rows is sorted: LIMIT and OFFSET cut the ordered result, they do not reorder it. */
  lemma PageOfSorted<T>(s: seq<T>, key: T -> string, limit: int, offset: int)
    requires SortedBy(s, key) && limit > 0 && offset >= 0
    ensures SortedBy(Page(s, limit, offset), key)
  {
    var r := Page(s, limit, offset);
    forall i, j | 0 <= i < j < |r| ensures NameLe(key(r[i]), key(r[j])) {
      assert r[i] == s[offset + i] && r[j] == s[offset + j];
    }
  }

  /** A window of the sorted rows: sorted, and made of rows of the input only. */
  lemma SortedPage<T>(s: seq<T>, key: T -> string, limit: int, offset: int)
    requires limit > 0 && offset >= 0
    ensures SortedBy(Page(SortBy(s, key), limit, offset), key)
    ensures forall y :: y in Page(SortBy(s, key), limit, offset) ==> y in s
  {
    var sorted := SortBy(s, key);
    SortByMembers(s, key);
    PageOfSorted(sorted, key, limit, offset);
    var r := Page(sorted, limit, offset);
    forall y | y in r ensures y in s {
      var k :| 0 <= k < |r| && r[k] == y;
      assert sorted[offset + k] == y;
    }
  }
}

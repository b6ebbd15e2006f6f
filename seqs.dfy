/** Sequence helpers: first-occurrence deduplication, Python slicing by a
    limit, and the stable descending sort that both `sorted(..., reverse=True)`
    and JavaScript's `Array.prototype.sort` perform. */
module Seqs {
  import opened Text

  predicate NoDups<T(==)>(s: seq<T>) {
    forall i, j :: 0 <= i < j < |s| ==> s[i] != s[j]
  }

  /** Keeps the first occurrence of every element, in encounter order
      (the `if x not in seen: seen.add(x); out.append(x)` loop). */
  function Dedup<T(==)>(s: seq<T>): (r: seq<T>)
    ensures NoDups(r)
    ensures |r| <= |s|
  {
    if s == [] then []
    else
      var d := Dedup(s[..|s| - 1]);
      if s[|s| - 1] in d then d else d + [s[|s| - 1]]
  }

  /** One more element is appended when it is new and dropped otherwise. */
  lemma DedupSnoc<T>(s: seq<T>, x: T)
    ensures Dedup(s + [x]) == if x in Dedup(s) then Dedup(s) else Dedup(s) + [x]
  {
    assert (s + [x])[..|s|] == s;
  }

  /** Deduplicating keeps exactly the elements there were. */
  lemma {:induction false} DedupMembers<T>(s: seq<T>)
    ensures forall x :: x in Dedup(s) <==> x in s
  {
    if s != [] {
      var init := s[..|s| - 1];
      DedupMembers(init);
      assert s == init + [s[|s| - 1]];
    }
  }

  /** Deduplicating a prefix gives a prefix of the deduplicated whole:
      elements keep the order of their first occurrences. */
  lemma {:induction false} DedupPrefix<T>(s: seq<T>, k: nat)
    requires k <= |s|
    ensures |Dedup(s[..k])| <= |Dedup(s)| && Dedup(s[..k]) == Dedup(s)[..|Dedup(s[..k])|]
    decreases |s| - k
  {
    if k < |s| {
      DedupPrefix(s, k + 1);
      var a, b := s[..k], s[..k + 1];
      assert b[..|b| - 1] == a;
      var da, db := Dedup(a), Dedup(b);
      assert da == db[..|da|];
      assert db == Dedup(s)[..|db|];
    } else {
      assert s[..k] == s;
    }
  }

  /** Python's `s[:limit]`, negative limits included. */
  function PyTake<T>(s: seq<T>, limit: int): (r: seq<T>)
    ensures |r| <= |s| && r == s[..|r|]
    ensures 0 <= limit ==> |r| == if limit < |s| then limit else |s|
    ensures limit < 0 ==> |r| == if |s| + limit < 0 then 0 else |s| + limit
  {
    if 0 <= limit then (if limit < |s| then s[..limit] else s)
    else if |s| + limit < 0 then [] else s[..|s| + limit]
  }

  /** Non-increasing by `key`. */
  predicate SortedDesc<T>(s: seq<T>, key: T -> string) {
    forall i, j :: 0 <= i < j < |s| ==> !LexLess(key(s[i]), key(s[j]))
  }

  /** No two elements share a value of `f`. */
  predicate DistinctBy<T, K(==)>(s: seq<T>, f: T -> K) {
    forall i, j :: 0 <= i < j < |s| ==> f(s[i]) != f(s[j])
  }

  /** Inserts `x` after every element whose key is not smaller, so equal keys keep their order. */
  function Insert<T>(t: seq<T>, x: T, key: T -> string): (r: seq<T>)
    ensures multiset(r) == multiset(t) + multiset{x}
    ensures |r| == |t| + 1
  {
    if t == [] then [x]
    else if LexLess(key(t[0]), key(x)) then [x] + t
    else
      assert t == [t[0]] + t[1..];
      [t[0]] + Insert(t[1..], x, key)
  }

  /** Stable sort by `key`, largest first. */
  function SortDesc<T>(s: seq<T>, key: T -> string): (r: seq<T>)
    ensures multiset(r) == multiset(s)
    ensures |r| == |s|
  {
    if s == [] then []
    else
      assert s == s[..|s| - 1] + [s[|s| - 1]];
      Insert(SortDesc(s[..|s| - 1], key), s[|s| - 1], key)
  }

  /** Each element of the insertion comes from the list or is `x`. */
  lemma InsertMembers<T>(t: seq<T>, x: T, key: T -> string)
    ensures forall i :: 0 <= i < |Insert(t, x, key)| ==> Insert(t, x, key)[i] in t || Insert(t, x, key)[i] == x
  {
    var r := Insert(t, x, key);
    forall i | 0 <= i < |r| ensures r[i] in t || r[i] == x {
      assert r[i] in multiset(r);
      assert r[i] in multiset(t) || r[i] == x;
    }
  }

  lemma {:induction false} InsertSorted<T>(t: seq<T>, x: T, key: T -> string)
    requires SortedDesc(t, key)
    ensures SortedDesc(Insert(t, x, key), key)
  {
    var r := Insert(t, x, key);
    if t == [] {
    } else if LexLess(key(t[0]), key(x)) {
      forall j | 0 < j < |r| ensures !LexLess(key(x), key(r[j])) {
        var y := key(t[j - 1]);
        if j - 1 > 0 {
          LexLessTotal(y, key(t[0]));
          if LexLess(y, key(t[0])) {
            LexLessTransitive(y, key(t[0]), key(x));
          }
        }
        LexLessAsymmetric(y, key(x));
      }
    } else {
      var rest := Insert(t[1..], x, key);
      InsertSorted(t[1..], x, key);
      InsertMembers(t[1..], x, key);
      forall j | 0 <= j < |rest| ensures !LexLess(key(t[0]), key(rest[j])) {
        if rest[j] != x {
          var k :| 0 <= k < |t[1..]| && t[1..][k] == rest[j];
          assert t[k + 1] == rest[j];
        }
      }
    }
  }

  /** The sort's output is non-increasing by key. */
  lemma {:induction false} SortDescSorted<T>(s: seq<T>, key: T -> string)
    ensures SortedDesc(SortDesc(s, key), key)
  {
    if s != [] {
      SortDescSorted(s[..|s| - 1], key);
      InsertSorted(SortDesc(s[..|s| - 1], key), s[|s| - 1], key);
    }
  }

  lemma {:induction false} InsertDistinct<T, K>(t: seq<T>, x: T, key: T -> string, f: T -> K)
    requires DistinctBy(t, f)
    requires forall y :: y in t ==> f(y) != f(x)
    ensures DistinctBy(Insert(t, x, key), f)
  {
    if t != [] && !LexLess(key(t[0]), key(x)) {
      var rest := Insert(t[1..], x, key);
      InsertDistinct(t[1..], x, key, f);
      InsertMembers(t[1..], x, key);
      forall j | 0 <= j < |rest| ensures f(t[0]) != f(rest[j]) {
        if rest[j] != x {
          var k :| 0 <= k < |t[1..]| && t[1..][k] == rest[j];
          assert t[k + 1] == rest[j];
        }
      }
      var r := [t[0]] + rest;
      forall i, j | 0 <= i < j < |r| ensures f(r[i]) != f(r[j]) {
        if i > 0 {
          assert r[i] == rest[i - 1] && r[j] == rest[j - 1];
        } else {
          assert r[j] == rest[j - 1];
        }
      }
    } else if t != [] {
      var r := [x] + t;
      forall i, j | 0 <= i < j < |r| ensures f(r[i]) != f(r[j]) {
        if i == 0 {
          assert r[j] == t[j - 1];
          assert t[j - 1] in t;
        }
      }
    }
  }

  /** Sorting keeps a key that was unique unique. */
  lemma {:induction false} SortDescDistinct<T, K>(s: seq<T>, key: T -> string, f: T -> K)
    requires DistinctBy(s, f)
    ensures DistinctBy(SortDesc(s, key), f)
  {
    if s != [] {
      var init := s[..|s| - 1];
      assert DistinctBy(init, f);
      SortDescDistinct(init, key, f);
      var sorted := SortDesc(init, key);
      forall y | y in sorted ensures f(y) != f(s[|s| - 1]) {
        assert y in multiset(sorted);
        var k :| 0 <= k < |init| && init[k] == y;
        assert s[k] == y;
      }
      InsertDistinct(sorted, s[|s| - 1], key, f);
    }
  }

  lemma SortDescMembers<T>(s: seq<T>, key: T -> string)
    ensures forall x :: x in SortDesc(s, key) <==> x in s
  {
    var r := SortDesc(s, key);
    forall x ensures x in r <==> x in s {
      assert x in r <==> x in multiset(r);
      assert x in s <==> x in multiset(s);
    }
  }
}

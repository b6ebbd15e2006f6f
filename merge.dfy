/** The incremental `merge` of scripts/scrape_editais.py: the stored records
    and the new ones are put into a dictionary keyed by `link_oficial` (a new
    record overwrites an old one with the same link, keeping its place), and
    the values are sorted by publication time, newest first. */
module Merge {
  import opened Wrappers
  import opened Text
  import opened Seqs
  import opened Scraper

  /** One element of the stored JSON list: a record, or something that is not an object. */
  datatype Entry = NotObject | Object(record: Record)

  function Link(x: Record): string {
    x.linkOficial
  }

  /** `x.get("posted_at") or x.get("captured_at") or ""` (a missing field reads as ""). */
  function SortKey(x: Record): string {
    if x.postedAt != "" then x.postedAt else x.capturedAt
  }

  /** The stored entries the first loop keeps: objects with a non-empty link. */
  function Eligible(existing: seq<Entry>): (r: seq<Record>)
    ensures forall i :: 0 <= i < |r| ==> r[i].linkOficial != ""
    ensures forall x :: x in r <==> Object(x) in existing && x.linkOficial != ""
  {
    if existing == [] then []
    else
      var x := existing[|existing| - 1];
      Eligible(existing[..|existing| - 1]) + (if x.Object? && x.record.linkOficial != "" then [x.record] else [])
  }

  /** The new records the second loop keeps: those with a non-empty link. */
  function WithLink(news: seq<Record>): (r: seq<Record>)
    ensures forall i :: 0 <= i < |r| ==> r[i].linkOficial != ""
    ensures forall x :: x in r <==> x in news && x.linkOficial != ""
  {
    if news == [] then []
    else
      var x := news[|news| - 1];
      WithLink(news[..|news| - 1]) + (if x.linkOficial != "" then [x] else [])
  }

  /** Where the dictionary holds key `k`, if it does. */
  function IndexOfLink(table: seq<Record>, k: string): (r: Option<nat>)
    ensures r.Some? ==> r.value < |table| && table[r.value].linkOficial == k
    ensures r.None? ==> forall i :: 0 <= i < |table| ==> table[i].linkOficial != k
  {
    if table == [] then None
    else if table[0].linkOficial == k then Some(0)
    else
      var r := IndexOfLink(table[1..], k);
      if r.Some? then Some(r.value + 1) else None
  }

  /** `table[x["link_oficial"]] = x` on a dictionary kept as its items in insertion
      order: an existing key keeps its place and gets the new value, a new key
      goes last. */
  function Put(table: seq<Record>, x: Record): seq<Record> {
    var k := IndexOfLink(table, x.linkOficial);
    if k.Some? then table[k.value := x] else table + [x]
  }

  /** Putting keeps every key in its place, stores `x`, and adds a slot only for a new key. */
  lemma PutFacts(table: seq<Record>, x: Record)
    ensures var r := Put(table, x);
      && |table| <= |r| <= |table| + 1
      && (forall i :: 0 <= i < |table| ==> r[i].linkOficial == table[i].linkOficial)
      && (forall i :: 0 <= i < |r| ==> r[i] == x || (i < |table| && r[i] == table[i]))
      && x in r
      && (|r| == |table| + 1 ==> forall i :: 0 <= i < |table| ==> table[i].linkOficial != x.linkOficial)
  {
    var r := Put(table, x);
    if IndexOfLink(table, x.linkOficial).None? {
      assert r[|table|] == x;
    }
  }

  /** The dictionary after putting every record of `s`, in order. */
  function ByOf(s: seq<Record>): seq<Record> {
    if s == [] then [] else Put(ByOf(s[..|s| - 1]), s[|s| - 1])
  }

  /** The last record of `s` with link `k`: the one a dictionary keeps. */
  function LastWith(s: seq<Record>, k: string): (r: Option<Record>)
    ensures r.Some? ==> r.value.linkOficial == k
    ensures r.Some? ==> (exists j :: 0 <= j < |s| && s[j] == r.value && forall j' :: j < j' < |s| ==> s[j'].linkOficial != k)
    ensures r.None? ==> forall j :: 0 <= j < |s| ==> s[j].linkOficial != k
  {
    if s == [] then None
    else if s[|s| - 1].linkOficial == k then Some(s[|s| - 1])
    else LastWith(s[..|s| - 1], k)
  }

  /** Every record `merge` puts, in the order it puts them. */
  function Combined(existing: seq<Entry>, news: seq<Record>): seq<Record> {
    Eligible(existing) + WithLink(news)
  }

  lemma ByOfSnoc(s: seq<Record>, x: Record)
    ensures ByOf(s + [x]) == Put(ByOf(s), x)
  {
    assert (s + [x])[..|s|] == s;
  }

  /** The dictionary has one entry per link. */
  lemma {:induction false} ByOfDistinct(s: seq<Record>)
    ensures DistinctBy(ByOf(s), Link)
  {
    if s != [] {
      var b := ByOf(s[..|s| - 1]);
      ByOfDistinct(s[..|s| - 1]);
      var r := Put(b, s[|s| - 1]);
      PutFacts(b, s[|s| - 1]);
      forall i, j | 0 <= i < j < |r| ensures Link(r[i]) != Link(r[j]) {
        if j < |b| {
          assert r[i].linkOficial == b[i].linkOficial && r[j].linkOficial == b[j].linkOficial;
        }
      }
    }
  }

  /** Every entry holds the last record put under its link. */
  lemma {:induction false} ByOfLatest(s: seq<Record>)
    ensures forall i :: 0 <= i < |ByOf(s)| ==> LastWith(s, ByOf(s)[i].linkOficial) == Some(ByOf(s)[i])
  {
    if s != [] {
      var init := s[..|s| - 1];
      var x := s[|s| - 1];
      var b := ByOf(init);
      ByOfLatest(init);
      ByOfDistinct(init);
      var r := Put(b, x);
      PutFacts(b, x);
      forall i | 0 <= i < |r| ensures LastWith(s, r[i].linkOficial) == Some(r[i]) {
        if r[i] != x {
          assert r[i] == b[i];
          if |r| == |b| {
            var m :| 0 <= m < |r| && r[m] == x;
            assert m != i;
            assert b[m].linkOficial == x.linkOficial;
            assert Link(b[m]) != Link(b[i]);
          }
        }
      }
    }
  }

  /** Every link that is put gets an entry. */
  lemma {:induction false} ByOfCovers(s: seq<Record>)
    ensures forall j :: 0 <= j < |s| ==> exists i :: 0 <= i < |ByOf(s)| && ByOf(s)[i].linkOficial == s[j].linkOficial
  {
    if s != [] {
      var init := s[..|s| - 1];
      ByOfCovers(init);
      var b := ByOf(init);
      var r := Put(b, s[|s| - 1]);
      PutFacts(b, s[|s| - 1]);
      assert ByOf(s) == r;
      forall j | 0 <= j < |s| ensures exists i :: 0 <= i < |r| && r[i].linkOficial == s[j].linkOficial {
        if j < |init| {
          var i :| 0 <= i < |b| && b[i].linkOficial == init[j].linkOficial;
          assert r[i].linkOficial == s[j].linkOficial;
        } else {
          var i :| 0 <= i < |r| && r[i] == s[|s| - 1];
        }
      }
    }
  }

  /** One turn of the first loop. */
  lemma StoredStep(existing: seq<Entry>, i: nat)
    requires i < |existing|
    ensures var x := existing[i];
      ByOf(Eligible(existing[..i + 1]))
        == if x.Object? && x.record.linkOficial != "" then Put(ByOf(Eligible(existing[..i])), x.record)
           else ByOf(Eligible(existing[..i]))
  {
    var p := existing[..i + 1];
    var x := existing[i];
    assert p[..|p| - 1] == existing[..i] && p[|p| - 1] == x;
    var e := Eligible(existing[..i]);
    if x.Object? && x.record.linkOficial != "" {
      assert Eligible(p) == e + [x.record];
      ByOfSnoc(e, x.record);
    } else {
      assert e + [] == e;
      assert Eligible(p) == e;
    }
  }

  /** One turn of the second loop. */
  lemma NewsStep(stored: seq<Record>, news: seq<Record>, j: nat)
    requires j < |news|
    ensures ByOf(stored + WithLink(news[..j + 1]))
      == if news[j].linkOficial != "" then Put(ByOf(stored + WithLink(news[..j])), news[j])
         else ByOf(stored + WithLink(news[..j]))
  {
    assert news[..j + 1][..j] == news[..j];
    var w := WithLink(news[..j]);
    if news[j].linkOficial != "" {
      assert WithLink(news[..j + 1]) == w + [news[j]];
      assert stored + (w + [news[j]]) == (stored + w) + [news[j]];
      ByOfSnoc(stored + w, news[j]);
    } else {
      assert WithLink(news[..j + 1]) == w;
    }
  }

  /** The first loop of `merge`: the stored objects that carry a link, put in order. */
  method PutStored(existing: seq<Entry>) returns (table: seq<Record>)
    ensures table == ByOf(Eligible(existing))
  {
    table := [];
    var i := 0;
    while i < |existing|
      invariant 0 <= i <= |existing|
      invariant table == ByOf(Eligible(existing[..i]))
    {
      var x := existing[i];
      StoredStep(existing, i);
      if x.Object? && x.record.linkOficial != "" {
        table := Put(table, x.record);
      }
      i := i + 1;
    }
    assert existing[..i] == existing;
  }

  /** The second loop of `merge`: the new records that carry a link, put after the stored ones. */
  method PutNews(start: seq<Record>, ghost stored: seq<Record>, news: seq<Record>) returns (table: seq<Record>)
    requires start == ByOf(stored)
    ensures table == ByOf(stored + WithLink(news))
  {
    table := start;
    assert stored + WithLink(news[..0]) == stored;
    var j := 0;
    while j < |news|
      invariant 0 <= j <= |news|
      invariant table == ByOf(stored + WithLink(news[..j]))
    {
      var it := news[j];
      NewsStep(stored, news, j);
      if it.linkOficial != "" {
        table := Put(table, it);
      }
      j := j + 1;
    }
    assert news[..j] == news;
  }

  /** `merge(existing, new_items)` */
  method MergeRecords(existing: seq<Entry>, news: seq<Record>) returns (out: seq<Record>)
    ensures out == SortDesc(ByOf(Combined(existing, news)), SortKey)
  {
    var table := PutStored(existing);
    table := PutNews(table, Eligible(existing), news);
    out := SortDesc(table, SortKey);
  }

  /** The merged list has one record per link, newest publication first. */
  lemma MergeDistinctSorted(c: seq<Record>)
    ensures var out := SortDesc(ByOf(c), SortKey);
      DistinctBy(out, Link) && SortedDesc(out, SortKey)
  {
    var b := ByOf(c);
    ByOfDistinct(c);
    SortDescDistinct(b, SortKey, Link);
    SortDescSorted(b, SortKey);
  }

  /** Each merged record is the last one put under its link: a new record
      replaces a stored one, and a later new one an earlier one. */
  lemma MergeLatest(c: seq<Record>)
    ensures var out := SortDesc(ByOf(c), SortKey);
      forall i :: 0 <= i < |out| ==> LastWith(c, out[i].linkOficial) == Some(out[i])
  {
    var b := ByOf(c);
    var out := SortDesc(b, SortKey);
    SortDescMembers(b, SortKey);
    ByOfLatest(c);
    forall i | 0 <= i < |out| ensures LastWith(c, out[i].linkOficial) == Some(out[i]) {
      assert out[i] in b;
      var m :| 0 <= m < |b| && b[m] == out[i];
    }
  }

  /** Every link that was put, from the stored list or the new one, is in the result. */
  lemma MergeKeepsLinks(c: seq<Record>)
    ensures var out := SortDesc(ByOf(c), SortKey);
      forall j :: 0 <= j < |c| ==> exists i :: 0 <= i < |out| && out[i].linkOficial == c[j].linkOficial
  {
    var b := ByOf(c);
    var out := SortDesc(b, SortKey);
    SortDescMembers(b, SortKey);
    ByOfCovers(c);
    forall j | 0 <= j < |c| ensures exists i :: 0 <= i < |out| && out[i].linkOficial == c[j].linkOficial {
      var m :| 0 <= m < |b| && b[m].linkOficial == c[j].linkOficial;
      assert b[m] in b;
      assert b[m] in out;
      var i :| 0 <= i < |out| && out[i] == b[m];
      assert out[i].linkOficial == c[j].linkOficial;
    }
    assert forall j :: 0 <= j < |c| ==> exists i :: 0 <= i < |out| && out[i].linkOficial == c[j].linkOficial;
    assert out == SortDesc(ByOf(c), SortKey);
  }

  /** A new record with a link wins over every stored record with that link. */
  lemma NewWins(existing: seq<Entry>, news: seq<Record>, n: nat)
    requires n < |news| && news[n].linkOficial != ""
    requires forall j :: n < j < |news| ==> news[j].linkOficial != news[n].linkOficial
    ensures var out := SortDesc(ByOf(Combined(existing, news)), SortKey);
      exists i :: 0 <= i < |out| && out[i] == news[n]
  {
    var c := Combined(existing, news);
    var out := SortDesc(ByOf(c), SortKey);
    LastWithNews(existing, news, n);
    var j :| 0 <= j < |c| && c[j] == news[n];
    MergeKeepsLinks(c);
    var i :| 0 <= i < |out| && out[i].linkOficial == c[j].linkOficial;
    MergeLatest(c);
    assert LastWith(c, out[i].linkOficial) == Some(out[i]);
  }

  /** Writing one more record under another key leaves the last write of `k` alone. */
  lemma LastWithSnoc(w: seq<Record>, x: Record, k: string)
    requires x.linkOficial != k
    ensures LastWith(w + [x], k) == LastWith(w, k)
  {
    assert (w + [x])[..|w|] == w;
  }

  /** Nothing after a record in the new list carries its link, so it is the last one put. */
  lemma {:induction false} WithLinkTail(news: seq<Record>, n: nat)
    requires n < |news| && news[n].linkOficial != ""
    requires forall j :: n < j < |news| ==> news[j].linkOficial != news[n].linkOficial
    ensures LastWith(WithLink(news), news[n].linkOficial) == Some(news[n])
  {
    var init := news[..|news| - 1];
    var last := news[|news| - 1];
    if n < |news| - 1 {
      WithLinkTail(init, n);
      assert init[n] == news[n];
      if last.linkOficial != "" {
        assert WithLink(news) == WithLink(init) + [last];
        LastWithSnoc(WithLink(init), last, news[n].linkOficial);
      } else {
        assert WithLink(news) == WithLink(init);
      }
    } else {
      assert WithLink(news) == WithLink(init) + [news[n]];
    }
  }

  lemma LastWithAppend(a: seq<Record>, b: seq<Record>, k: string)
    requires LastWith(b, k).Some?
    ensures LastWith(a + b, k) == LastWith(b, k)
    decreases |b|
  {
    var s := a + b;
    if b[|b| - 1].linkOficial != k {
      assert s[..|s| - 1] == a + b[..|b| - 1];
      LastWithAppend(a, b[..|b| - 1], k);
    }
  }

  lemma LastWithNews(existing: seq<Entry>, news: seq<Record>, n: nat)
    requires n < |news| && news[n].linkOficial != ""
    requires forall j :: n < j < |news| ==> news[j].linkOficial != news[n].linkOficial
    ensures LastWith(Combined(existing, news), news[n].linkOficial) == Some(news[n])
  {
    WithLinkTail(news, n);
    LastWithAppend(Eligible(existing), WithLink(news), news[n].linkOficial);
  }
}

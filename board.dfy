/** The list page of assets/app.js: the module-level state `items` and
    `page`, the page arithmetic, the seven-dot pager window, the cards that
    `render` builds and the normalise/filter/sort step of `load`. */
module App {
  import opened Wrappers
  import opened Text
  import opened Seqs
  import opened Html

  const PerPage := 10
  const MaxDots := 7
  /** The card title used when an item has no institution. */
  const DefaultTitle := "INSTITUI\U{00C7}\U{00C3}O"

  /** One entry of `items` after `load`. */
  datatype Item = Item(instituicao: string, edital: seq<string>, linkOficial: string, postedAt: string)

  /** One element of the fetched JSON list: not an object, or an object whose
      fields are read as `load` reads them (a missing or falsy field as "",
      an `edital` that is not an array as None). */
  datatype RawEntry = NotObject | Object(instituicao: string, edital: Option<seq<string>>, linkOficial: string, postedAt: string)

  function Max(a: int, b: int): int {
    if a < b then b else a
  }

  function Min(a: int, b: int): int {
    if a < b then a else b
  }

  /** A JavaScript slice bound: negative counts from the end, then clamped to [0, len]. */
  function JsIndex(i: int, len: nat): (k: nat)
    ensures k <= len
    ensures 0 <= i ==> k == Min(i, len)
  {
    if i < 0 then Max(0, len + i) else Min(i, len)
  }

  /** `Array.prototype.slice(start, end)` */
  function JsSlice<T>(s: seq<T>, start: int, end: int): (r: seq<T>)
    ensures |r| <= |s|
    ensures 0 <= start <= end ==> r == s[Min(start, |s|)..Min(end, |s|)]
  {
    var a := JsIndex(start, |s|);
    var b := JsIndex(end, |s|);
    if a < b then s[a..b] else []
  }

  /** The decimal rendering of an integer in a template literal. */
  function IntText(i: int): string {
    if i < 0 then "-" + Decimal(-i) else Decimal(i)
  }

  /** One pager indicator: its page number and whether it is the active one. */
  datatype Dot = Dot(number: int, active: bool)

  /** What `syncPager` writes: the two button states, the window and its dots. */
  datatype PagerView = PagerView(prevDisabled: bool, nextDisabled: bool, start: int, end: int, dots: seq<Dot>)

  /** What `render` writes for one item: the escaped title, the two links,
      the two pills and the optional second-PDF link. */
  datatype Card = Card(title: string, firstPdf: string, official: string, pdfPill: string, extraPill: string, secondPdf: Option<string>)

  /** What `render` writes: the count label and the cards of the page. */
  datatype RenderView = RenderView(countLabel: string, cards: seq<Card>)

  /** What `load` leaves on the page: the list and its pager, or the failure
      label (with the fixed error card, not modelled further). */
  datatype Screen = Listing(view: RenderView, pager: PagerView) | LoadFailed(countLabel: string)

  const FailureLabel := "Falha ao carregar os dados."

  /** The card of one item. Its title is escaped; its links are not. */
  function CardOf(it: Item): (c: Card)
    ensures c.pdfPill == Decimal(|it.edital|) + (if |it.edital| == 1 then " PDF" else " PDFs")
    ensures c.extraPill == "" <==> |it.edital| <= 1
    ensures |it.edital| > 1 ==> c.extraPill == "+" + Decimal(|it.edital| - 1) + " anexos"
    ensures c.secondPdf.Some? <==> |it.edital| > 1
    ensures '<' !in c.title && '>' !in c.title && '"' !in c.title && '\'' !in c.title
    ensures c.firstPdf != "" && c.official != ""
  {
    var pdfs := it.edital;
    var n := |pdfs|;
    var extraCount := Max(0, n - 1);
    var title := if it.instituicao != "" then it.instituicao else DefaultTitle;
    EscapeHtmlIsClean(title);
    Card(EscapeHtml(title),
         if n > 0 && pdfs[0] != "" then pdfs[0] else "#",
         if it.linkOficial != "" then it.linkOficial else "#",
         Decimal(n) + " PDF" + (if n == 1 then "" else "s"),
         if extraCount > 0 then "+" + Decimal(extraCount) + " anexos" else "",
         if n > 1 then Some(pdfs[1]) else None)
  }

  /** An item `load` keeps: it has an institution, an official link and at least one PDF. */
  predicate Keep(it: Item) {
    it.instituicao != "" && it.linkOficial != "" && |it.edital| > 0
  }

  /** The `map` step of `load`. */
  function Normalize(x: RawEntry): Item
    requires x.Object?
  {
    Item(x.instituicao, x.edital.GetOr([]), x.linkOficial, x.postedAt)
  }

  /** The filter/map/filter chain of `load`, in input order. */
  function Kept(data: seq<RawEntry>): (r: seq<Item>)
    ensures forall i :: 0 <= i < |r| ==> Keep(r[i])
  {
    if data == [] then []
    else
      var x := data[|data| - 1];
      Kept(data[..|data| - 1]) + (if x.Object? && Keep(Normalize(x)) then [Normalize(x)] else [])
  }

  function PostedAt(it: Item): string {
    it.postedAt
  }

  /** The list `load` stores: the kept items, newest `posted_at` first,
      ties in input order. */
  function LoadItems(data: seq<RawEntry>): seq<Item> {
    SortDesc(Kept(data), PostedAt)
  }

  /** The kept items are exactly the normalised objects that pass the filter. */
  lemma {:induction false} KeptMembers(data: seq<RawEntry>)
    ensures forall it :: it in Kept(data) <==>
      exists j :: 0 <= j < |data| && data[j].Object? && Normalize(data[j]) == it && Keep(it)
  {
    if data != [] {
      var init := data[..|data| - 1];
      KeptMembers(init);
      forall it ensures it in Kept(data) <==>
        exists j :: 0 <= j < |data| && data[j].Object? && Normalize(data[j]) == it && Keep(it)
      {
        if it in Kept(data) && it !in Kept(init) {
          assert data[|data| - 1].Object? && Normalize(data[|data| - 1]) == it;
        }
        if exists j :: 0 <= j < |data| && data[j].Object? && Normalize(data[j]) == it && Keep(it) {
          var j :| 0 <= j < |data| && data[j].Object? && Normalize(data[j]) == it && Keep(it);
          if j < |init| {
            assert init[j] == data[j];
          }
        }
      }
    }
  }

  /** After `load`, every item has an institution, a link and a PDF, the list
      is ordered by `posted_at` newest first, and it is a permutation of the
      kept items. */
  lemma LoadItemsSound(data: seq<RawEntry>)
    ensures var r := LoadItems(data);
      && (forall i :: 0 <= i < |r| ==> r[i].instituicao != "" && r[i].linkOficial != "" && |r[i].edital| > 0)
      && SortedDesc(r, PostedAt)
      && multiset(r) == multiset(Kept(data))
  {
    var k := Kept(data);
    var r := LoadItems(data);
    SortDescSorted(k, PostedAt);
    SortDescMembers(k, PostedAt);
    forall i | 0 <= i < |r| ensures Keep(r[i]) {
      assert r[i] in k;
      var m :| 0 <= m < |k| && k[m] == r[i];
    }
  }

  /** The page state: the loaded items and the current page. */
  class Board {
    var items: seq<Item>
    var page: int

    /** `let items = []; let page = 1;` */
    constructor ()
      ensures items == [] && page == 1
    {
      items := [];
      page := 1;
    }

    /** The page is always one of the pages there are. */
    predicate Valid()
      reads this
    {
      1 <= page <= TotalPages()
    }

    /** `totalPages()`: at least one page, otherwise just enough pages of ten. */
    function TotalPages(): (t: int)
      reads this
      ensures t >= 1
      ensures items == [] ==> t == 1
      ensures items != [] ==> (t - 1) * PerPage < |items| <= t * PerPage
    {
      Max(1, (|items| + PerPage - 1) / PerPage)
    }

    /** `clampPage(p)` */
    function ClampPage(p: int): (r: int)
      reads this
      ensures 1 <= r <= TotalPages()
      ensures 1 <= p <= TotalPages() ==> r == p
      ensures p < 1 ==> r == 1
      ensures p > TotalPages() ==> r == TotalPages()
    {
      Min(TotalPages(), Max(1, p))
    }

    /** The items of page `p`, as `slicePage` cuts them. */
    function PageItems(p: int): (r: seq<Item>)
      reads this
      ensures |r| <= PerPage
      ensures 1 <= p ==> r == items[Min((p - 1) * PerPage, |items|)..Min(p * PerPage, |items|)]
    {
      var start := (p - 1) * PerPage;
      JsSlice(items, start, start + PerPage)
    }

    /** `slicePage()` */
    function SlicePage(): (r: seq<Item>)
      reads this
      ensures |r| <= PerPage
      ensures Valid() ==> r == items[(page - 1) * PerPage..Min(page * PerPage, |items|)]
    {
      PageItems(page)
    }

    /** Pages 1 .. k, one after the other. */
    function PagesUpTo(k: nat): seq<Item>
      reads this
    {
      if k == 0 then [] else PagesUpTo(k - 1) + PageItems(k)
    }

    lemma {:induction false} PagesUpToPrefix(k: nat)
      ensures PagesUpTo(k) == items[..Min(k * PerPage, |items|)]
    {
      if k > 0 {
        PagesUpToPrefix(k - 1);
        var a := Min((k - 1) * PerPage, |items|);
        var b := Min(k * PerPage, |items|);
        assert items[..a] + items[a..b] == items[..b];
      }
    }

    /** Reading every page in turn gives back the whole list. */
    lemma AllPages()
      ensures PagesUpTo(TotalPages()) == items
    {
      PagesUpToPrefix(TotalPages());
      assert items[..|items|] == items;
    }

    /** `render()`: the count label and one card per item of the current page. */
    function Render(): (v: RenderView)
      reads this
      ensures |v.cards| == |SlicePage()|
      ensures forall i :: 0 <= i < |v.cards| ==> v.cards[i] == CardOf(SlicePage()[i])
      ensures v.countLabel == IntText(|items|) + " editais \U{2022} p\U{00E1}gina " + IntText(page) + " de " + IntText(TotalPages())
    {
      var shown := SlicePage();
      RenderView(IntText(|items|) + " editais \U{2022} p\U{00E1}gina " + IntText(page) + " de " + IntText(TotalPages()),
                 seq(|shown|, i requires 0 <= i < |shown| => CardOf(shown[i])))
    }

    /** `syncPager()`: the button states and up to seven dots around the current page. */
    method SyncPager() returns (pager: PagerView)
      ensures pager.prevDisabled == (page <= 1)
      ensures pager.nextDisabled == (page >= TotalPages())
      ensures 1 <= pager.start <= pager.end <= TotalPages() && pager.end - pager.start + 1 <= MaxDots
      ensures |pager.dots| == pager.end - pager.start + 1
      ensures forall k :: 0 <= k < |pager.dots| ==> pager.dots[k] == Dot(pager.start + k, pager.start + k == page)
      ensures Valid() ==> pager.start <= page <= pager.end && pager.end - pager.start + 1 == Min(MaxDots, TotalPages())
    {
      var t := TotalPages();
      var prevDisabled := page <= 1;
      var nextDisabled := page >= t;
      var start := Max(1, page - MaxDots / 2);
      var end := start + MaxDots - 1;
      if end > t {
        end := t;
        start := Max(1, end - MaxDots + 1);
      }
      var dots: seq<Dot> := [];
      var p := start;
      while p <= end
        invariant start <= p <= end + 1
        invariant |dots| == p - start
        invariant forall k :: 0 <= k < |dots| ==> dots[k] == Dot(start + k, start + k == page)
        decreases end - p
      {
        dots := dots + [Dot(p, p == page)];
        p := p + 1;
      }
      pager := PagerView(prevDisabled, nextDisabled, start, end, dots);
    }

    /** `render()` followed by `syncPager()`. */
    method Show() returns (view: RenderView, pager: PagerView)
      ensures view == Render()
      ensures pager.prevDisabled == (page <= 1)
      ensures pager.nextDisabled == (page >= TotalPages())
      ensures Valid() ==> pager.start <= page <= pager.end
    {
      view := Render();
      pager := SyncPager();
    }

    /** `setPage(p)`: clamp, then render and sync the pager. */
    method SetPage(p: int) returns (view: RenderView, pager: PagerView)
      modifies this
      ensures items == old(items) && page == old(ClampPage(p))
      ensures Valid()
      ensures view == Render()
      ensures pager.start <= page <= pager.end
    {
      page := ClampPage(p);
      view, pager := Show();
    }

    /** The previous-page button: `setPage(page - 1)`. */
    method Prev() returns (view: RenderView, pager: PagerView)
      modifies this
      ensures items == old(items)
      ensures old(Valid()) ==> page == if old(page) > 1 then old(page) - 1 else 1
      ensures Valid()
    {
      view, pager := SetPage(page - 1);
    }

    /** The next-page button: `setPage(page + 1)`. */
    method Next() returns (view: RenderView, pager: PagerView)
      modifies this
      ensures items == old(items)
      ensures old(Valid()) ==> page == if old(page) < old(TotalPages()) then old(page) + 1 else old(TotalPages())
      ensures Valid()
    {
      view, pager := SetPage(page + 1);
    }

    /** `load()`, given the fetched list (None when the fetch, the HTTP status
        or the JSON shape failed): store the sorted items and show page 1, or
        leave the state as it was and show the failure label. */
    method Load(data: Option<seq<RawEntry>>) returns (screen: Screen)
      modifies this
      ensures data.None? ==> items == old(items) && page == old(page) && screen == LoadFailed(FailureLabel)
      ensures data.Some? ==> items == LoadItems(data.value) && page == 1 && Valid()
      ensures data.Some? ==> screen.Listing? && screen.view == Render() && screen.pager.prevDisabled
      ensures data.Some? ==> (screen.pager.nextDisabled <==> |items| <= PerPage)
    {
      if data.None? {
        return LoadFailed(FailureLabel);
      }
      var loaded := LoadItems(data.value);
      items := loaded;
      page := 1;
      var v, s := Show();
      screen := Listing(v, s);
    }
  }

  /** A card shows "1 PDF" for one file and no extra pill. */
  lemma SinglePdfCard(it: Item)
    requires |it.edital| == 1
    ensures CardOf(it).pdfPill == "1 PDF" && CardOf(it).extraPill == ""
  {
  }

  /** Thirty items make three pages; page 3 holds the last ten. */
  lemma ThirtyItems(b: Board)
    requires |b.items| == 30
    ensures b.TotalPages() == 3
    ensures b.PageItems(3) == b.items[20..]
  {
  }
}

/** The extraction pipeline of scripts/scrape_editais.py: the listing
    scanner, the publication-time and title lookups, the table locator with
    the backward title scan, the official-link locator, the disclaimer-block
    resolver, the PDF-button extractor and the gate sequence of `parse_post`. */
module Scraper {
  import opened Wrappers
  import opened Text
  import opened Seqs
  import opened Dom
  import opened Patterns

  /** What `urljoin` followed by `urlparse` gives for a (base, href) pair:
      the absolute URL, its scheme and its hostname ("" when there is none). */
  datatype Resolved = Resolved(url: string, scheme: string, hostname: string)

  /** `urljoin`/`urlparse`, a library the model does not look into. */
  type Resolver = (string, string) -> Resolved

  const ListUrl := "https://med.estrategia.com/portal/noticias/"
  const ListingSegment := "/portal/noticias/"
  const SourceHost := "med.estrategia.com"
  const Social: seq<string> := ["facebook.com", "twitter.com", "t.me", "linkedin.com", "instagram.com", "wa.me", "tiktok.com", "x.com"]
  const ButtonClass := "wp-block-button__link"
  const TitleTags: set<string> := {"strong", "b", "h2", "h3", "h4"}
  const BlockTags: set<string> := {"p", "div", "section", "article", "blockquote"}
  const DefaultSectionTitle := "Resumo"

  /** One persisted edital record. */
  datatype Record = Record(instituicao: string, edital: seq<string>, linkOficial: string, postedAt: string, capturedAt: string)

  datatype Reason = NoTables | NoOfficialLink | NoDisclaimerBlock | NoPdfButtons

  /** What `parse_post` produces for one article: a record, or a rejection and why. */
  datatype Outcome = Accepted(record: Record) | Rejected(reason: Reason)

  /** An `<a>` element carrying an `href` attribute (`a[href]`, `find_all("a", href=True)`). */
  predicate HasHref(n: Node) {
    n.tag == "a" && "href" in n.attrs
  }

  // ---------------- Listing ----------------

  /** `href.split("?")[0].split("#")[0]` */
  function StripQueryAndFragment(href: string): (r: string)
    ensures '?' !in r && '#' !in r && |r| <= |href| && r == href[..|r|]
    ensures |r| < |href| ==> href[|r|] == '?' || href[|r|] == '#'
  {
    var q := CutAt(href, '?');
    var r := CutAt(q, '#');
    assert href[..|q|][..|r|] == href[..|r|];
    r
  }

  function ListingTarget(n: Node, resolve: Resolver): Resolved {
    resolve(ListUrl, StripQueryAndFragment(Attr(n, "href")))
  }

  /** An anchor the listing scan keeps (before deduplication). */
  predicate IsListingAnchor(n: Node, resolve: Resolver) {
    && HasHref(n)
    && Contains(n.attrs["href"], ListingSegment)
    && ListingTarget(n, resolve).scheme in {"http", "https"}
  }

  /** The URLs of the listing anchors among the first `k` nodes, in document order. */
  function ListingCandidates(listing: Doc, k: nat, resolve: Resolver): seq<string>
    requires k <= |listing|
  {
    if k == 0 then []
    else
      var n := listing[k - 1];
      ListingCandidates(listing, k - 1, resolve)
        + (if IsListingAnchor(n, resolve) then [ListingTarget(n, resolve).url] else [])
  }

  /** Every candidate comes from a listing anchor, and every listing anchor gives one. */
  lemma {:induction false} CandidatesFromAnchors(listing: Doc, k: nat, resolve: Resolver)
    requires k <= |listing|
    ensures forall u :: u in ListingCandidates(listing, k, resolve) ==>
      exists j :: 0 <= j < k && IsListingAnchor(listing[j], resolve) && u == ListingTarget(listing[j], resolve).url
    ensures forall j :: 0 <= j < k && IsListingAnchor(listing[j], resolve) ==>
      ListingTarget(listing[j], resolve).url in ListingCandidates(listing, k, resolve)
  {
    if k > 0 {
      CandidatesFromAnchors(listing, k - 1, resolve);
    }
  }

  /** One more node of the scan, with the `seen` set kept beside the list:
      a new listing URL is appended to both, anything else changes nothing. */
  lemma ListingStep(listing: Doc, i: nat, resolve: Resolver, found: seq<string>, seen: set<string>)
    requires i < |listing|
    requires found == Dedup(ListingCandidates(listing, i, resolve))
    requires forall u :: u in seen <==> u in found
    ensures var u := ListingTarget(listing[i], resolve).url;
      && (IsListingAnchor(listing[i], resolve) && u !in seen ==>
            && Dedup(ListingCandidates(listing, i + 1, resolve)) == found + [u]
            && forall x :: x in seen + {u} <==> x in found + [u])
      && (IsListingAnchor(listing[i], resolve) && u in seen ==> Dedup(ListingCandidates(listing, i + 1, resolve)) == found)
      && (!IsListingAnchor(listing[i], resolve) ==> Dedup(ListingCandidates(listing, i + 1, resolve)) == found)
  {
    var before := ListingCandidates(listing, i, resolve);
    if IsListingAnchor(listing[i], resolve) {
      DedupSnoc(before, ListingTarget(listing[i], resolve).url);
    } else {
      assert ListingCandidates(listing, i + 1, resolve) == before + [];
      assert before + [] == before;
    }
  }

  /** `list_article_urls`, given the fetched listing page. */
  method ListArticleUrls(listing: Doc, limit: int, resolve: Resolver) returns (urls: seq<string>)
    ensures urls == PyTake(Dedup(ListingCandidates(listing, |listing|, resolve)), limit)
  {
    var found: seq<string> := [];
    var seen: set<string> := {};
    var i := 0;
    while i < |listing|
      invariant 0 <= i <= |listing|
      invariant found == Dedup(ListingCandidates(listing, i, resolve))
      invariant forall u :: u in seen <==> u in found
    {
      ListingStep(listing, i, resolve, found, seen);
      var a := listing[i];
      if HasHref(a) && Contains(a.attrs["href"], ListingSegment) {
        var u := resolve(ListUrl, StripQueryAndFragment(a.attrs["href"]));
        if u.scheme in {"http", "https"} {
          if u.url !in seen {
            seen := seen + {u.url};
            found := found + [u.url];
          }
        }
      }
      i := i + 1;
    }
    urls := PyTake(found, limit);
  }

  lemma {:induction false} CandidatesPrefix(listing: Doc, k: nat, n: nat, resolve: Resolver)
    requires k <= n <= |listing|
    ensures var c := ListingCandidates(listing, n, resolve);
      |ListingCandidates(listing, k, resolve)| <= |c| && ListingCandidates(listing, k, resolve) == c[..|ListingCandidates(listing, k, resolve)|]
    decreases n - k
  {
    if k < n {
      CandidatesPrefix(listing, k, n - 1, resolve);
    }
  }

  /** The listing scan returns listing anchors only, each once, at most `limit` of them. */
  lemma ListingUrlsSound(listing: Doc, limit: int, resolve: Resolver)
    ensures var urls := PyTake(Dedup(ListingCandidates(listing, |listing|, resolve)), limit);
      && NoDups(urls)
      && (0 <= limit ==> |urls| <= limit)
      && forall u :: u in urls ==> exists j :: 0 <= j < |listing| && IsListingAnchor(listing[j], resolve) && u == ListingTarget(listing[j], resolve).url
  {
    var all := ListingCandidates(listing, |listing|, resolve);
    var d := Dedup(all);
    var urls := PyTake(d, limit);
    CandidatesFromAnchors(listing, |listing|, resolve);
    DedupMembers(all);
    forall u | u in urls ensures u in all {
      var m :| 0 <= m < |urls| && urls[m] == u;
      assert d[m] == u;
    }
  }

  /** Every listing anchor's URL is found, and a limit at least the number of
      distinct URLs keeps them all. */
  lemma ListingUrlsComplete(listing: Doc, limit: int, resolve: Resolver)
    ensures var d := Dedup(ListingCandidates(listing, |listing|, resolve));
      && (forall j :: 0 <= j < |listing| && IsListingAnchor(listing[j], resolve) ==> ListingTarget(listing[j], resolve).url in d)
      && (|d| <= limit ==> PyTake(d, limit) == d)
  {
    CandidatesFromAnchors(listing, |listing|, resolve);
    DedupMembers(ListingCandidates(listing, |listing|, resolve));
  }

  /** ... and in the order of their first occurrence: scanning a prefix of the
      page yields a prefix of the result. */
  lemma ListingUrlsOrder(listing: Doc, k: nat, resolve: Resolver)
    requires k <= |listing|
    ensures var d := Dedup(ListingCandidates(listing, |listing|, resolve));
      var dk := Dedup(ListingCandidates(listing, k, resolve));
      |dk| <= |d| && dk == d[..|dk|]
  {
    CandidatesPrefix(listing, k, |listing|, resolve);
    var all := ListingCandidates(listing, |listing|, resolve);
    DedupPrefix(all, |ListingCandidates(listing, k, resolve)|);
  }

  // ---------------- Publication time and post title ----------------

  predicate TagWithAttr(n: Node, tag: string, key: string, value: string) {
    n.tag == tag && key in n.attrs && n.attrs[key] == value
  }

  /** `soup.find(tag, {key: value})`: the first such node at or after `from`. */
  function FindWithAttr(doc: Doc, tag: string, key: string, value: string, from: nat): (r: Option<nat>)
    requires from <= |doc|
    ensures r.Some? ==> from <= r.value < |doc| && TagWithAttr(doc[r.value], tag, key, value)
    ensures r.Some? ==> forall j :: from <= j < r.value ==> !TagWithAttr(doc[j], tag, key, value)
    ensures r.None? ==> forall j :: from <= j < |doc| ==> !TagWithAttr(doc[j], tag, key, value)
  {
    var p := (n: Node) => TagWithAttr(n, tag, key, value);
    FirstWhereIsFirst(doc, from, p);
    FirstWhere(doc, from, p)
  }

  /** The publication-time element: the first `meta property=...`, else the
      first `meta name=...`, else the first `time itemprop=datePublished`. */
  function PublishedTimeNode(doc: Doc): Option<nat> {
    var byProperty := FindWithAttr(doc, "meta", "property", "article:published_time", 0);
    var byName := FindWithAttr(doc, "meta", "name", "article:published_time", 0);
    var byTime := FindWithAttr(doc, "time", "itemprop", "datePublished", 0);
    if byProperty.Some? then byProperty else if byName.Some? then byName else byTime
  }

  /** `extract_posted_at`: the element's `content`, else its `datetime`,
      stripped; None when that is empty. Only the first element found is
      consulted: a later one is not tried when the first has no value. */
  function ExtractPostedAt(doc: Doc): (r: Option<string>)
    ensures PublishedTimeNode(doc).None? ==> r.None?
    ensures PublishedTimeNode(doc).Some? ==> var n := doc[PublishedTimeNode(doc).value];
      (r.None? <==> Strip(if Attr(n, "content") != "" then Attr(n, "content") else Attr(n, "datetime")) == "")
    ensures r.Some? ==> r.value != [] && !IsSpace(r.value[0]) && !IsSpace(r.value[|r.value| - 1])
    ensures r.Some? ==> var n := doc[PublishedTimeNode(doc).value];
      r.value == Strip(if Attr(n, "content") != "" then Attr(n, "content") else Attr(n, "datetime"))
  {
    match PublishedTimeNode(doc)
    case None => None
    case Some(i) =>
      var n := doc[i];
      var v := Strip(if Attr(n, "content") != "" then Attr(n, "content") else Attr(n, "datetime"));
      if v == "" then None else Some(v)
  }

  /** `soup.find(["h1", "h2"])` */
  function FirstHeading(doc: Doc, from: nat): (r: Option<nat>)
    requires from <= |doc|
    ensures r.Some? ==> from <= r.value < |doc| && doc[r.value].tag in {"h1", "h2"}
    ensures r.Some? ==> forall j :: from <= j < r.value ==> doc[j].tag !in {"h1", "h2"}
    ensures r.None? ==> forall j :: from <= j < |doc| ==> doc[j].tag !in {"h1", "h2"}
  {
    var p := (n: Node) => n.tag in {"h1", "h2"};
    FirstWhereIsFirst(doc, from, p);
    FirstWhere(doc, from, p)
  }

  /** The post title used for logging and as the institution fallback:
      `og:title`, else the first h1/h2 text, else the URL; normalised.
      (`get_text(" ", strip=True)` and `get_text(" ")` agree once normalised.) */
  function PostTitle(doc: Doc, url: string): (r: string)
    ensures IsNormal(r)
  {
    var meta := FindWithAttr(doc, "meta", "property", "og:title", 0);
    var fromMeta := if meta.Some? then Attr(doc[meta.value], "content") else "";
    var h := FirstHeading(doc, 0);
    var source := if fromMeta != "" then fromMeta else if h.Some? then doc[h.value].text else url;
    NormIsNormal(source);
    Norm(source)
  }

  /** A non-empty `content` of the first `og:title` meta decides the title. */
  lemma PostTitleFromMeta(doc: Doc, url: string, m: nat)
    requires m < |doc| && TagWithAttr(doc[m], "meta", "property", "og:title") && Attr(doc[m], "content") != ""
    requires forall j :: 0 <= j < m ==> !TagWithAttr(doc[j], "meta", "property", "og:title")
    ensures PostTitle(doc, url) == Norm(Attr(doc[m], "content"))
  {
    assert FindWithAttr(doc, "meta", "property", "og:title", 0) == Some(m);
  }

  /** Without a content on the first `og:title` meta, the first h1/h2 decides the
      title, even when its text is blank; a later `og:title` meta is not consulted. */
  lemma PostTitleFromHeading(doc: Doc, url: string, h: nat)
    requires var m := FindWithAttr(doc, "meta", "property", "og:title", 0);
      m.None? || Attr(doc[m.value], "content") == ""
    requires h < |doc| && doc[h].tag in {"h1", "h2"}
    requires forall j :: 0 <= j < h ==> doc[j].tag !in {"h1", "h2"}
    ensures PostTitle(doc, url) == Norm(doc[h].text)
  {
    assert FirstHeading(doc, 0) == Some(h);
  }

  /** A post with no h1/h2 whose first `og:title` meta, if any, has no content is titled by its URL. */
  lemma PostTitleFromUrl(doc: Doc, url: string)
    requires forall j :: 0 <= j < |doc| ==> doc[j].tag !in {"h1", "h2"}
    requires var m := FindWithAttr(doc, "meta", "property", "og:title", 0);
      m.None? || Attr(doc[m.value], "content") == ""
    ensures PostTitle(doc, url) == Norm(url)
  {
  }

  /** A page whose first `og:title` meta is empty and whose second one has content, then an h1. */
  function LaterMetaPage(): Doc {
    [ Node(RootTag, [], map[], "", None),
      Node("meta", [], map["property" := "og:title", "content" := ""], "", Some(0)),
      Node("meta", [], map["property" := "og:title", "content" := "X"], "", Some(0)),
      Node("h1", [], map[], "Head", Some(0)) ]
  }

  lemma LaterMetaPageFirstMeta()
    ensures FindWithAttr(LaterMetaPage(), "meta", "property", "og:title", 0) == Some(1)
  {
    var doc := LaterMetaPage();
    assert !TagWithAttr(doc[0], "meta", "property", "og:title");
    assert TagWithAttr(doc[1], "meta", "property", "og:title");
  }

  /** An empty first `og:title` hides a later one with content: the heading titles the page. */
  lemma PostTitleLaterMetaExample(url: string)
    ensures PostTitle(LaterMetaPage(), url) == Norm("Head")
  {
    var doc := LaterMetaPage();
    LaterMetaPageFirstMeta();
    assert doc[0].tag !in {"h1", "h2"} && doc[1].tag !in {"h1", "h2"} && doc[2].tag !in {"h1", "h2"};
    PostTitleFromHeading(doc, url, 3);
  }

  // ---------------- Tables and the section title ----------------

  /** `soup.find_all("table")` among the first `k` nodes, as indices. */
  function TablesIn(doc: Doc, k: nat): (r: seq<nat>)
    requires k <= |doc|
    ensures forall m :: 0 <= m < |r| ==> r[m] < k && doc[r[m]].tag == "table"
    ensures forall i :: 0 <= i < k && doc[i].tag == "table" ==> i in r
    ensures forall m, m' :: 0 <= m < m' < |r| ==> r[m] < r[m']
  {
    if k == 0 then []
    else TablesIn(doc, k - 1) + (if doc[k - 1].tag == "table" then [k - 1] else [])
  }

  function Tables(doc: Doc): seq<nat> {
    TablesIn(doc, |doc|)
  }

  /** A node `last_bold_before` accepts: strong/b/h2/h3/h4 with non-empty text other than "aviso". */
  predicate IsTitleNode(n: Node) {
    n.tag in TitleTags && Norm(n.text) != "" && !IsAviso(Norm(n.text))
  }

  /** The nearest title node strictly before `k` (`find_all_previous` reads
      the prefix backwards; it includes the ancestors of node `k`). */
  function NearestTitleIndex(doc: Doc, k: nat): (r: Option<nat>)
    requires k <= |doc|
    ensures r.Some? ==> r.value < k && IsTitleNode(doc[r.value])
  {
    LastBefore(doc, k, IsTitleNode)
  }

  /** The title node found is the nearest one: none lies between it and `k`,
      and when none is found there is none before `k` at all. */
  lemma NearestTitleIndexIsNearest(doc: Doc, k: nat)
    requires k <= |doc|
    ensures var r := NearestTitleIndex(doc, k);
      && (r.Some? ==> forall j :: r.value < j < k ==> !IsTitleNode(doc[j]))
      && (r.None? ==> forall j :: 0 <= j < k ==> !IsTitleNode(doc[j]))
  {
    LastBeforeIsNearest(doc, k, IsTitleNode);
  }

  function TitleText(doc: Doc, t: Option<nat>): Option<string>
    requires t.Some? ==> t.value < |doc|
  {
    if t.Some? then Some(Norm(doc[t.value].text)) else None
  }

  /** `last_bold_before(node)`: a backward scan with an early return. */
  method LastBoldBefore(doc: Doc, node: nat) returns (title: Option<string>)
    requires node < |doc|
    ensures title == TitleText(doc, NearestTitleIndex(doc, node))
  {
    var i := node;
    while i > 0
      invariant 0 <= i <= node
      invariant NearestTitleIndex(doc, node) == NearestTitleIndex(doc, i)
    {
      var prev := doc[i - 1];
      if prev.tag in {"strong", "b"} {
        var txt := Norm(prev.text);
        if txt != "" && !IsAviso(txt) {
          return Some(txt);
        }
      }
      if prev.tag in {"h2", "h3", "h4"} {
        var txt := Norm(prev.text);
        if txt != "" && !IsAviso(txt) {
          return Some(txt);
        }
      }
      i := i - 1;
    }
    return None;
  }

  /** The section title with its tables: None when there is no table. */
  datatype Section = Section(title: string, firstTable: nat, lastTable: nat)

  /** `first_section_title_from_tables` */
  method FirstSectionTitleFromTables(doc: Doc) returns (s: Option<Section>)
    ensures s.None? <==> Tables(doc) == []
    ensures s.Some? ==> var ts := Tables(doc);
      && s.value.firstTable == ts[0] && s.value.lastTable == ts[|ts| - 1]
      && s.value.title == TitleText(doc, NearestTitleIndex(doc, ts[0])).GetOr(DefaultSectionTitle)
  {
    var tables := Tables(doc);
    if tables == [] {
      return None;
    }
    var first := tables[0];
    var title := LastBoldBefore(doc, first);
    return Some(Section(title.GetOr(DefaultSectionTitle), first, tables[|tables| - 1]));
  }

  /** The first table is the smallest table index and the last the largest. */
  lemma TablesBounds(doc: Doc)
    requires Tables(doc) != []
    ensures var ts := Tables(doc);
      && (forall i :: 0 <= i < |doc| && doc[i].tag == "table" ==> ts[0] <= i <= ts[|ts| - 1])
      && doc[ts[0]].tag == "table" && doc[ts[|ts| - 1]].tag == "table"
  {
    var ts := Tables(doc);
    forall i | 0 <= i < |doc| && doc[i].tag == "table" ensures ts[0] <= i <= ts[|ts| - 1] {
      var m :| 0 <= m < |ts| && ts[m] == i;
    }
  }

  // ---------------- Official link ----------------

  /** The host test of `extract_official_link_tag`: present, not the source
      site and not one of the social networks (all substring tests). */
  predicate OfficialHost(host: string) {
    && host != ""
    && !Contains(host, SourceHost)
    && forall k :: 0 <= k < |Social| ==> !Contains(host, Social[k])
  }

  /** An anchor `extract_official_link_tag` accepts. */
  predicate IsOfficialAnchor(n: Node, base: string, resolve: Resolver) {
    && HasHref(n)
    && AnchorTextMatches(Norm(n.text))
    && OfficialHost(Lower(resolve(base, n.attrs["href"]).hostname))
  }

  /** The first accepted anchor at or after `from`. */
  function FirstOfficial(doc: Doc, from: nat, base: string, resolve: Resolver): (r: Option<nat>)
    requires from <= |doc|
    ensures r.Some? ==> from <= r.value < |doc| && IsOfficialAnchor(doc[r.value], base, resolve)
  {
    FirstWhere(doc, from, n => IsOfficialAnchor(n, base, resolve))
  }

  /** The anchor found is the first one: no earlier node qualifies, and when
      none is found no node from `from` on qualifies. */
  lemma FirstOfficialIsFirst(doc: Doc, from: nat, base: string, resolve: Resolver)
    requires from <= |doc|
    ensures var r := FirstOfficial(doc, from, base, resolve);
      && (r.Some? ==> forall j :: from <= j < r.value ==> !IsOfficialAnchor(doc[j], base, resolve))
      && (r.None? ==> forall j :: from <= j < |doc| ==> !IsOfficialAnchor(doc[j], base, resolve))
  {
    FirstWhereIsFirst(doc, from, n => IsOfficialAnchor(n, base, resolve));
  }

  /** One more node of the forward scan. */
  lemma OfficialStep(doc: Doc, i: nat, base: string, resolve: Resolver)
    requires i < |doc|
    ensures FirstOfficial(doc, i, base, resolve)
         == if IsOfficialAnchor(doc[i], base, resolve) then Some(i) else FirstOfficial(doc, i + 1, base, resolve)
  {
  }

  /** The pair `(href_oficial, a_tag_oficial)`. */
  datatype OfficialLink = OfficialLink(href: string, anchor: nat)

  /** `extract_official_link_tag`: the first anchor in document order whose
      text carries the official-page phrase and whose host is acceptable. */
  method ExtractOfficialLinkTag(doc: Doc, base: string, resolve: Resolver) returns (link: Option<OfficialLink>)
    ensures link.None? <==> FirstOfficial(doc, 0, base, resolve).None?
    ensures link.Some? ==> var i := link.value.anchor;
      && FirstOfficial(doc, 0, base, resolve) == Some(i)
      && link.value.href == resolve(base, doc[i].attrs["href"]).url
  {
    var i := 0;
    while i < |doc|
      invariant 0 <= i <= |doc|
      invariant FirstOfficial(doc, 0, base, resolve) == FirstOfficial(doc, i, base, resolve)
    {
      OfficialStep(doc, i, base, resolve);
      var a := doc[i];
      if HasHref(a) {
        var txt := Norm(a.text);
        if AnchorTextMatches(txt) {
          var href := resolve(base, a.attrs["href"]);
          var host := Lower(href.hostname);
          if host != "" && !Contains(host, SourceHost) && forall k :: 0 <= k < |Social| ==> !Contains(host, Social[k]) {
            assert IsOfficialAnchor(a, base, resolve);
            return Some(OfficialLink(href.url, i));
          }
          assert !OfficialHost(host);
        }
      }
      assert !IsOfficialAnchor(a, base, resolve);
      i := i + 1;
    }
    return None;
  }

  /** "x.com" is a substring test, so a host such as "box.com" is rejected too. */
  lemma SocialIsSubstringTest()
    ensures !OfficialHost("box.com")
  {
    assert OccursAt("box.com", 2, Social[7]);
  }

  // ---------------- Disclaimer block ----------------

  /** `find_disclaimer_block`: the nearest p/div/section/article/blockquote
      ancestor of the anchor, else its parent; None only without an anchor. */
  function FindDisclaimerBlock(doc: Doc, a: Option<nat>): (r: Option<nat>)
    requires WellFormed(doc) && (a.Some? ==> a.value < |doc|)
    ensures r.Some? ==> a.Some? && r.value < a.value
    ensures a.Some? && a.value > 0 ==> r.Some? && IsAncestor(doc, r.value, a.value)
    ensures a.Some? && r.Some? ==>
      || (doc[r.value].tag in BlockTags
          && forall b :: r.value < b < a.value && IsAncestor(doc, b, a.value) ==> doc[b].tag !in BlockTags)
      || (r == doc[a.value].parent
          && forall b :: 0 <= b < a.value && IsAncestor(doc, b, a.value) ==> doc[b].tag !in BlockTags)
  {
    if a.None? then None
    else
      var p := FindParent(doc, a.value, BlockTags);
      if p.Some? then p else doc[a.value].parent
  }

  // ---------------- PDF buttons ----------------

  /** Where the scan after the last table stops: the block itself, or a child of it. */
  predicate IsStop(doc: Doc, j: nat, block: nat)
    requires j < |doc|
  {
    j == block || doc[j].parent == Some(block)
  }

  /** The first stopping node at or after `from`, or `|doc|`. */
  function FirstStop(doc: Doc, from: nat, block: nat): (r: nat)
    requires from <= |doc|
    ensures from <= r <= |doc|
    ensures r < |doc| ==> IsStop(doc, r, block)
    decreases |doc| - from
  {
    if from == |doc| then |doc|
    else if IsStop(doc, from, block) then from
    else FirstStop(doc, from + 1, block)
  }

  /** No node before the first stopping node stops the scan. */
  lemma {:induction false} FirstStopIsFirst(doc: Doc, from: nat, block: nat)
    requires from <= |doc|
    ensures forall j :: from <= j < FirstStop(doc, from, block) ==> !IsStop(doc, j, block)
    decreases |doc| - from
  {
    if from < |doc| && !IsStop(doc, from, block) {
      FirstStopIsFirst(doc, from + 1, block);
    }
  }

  /** A node before the stop that does not stop the scan moves it on by one. */
  lemma {:induction false} StopStep(doc: Doc, from: nat, i: nat, block: nat)
    requires from <= i < |doc| && i <= FirstStop(doc, from, block) && !IsStop(doc, i, block)
    ensures i + 1 <= FirstStop(doc, from, block)
  {
  }

  /** `<a class="wp-block-button__link" href=...pdf>` */
  predicate IsPdfButton(n: Node) {
    n.tag == "a" && ButtonClass in n.classes && IsPdfHref(Attr(n, "href"))
  }

  /** The absolute URLs of the PDF buttons among nodes `lo` .. `hi - 1`, in order. */
  function ButtonUrls(doc: Doc, lo: nat, hi: nat, base: string, resolve: Resolver): seq<string>
    requires lo <= hi <= |doc|
    decreases hi - lo
  {
    if hi == lo then []
    else
      var n := doc[hi - 1];
      ButtonUrls(doc, lo, hi - 1, base, resolve) + (if IsPdfButton(n) then [resolve(base, Attr(n, "href")).url] else [])
  }

  /** The buttons between the last table and the disclaimer block, each URL once. */
  function PdfButtons(doc: Doc, lastTable: nat, block: nat, base: string, resolve: Resolver): seq<string>
    requires lastTable < |doc|
  {
    Dedup(ButtonUrls(doc, lastTable + 1, FirstStop(doc, lastTable + 1, block), base, resolve))
  }

  lemma {:induction false} ButtonUrlsFromButtons(doc: Doc, lo: nat, hi: nat, base: string, resolve: Resolver)
    requires lo <= hi <= |doc|
    ensures forall u :: u in ButtonUrls(doc, lo, hi, base, resolve) ==>
      exists j :: lo <= j < hi && IsPdfButton(doc[j]) && u == resolve(base, Attr(doc[j], "href")).url
    ensures forall j :: lo <= j < hi && IsPdfButton(doc[j]) ==>
      resolve(base, Attr(doc[j], "href")).url in ButtonUrls(doc, lo, hi, base, resolve)
    decreases hi - lo
  {
    if hi > lo {
      ButtonUrlsFromButtons(doc, lo, hi - 1, base, resolve);
    }
  }

  /** Every extracted URL is that of a PDF button after the last table and
      before the first stopping node. */
  lemma PdfButtonsSound(doc: Doc, lastTable: nat, block: nat, base: string, resolve: Resolver)
    requires lastTable < |doc|
    ensures var stop := FirstStop(doc, lastTable + 1, block);
      forall u :: u in PdfButtons(doc, lastTable, block, base, resolve) ==>
        exists j :: lastTable < j < stop && IsPdfButton(doc[j]) && u == resolve(base, Attr(doc[j], "href")).url
  {
    var stop := FirstStop(doc, lastTable + 1, block);
    var all := ButtonUrls(doc, lastTable + 1, stop, base, resolve);
    var pdfs := Dedup(all);
    ButtonUrlsFromButtons(doc, lastTable + 1, stop, base, resolve);
    DedupMembers(all);
    forall u | u in pdfs ensures u in all {
      var m :| 0 <= m < |pdfs| && pdfs[m] == u;
    }
  }

  /** Every PDF button in that range contributes its URL. */
  lemma PdfButtonsComplete(doc: Doc, lastTable: nat, block: nat, base: string, resolve: Resolver)
    requires lastTable < |doc|
    ensures var stop := FirstStop(doc, lastTable + 1, block);
      forall j :: lastTable < j < stop && IsPdfButton(doc[j]) ==>
        resolve(base, Attr(doc[j], "href")).url in PdfButtons(doc, lastTable, block, base, resolve)
  {
    var stop := FirstStop(doc, lastTable + 1, block);
    var all := ButtonUrls(doc, lastTable + 1, stop, base, resolve);
    ButtonUrlsFromButtons(doc, lastTable + 1, stop, base, resolve);
    DedupMembers(all);
    forall j | lastTable < j < stop && IsPdfButton(doc[j])
      ensures resolve(base, Attr(doc[j], "href")).url in Dedup(all)
    {
      var u := resolve(base, Attr(doc[j], "href")).url;
      var m :| 0 <= m < |all| && all[m] == u;
    }
  }

  lemma {:induction false} ButtonUrlsPrefix(doc: Doc, lo: nat, k: nat, hi: nat, base: string, resolve: Resolver)
    requires lo <= k <= hi <= |doc|
    ensures var c := ButtonUrls(doc, lo, hi, base, resolve);
      |ButtonUrls(doc, lo, k, base, resolve)| <= |c| && ButtonUrls(doc, lo, k, base, resolve) == c[..|ButtonUrls(doc, lo, k, base, resolve)|]
    decreases hi - k
  {
    if k < hi {
      ButtonUrlsPrefix(doc, lo, k, hi - 1, base, resolve);
    }
  }

  /** The PDFs come in the order the scan first meets them: the URLs found up
      to any point of the scan are a prefix of the result. */
  lemma PdfButtonsOrder(doc: Doc, lastTable: nat, block: nat, base: string, resolve: Resolver, k: nat)
    requires lastTable < |doc| && lastTable + 1 <= k <= FirstStop(doc, lastTable + 1, block)
    ensures var early := Dedup(ButtonUrls(doc, lastTable + 1, k, base, resolve));
      var pdfs := PdfButtons(doc, lastTable, block, base, resolve);
      |early| <= |pdfs| && early == pdfs[..|early|]
  {
    var stop := FirstStop(doc, lastTable + 1, block);
    ButtonUrlsPrefix(doc, lastTable + 1, k, stop, base, resolve);
    var all := ButtonUrls(doc, lastTable + 1, stop, base, resolve);
    DedupPrefix(all, |ButtonUrls(doc, lastTable + 1, k, base, resolve)|);
  }

  /** One more node of the scan, with the `seen` set kept beside the list:
      a new button URL is appended to both, anything else changes nothing. */
  lemma ButtonStep(doc: Doc, lo: nat, i: nat, base: string, resolve: Resolver, pdfs: seq<string>, seen: set<string>)
    requires lo <= i < |doc|
    requires pdfs == Dedup(ButtonUrls(doc, lo, i, base, resolve))
    requires forall u :: u in seen <==> u in pdfs
    ensures var u := resolve(base, Attr(doc[i], "href")).url;
      && (IsPdfButton(doc[i]) && u !in seen ==>
            && Dedup(ButtonUrls(doc, lo, i + 1, base, resolve)) == pdfs + [u]
            && forall x :: x in seen + {u} <==> x in pdfs + [u])
      && (IsPdfButton(doc[i]) && u in seen ==> Dedup(ButtonUrls(doc, lo, i + 1, base, resolve)) == pdfs)
      && (!IsPdfButton(doc[i]) ==> Dedup(ButtonUrls(doc, lo, i + 1, base, resolve)) == pdfs)
  {
    var before := ButtonUrls(doc, lo, i, base, resolve);
    if IsPdfButton(doc[i]) {
      DedupSnoc(before, resolve(base, Attr(doc[i], "href")).url);
    } else {
      assert ButtonUrls(doc, lo, i + 1, base, resolve) == before;
    }
  }

  /** `extract_pdf_buttons_between`: walks `next_elements` of the last table,
      stops at the disclaimer block or a child of it, and keeps each PDF
      button URL the first time it is seen. */
  method ExtractPdfButtonsBetween(doc: Doc, lastTable: Option<nat>, block: Option<nat>, base: string, resolve: Resolver)
    returns (pdfs: seq<string>)
    requires lastTable.Some? ==> lastTable.value < |doc|
    ensures lastTable.None? || block.None? ==> pdfs == []
    ensures lastTable.Some? && block.Some? ==> pdfs == PdfButtons(doc, lastTable.value, block.value, base, resolve)
  {
    if lastTable.None? || block.None? {
      return [];
    }
    var t := lastTable.value;
    var b := block.value;
    ghost var stop := FirstStop(doc, t + 1, b);
    pdfs := [];
    var seen: set<string> := {};
    var i := t + 1;
    FirstStopIsFirst(doc, t + 1, b);
    while i < |doc|
      invariant t + 1 <= i <= stop
      invariant pdfs == Dedup(ButtonUrls(doc, t + 1, i, base, resolve))
      invariant forall u :: u in seen <==> u in pdfs
    {
      if IsStop(doc, i, b) {
        break;
      }
      StopStep(doc, t + 1, i, b);
      ButtonStep(doc, t + 1, i, base, resolve, pdfs, seen);
      var el := doc[i];
      if el.tag == "a" {
        var href := Attr(el, "href");
        if ButtonClass in el.classes && IsPdfHref(href) {
          var absu := resolve(base, href).url;
          if absu !in seen {
            seen := seen + {absu};
            pdfs := pdfs + [absu];
          }
        }
      }
      i := i + 1;
    }
    assert i == stop;
  }

  // ---------------- parse_post ----------------

  /** The title before the first table, else "Resumo". */
  function SectionTitle(doc: Doc): string
    requires Tables(doc) != []
  {
    TitleText(doc, NearestTitleIndex(doc, Tables(doc)[0])).GetOr(DefaultSectionTitle)
  }

  function LastTable(doc: Doc): (r: nat)
    requires Tables(doc) != []
    ensures r < |doc|
  {
    Tables(doc)[|Tables(doc)| - 1]
  }

  /** The official link's absolute URL, or "" when no anchor qualifies. */
  function OfficialHref(doc: Doc, base: string, resolve: Resolver): string {
    var f := FirstOfficial(doc, 0, base, resolve);
    if f.Some? then resolve(base, doc[f.value].attrs["href"]).url else ""
  }

  /** The PDF buttons between the last table and the official link's block. */
  function PostPdfs(doc: Doc, base: string, resolve: Resolver): seq<string>
    requires WellFormed(doc) && Tables(doc) != [] && FirstOfficial(doc, 0, base, resolve).Some?
  {
    var a := FirstOfficial(doc, 0, base, resolve).value;
    var block := FindDisclaimerBlock(doc, Some(a));
    if block.Some? then PdfButtons(doc, LastTable(doc), block.value, base, resolve) else []
  }

  /** `parse_post` on the fetched article `doc` of `url`, with `capturedAt`
      standing for the clock. The gates run in the source's order; the
      disclaimer-block gate can never reject, since the official link's
      anchor always has a parent. */
  method ParsePost(url: string, doc: Doc, capturedAt: string, resolve: Resolver) returns (out: Outcome)
    requires WellFormed(doc)
    ensures out == Rejected(NoTables) <==> Tables(doc) == []
    ensures out == Rejected(NoOfficialLink) <==> Tables(doc) != [] && OfficialHref(doc, url, resolve) == ""
    ensures out != Rejected(NoDisclaimerBlock)
    ensures out == Rejected(NoPdfButtons) <==>
      Tables(doc) != [] && OfficialHref(doc, url, resolve) != "" && PostPdfs(doc, url, resolve) == []
    ensures out.Accepted? ==>
      && Tables(doc) != [] && OfficialHref(doc, url, resolve) != ""
      && out.record == Record(BuildDisplayTitle(SectionTitle(doc), "", PostTitle(doc, url)),
                              PostPdfs(doc, url, resolve),
                              OfficialHref(doc, url, resolve),
                              ExtractPostedAt(doc).GetOr(capturedAt),
                              capturedAt)
    ensures out.Accepted? ==>
      && out.record.edital != [] && NoDups(out.record.edital)
      && out.record.linkOficial != "" && IsNormal(out.record.instituicao)
  {
    var title := PostTitle(doc, url);
    var postedAt := ExtractPostedAt(doc);
    var section := FirstSectionTitleFromTables(doc);
    if section.None? {
      return Rejected(NoTables);
    }
    var link := ExtractOfficialLinkTag(doc, url, resolve);
    if link.None? || link.value.href == "" {
      return Rejected(NoOfficialLink);
    }
    var anchor := link.value.anchor;
    assert doc[anchor].tag == "a";
    var block := FindDisclaimerBlock(doc, Some(anchor));
    assert block.Some?;
    var pdfs := ExtractPdfButtonsBetween(doc, Some(section.value.lastTable), block, url, resolve);
    if pdfs == [] {
      return Rejected(NoPdfButtons);
    }
    var instituicao := BuildDisplayTitle(section.value.title, "", title);
    return Accepted(Record(instituicao, pdfs, link.value.href, postedAt.GetOr(capturedAt), capturedAt));
  }
}

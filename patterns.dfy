/** The regular expressions of scripts/scrape_editais.py, each written out as
    a predicate on strings: ANCHOR_TXT, PDF_RE, AVISO_RE and the
    "Resumo Edital <name> <year>" pattern of build_display_title. */
module Patterns {
  import opened Wrappers
  import opened Text

  /** A pattern of single-character classes, matched against lower-cased text. */
  type CharClasses = seq<set<char>>

  function Lit(s: string): (r: CharClasses)
    ensures |r| == |s| && forall k :: 0 <= k < |s| ==> r[k] == {s[k]}
  {
    seq(|s|, k requires 0 <= k < |s| => {s[k]})
  }

  predicate ClassesAt(t: string, i: nat, pat: CharClasses) {
    i + |pat| <= |t| && forall k :: 0 <= k < |pat| ==> t[i + k] in pat[k]
  }

  const c_cedilla := '\U{00E7}'
  const a_tilde := '\U{00E3}'
  const a_acute := '\U{00E1}'

  /** "p[aá]gina oficial da " */
  const OfficialPrefix: CharClasses := [{'p'}, {'a', a_acute}] + Lit("gina oficial da ")

  /** The four alternatives that follow it. */
  const OfficialSubjects: seq<CharClasses> := [
    Lit("banca organizadora"),
    Lit("institui") + [{'c', c_cedilla}, {'a', a_tilde}] + Lit("o"),
    Lit("processo seletivo"),
    Lit("sele") + [{'c', c_cedilla}, {'a', a_tilde}] + Lit("o")
  ]

  /** ANCHOR_TXT matches the lower-cased text `t` at position `i`. */
  predicate AnchorAt(t: string, i: nat) {
    && ClassesAt(t, i, OfficialPrefix)
    && exists k :: 0 <= k < |OfficialSubjects| && ClassesAt(t, i + |OfficialPrefix|, OfficialSubjects[k])
  }

  function SearchAnchor(t: string, i: nat): (r: bool)
    ensures r <==> exists j: nat :: i <= j <= |t| && AnchorAt(t, j)
    decreases |t| - i
  {
    if i > |t| then false else AnchorAt(t, i) || SearchAnchor(t, i + 1)
  }

  /** `ANCHOR_TXT.search(txt)`: the case-insensitive phrase occurs somewhere in `txt`. */
  function AnchorTextMatches(txt: string): (r: bool)
    ensures r <==> exists j: nat :: j <= |txt| && AnchorAt(Lower(txt), j)
  {
    SearchAnchor(Lower(txt), 0)
  }

  /** PDF_RE matches at `i`: ".pdf" in any case, then "?", "#" or the end of the string. */
  predicate PdfAt(t: string, i: nat) {
    && i + 4 <= |t|
    && t[i] == '.' && LowerChar(t[i + 1]) == 'p' && LowerChar(t[i + 2]) == 'd' && LowerChar(t[i + 3]) == 'f'
    && (i + 4 == |t| || t[i + 4] == '?' || t[i + 4] == '#')
  }

  predicate SearchPdf(t: string, i: nat)
    decreases |t| - i
  {
    if i > |t| then false else PdfAt(t, i) || SearchPdf(t, i + 1)
  }

  /** `PDF_RE.search(t)` from position `i`: some later position matches. */
  lemma {:induction false} SearchPdfMeans(t: string, i: nat)
    ensures SearchPdf(t, i) <==> exists j: nat :: i <= j <= |t| && PdfAt(t, j)
    decreases |t| - i
  {
    if i <= |t| {
      SearchPdfMeans(t, i + 1);
    }
  }

  /** `is_pdf_href`. Since `href` is stripped first, the regex `$` can only mean the end of the string. */
  predicate IsPdfHref(href: string) {
    var h := Strip(href);
    h != [] && SearchPdf(h, 0)
  }

  /** A link is a PDF link exactly when its stripped form is non-empty and
      has ".pdf" right before its end, a "?" or a "#". */
  lemma IsPdfHrefMeans(href: string)
    ensures IsPdfHref(href) <==> Strip(href) != [] && exists j: nat :: j <= |Strip(href)| && PdfAt(Strip(href), j)
  {
    SearchPdfMeans(Strip(href), 0);
  }

  /** AVISO_RE: the text is the word "aviso" in any case, possibly surrounded by whitespace. */
  predicate IsAviso(txt: string) {
    var t := Strip(txt);
    && |t| == 5
    && LowerChar(t[0]) == 'a' && LowerChar(t[1]) == 'v' && LowerChar(t[2]) == 'i'
    && LowerChar(t[3]) == 's' && LowerChar(t[4]) == 'o'
  }

  /** A text is "aviso" exactly when, stripped and lower-cased, it reads "aviso";
      so "AVISO" with surrounding blanks is, and "Avisos" is not. */
  lemma IsAvisoMeans(txt: string)
    ensures IsAviso(txt) <==> Lower(Strip(txt)) == "aviso"
  {
    var t := Strip(txt);
    if IsAviso(txt) {
      assert Lower(t) == "aviso";
    }
    if Lower(t) == "aviso" {
      assert |t| == 5;
      assert Lower(t)[0] == 'a' && Lower(t)[1] == 'v' && Lower(t)[2] == 'i';
      assert Lower(t)[3] == 's' && Lower(t)[4] == 'o';
    }
  }

  /** `(?:19|20)\d{2}` */
  predicate IsYear(y: string) {
    |y| == 4 && ((y[0] == '1' && y[1] == '9') || (y[0] == '2' && y[1] == '0')) && IsDigit(y[2]) && IsDigit(y[3])
  }

  /** `rest` ends with whitespace followed by a year. */
  predicate EndsWithYear(rest: string) {
    |rest| >= 5 && IsYear(rest[|rest| - 4..]) && IsSpace(rest[|rest| - 5])
  }

  /** The lazy group `(.+?)` followed by `(?:\s+(?:19|20)\d{2})?\s*$`, on a
      `rest` that starts and ends with non-whitespace. The shortest group that
      lets the tail match is the part before the year when there is one;
      `.` does not match a line feed. */
  function NameGroup(rest: string): Option<string>
  {
    if EndsWithYear(rest) then
      var p := TrimRight(rest[..|rest| - 4]);
      if '\n' in p then None else Some(p)
    else if '\n' in rest then None
    else Some(rest)
  }

  /** The match of `^\s*Resumo\s+Edital\s+(.+?)(?:\s+(?:19|20)\d{2})?\s*$`
      (case-insensitive) on an already stripped title, giving group 1. */
  function ResumoName(t: string): Option<string>
  {
    if |t| < 6 || Lower(t[..6]) != "resumo" then None
    else
      var w := TrimLeft(t[6..]);
      if |w| == |t| - 6 || |w| < 6 || Lower(w[..6]) != "edital" then None
      else
        var rest := TrimLeft(w[6..]);
        if rest == [] || |rest| == |w| - 6 then None
        else NameGroup(rest)
  }

  /** `build_display_title`: the institution named in "Resumo Edital <name> <year>",
      else `instituicaoFull`, else `nomeFallback`, whitespace-collapsed. */
  function BuildDisplayTitle(firstSectionTitle: string, instituicaoFull: string, nomeFallback: string): (r: string)
    ensures IsNormal(r)
  {
    var t := Strip(firstSectionTitle);
    var m := if t != [] then ResumoName(t) else None;
    var source := if m.Some? then m.value else if instituicaoFull != "" then instituicaoFull else nomeFallback;
    NormIsNormal(source);
    Norm(source)
  }

  lemma StripOfTrimmed(s: string)
    requires s != [] && !IsSpace(s[0]) && !IsSpace(s[|s| - 1])
    ensures Strip(s) == s
  {
  }

  /** Parsing "Resumo Edital " + rest hands `rest` to the name group. */
  lemma ResumoPrefix(rest: string)
    requires rest != [] && !IsSpace(rest[0])
    ensures ResumoName("Resumo Edital " + rest) == NameGroup(rest)
  {
    var t := "Resumo Edital " + rest;
    var w := "Edital " + rest;
    assert t[..6] == "Resumo";
    assert Lower("Resumo") == "resumo";
    assert t[6..] == " " + w;
    assert (" " + w)[1..] == w;
    assert TrimLeft(w) == w;
    assert TrimLeft(t[6..]) == w;
    assert w[..6] == "Edital";
    assert Lower("Edital") == "edital";
    assert w[6..] == " " + rest;
    assert (" " + rest)[1..] == rest;
    assert TrimLeft(rest) == rest;
    assert TrimLeft(w[6..]) == rest;
  }

  /** "Resumo Edital <name> <year>" yields the name, whitespace-collapsed. */
  lemma DisplayTitleWithYear(name: string, year: string, instituicaoFull: string, nomeFallback: string)
    requires name != [] && !IsSpace(name[0]) && !IsSpace(name[|name| - 1]) && '\n' !in name && IsYear(year)
    ensures BuildDisplayTitle("Resumo Edital " + name + " " + year, instituicaoFull, nomeFallback) == Norm(name)
  {
    var rest := name + " " + year;
    var t := "Resumo Edital " + rest;
    assert "Resumo Edital " + name + " " + year == t;
    assert t[|t| - 1] == year[3];
    StripOfTrimmed(t);
    ResumoPrefix(rest);
    NameGroupWithYear(name, year);
  }

  /** The year after a name is split off, leaving the name. */
  lemma NameGroupWithYear(name: string, year: string)
    requires name != [] && !IsSpace(name[|name| - 1]) && '\n' !in name && IsYear(year)
    ensures NameGroup(name + " " + year) == Some(name)
  {
    var rest := name + " " + year;
    assert rest[|rest| - 4..] == year;
    assert rest[|rest| - 5] == ' ';
    assert rest[..|rest| - 4] == name + " ";
    assert (name + " ")[..|name|] == name;
    assert TrimRight(name + " ") == name;
  }

  /** "Resumo Edital <name>" without a trailing year yields the name, whitespace-collapsed. */
  lemma DisplayTitleNoYear(name: string, instituicaoFull: string, nomeFallback: string)
    requires name != [] && !IsSpace(name[0]) && !IsSpace(name[|name| - 1])
    requires '\n' !in name && !EndsWithYear(name)
    ensures BuildDisplayTitle("Resumo Edital " + name, instituicaoFull, nomeFallback) == Norm(name)
  {
    StripOfTrimmed("Resumo Edital " + name);
    ResumoPrefix(name);
  }

  /** A title that does not match falls back to `instituicaoFull`, then to `nomeFallback`. */
  lemma DisplayTitleFallback(firstSectionTitle: string, instituicaoFull: string, nomeFallback: string)
    requires ResumoName(Strip(firstSectionTitle)).None?
    ensures BuildDisplayTitle(firstSectionTitle, instituicaoFull, nomeFallback)
         == Norm(if instituicaoFull != "" then instituicaoFull else nomeFallback)
  {
  }

  /** "Resumo Edital Unicamp 2026" names Unicamp. */
  lemma YearExample()
    ensures BuildDisplayTitle("Resumo Edital Unicamp 2026", "", "") == "Unicamp"
  {
    assert "Resumo Edital Unicamp 2026" == "Resumo Edital " + "Unicamp" + " " + "2026";
    WordIsNormal("Unicamp");
    DisplayTitleWithYear("Unicamp", "2026", "", "");
    NormOfNormal("Unicamp");
  }

  /** "Resumo Edital Santa Casa" names Santa Casa. */
  lemma NoYearExample()
    ensures BuildDisplayTitle("Resumo Edital Santa Casa", "", "") == "Santa Casa"
  {
    assert "Resumo Edital Santa Casa" == "Resumo Edital " + "Santa Casa";
    assert "Santa Casa"[6..] == "Casa";
    WordIsNormal("Santa");
    WordIsNormal("Casa");
    JoinIsNormal("Santa", "Casa");
    assert "Santa" + " " + "Casa" == "Santa Casa";
    DisplayTitleNoYear("Santa Casa", "", "");
    NormOfNormal("Santa Casa");
  }

  const CapitalPhrase := "P\U{00C1}GINA OFICIAL DA SELE\U{00C7}\U{00C3}O"

  const LowerPhrase := "p\U{00E1}gina oficial da sele\U{00E7}\U{00E3}o"

  lemma CapitalLowered()
    ensures Lower(CapitalPhrase) == LowerPhrase
  {
  }

  lemma CapitalPrefix()
    ensures ClassesAt(LowerPhrase, 0, OfficialPrefix)
  {
  }

  lemma CapitalSubject()
    ensures ClassesAt(LowerPhrase, |OfficialPrefix|, OfficialSubjects[3])
  {
  }

  /** The official-link phrase matches in capitals. */
  lemma AnchorTextExample()
    ensures AnchorTextMatches(CapitalPhrase)
  {
    CapitalLowered();
    CapitalPrefix();
    CapitalSubject();
    assert AnchorAt(LowerPhrase, 0);
  }
}

/** `escapeHtml` of assets/app.js: five `replaceAll` calls, "&" first. The
    escaped string is described chunk by chunk: every character of the input
    becomes its entity when it is one of the characters already escaped and
    stays itself otherwise. Decoding the entities in reverse, "&amp;" last,
    gives the input back. */
module Html {

  /** The characters `escapeHtml` rewrites. */
  const Specials: set<char> := {'&', '<', '>', '"', '\''}

  /** The entity `escapeHtml` writes for each special character. */
  function Entity(c: char): string {
    if c == '&' then "&amp;"
    else if c == '<' then "&lt;"
    else if c == '>' then "&gt;"
    else if c == '"' then "&quot;"
    else "&#039;"
  }

  /** `String.prototype.replaceAll` with a string pattern: matches are found
      left to right and do not overlap. */
  function ReplaceAll(s: string, pat: string, rep: string): (r: string)
    requires pat != []
    decreases |s|
  {
    if |s| < |pat| then s
    else if s[..|pat|] == pat then rep + ReplaceAll(s[|pat|..], pat, rep)
    else [s[0]] + ReplaceAll(s[1..], pat, rep)
  }

  /** `escapeHtml(str)` on a string argument. */
  function EscapeHtml(s: string): string {
    var s1 := ReplaceAll(s, "&", "&amp;");
    var s2 := ReplaceAll(s1, "<", "&lt;");
    var s3 := ReplaceAll(s2, ">", "&gt;");
    var s4 := ReplaceAll(s3, "\"", "&quot;");
    ReplaceAll(s4, "'", "&#039;")
  }

  /** Decoding the five entities, "&amp;" last. */
  function Unescape(t: string): string {
    var t1 := ReplaceAll(t, "&#039;", "'");
    var t2 := ReplaceAll(t1, "&quot;", "\"");
    var t3 := ReplaceAll(t2, "&gt;", ">");
    var t4 := ReplaceAll(t3, "&lt;", "<");
    ReplaceAll(t4, "&amp;", "&")
  }

  /** One input character with the characters of `escaped` already rewritten. */
  function Chunk(escaped: set<char>, c: char): string {
    if c in escaped then Entity(c) else [c]
  }

  /** The input with the characters of `escaped` already rewritten. */
  function Enc(escaped: set<char>, s: string): string {
    if s == [] then [] else Chunk(escaped, s[0]) + Enc(escaped, s[1..])
  }

  /** Nothing to rewrite leaves the string as it is. */
  lemma {:induction false} EncNothing(s: string)
    ensures Enc({}, s) == s
  {
    if s != [] {
      EncNothing(s[1..]);
      assert s == [s[0]] + s[1..];
    }
  }

  /** A prefix that cannot start a match is copied. */
  lemma {:induction false} ReplaceAllSkip(x: string, y: string, pat: string, rep: string)
    requires pat != [] && pat[0] !in x
    ensures ReplaceAll(x + y, pat, rep) == x + ReplaceAll(y, pat, rep)
  {
    if x != [] {
      var s := x + y;
      assert s[0] == x[0];
      assert s[1..] == x[1..] + y;
      ReplaceAllSkip(x[1..], y, pat, rep);
      if |s| < |pat| {
        assert |y| < |pat|;
      } else {
        assert s[..|pat|][0] == x[0];
      }
    } else {
      assert x + y == y;
    }
  }

  /** A match at the front is replaced and the scan goes on after it. */
  lemma ReplaceAllMatch(pat: string, y: string, rep: string)
    requires pat != []
    ensures ReplaceAll(pat + y, pat, rep) == rep + ReplaceAll(y, pat, rep)
  {
    var s := pat + y;
    assert s[..|pat|] == pat;
    assert s[|pat|..] == y;
  }

  /** The five entities differ from one another at their second character,
      and only the first is "&". */
  lemma EntityShape(c: char)
    requires c in Specials
    ensures |Entity(c)| >= 4 && Entity(c)[0] == '&' && '&' !in Entity(c)[1..]
    ensures forall d :: d in Specials && d != c ==> Entity(d)[1] != Entity(c)[1]
    ensures '<' !in Entity(c) && '>' !in Entity(c) && '"' !in Entity(c) && '\'' !in Entity(c)
  {
  }

  /** A front that matches the pattern's first character but not its second
      and holds no second copy of that first character is copied. */
  lemma ReplaceAllMismatch(e: string, y: string, pat: string, rep: string)
    requires |e| >= 2 && |pat| >= 2 && e[0] == pat[0] && e[1] != pat[1] && pat[0] !in e[1..]
    ensures ReplaceAll(e + y, pat, rep) == e + ReplaceAll(y, pat, rep)
  {
    var s := e + y;
    if |s| < |pat| {
      assert ReplaceAll(s, pat, rep) == s;
      assert ReplaceAll(y, pat, rep) == y;
    } else {
      assert s[..|pat|][1] == e[1];
      assert s[..|pat|] != pat;
      assert ReplaceAll(s, pat, rep) == [s[0]] + ReplaceAll(s[1..], pat, rep);
      assert s[1..] == e[1..] + y;
      ReplaceAllSkip(e[1..], y, pat, rep);
      assert [e[0]] + (e[1..] + ReplaceAll(y, pat, rep)) == e + ReplaceAll(y, pat, rep);
    }
  }

  /** Another entity at the front is copied when decoding `Entity(c)`. */
  lemma ReplaceAllOtherEntity(d: char, c: char, y: string)
    requires d in Specials && c in Specials && d != c
    ensures ReplaceAll(Entity(d) + y, Entity(c), [c]) == Entity(d) + ReplaceAll(y, Entity(c), [c])
  {
    EntityShape(d);
    EntityShape(c);
    ReplaceAllMismatch(Entity(d), y, Entity(c), [c]);
  }

  /** Escaping one more character `c` adds it to the escaped set. */
  lemma {:induction false} EncodeStep(escaped: set<char>, c: char, s: string)
    requires escaped <= Specials && c in Specials && c !in escaped
    requires c == '&' || '&' in escaped
    requires c == '&' ==> escaped == {}
    ensures ReplaceAll(Enc(escaped, s), [c], Entity(c)) == Enc(escaped + {c}, s)
  {
    if s != [] {
      var rest := Enc(escaped, s[1..]);
      EncodeStep(escaped, c, s[1..]);
      var h := s[0];
      if h in escaped {
        EntityShape(h);
        assert c != '&';
        ReplaceAllSkip(Entity(h), rest, [c], Entity(c));
      } else if h == c {
        ReplaceAllMatch([c], rest, Entity(c));
      } else {
        ReplaceAllSkip([h], rest, [c], Entity(c));
      }
    }
  }

  /** Decoding the entity of `c` removes it from the escaped set, as long as
      "&" is still escaped (so that every "&" starts an entity). */
  lemma {:induction false} DecodeStep(escaped: set<char>, c: char, s: string)
    requires escaped <= Specials && c in escaped && '&' in escaped
    ensures ReplaceAll(Enc(escaped, s), Entity(c), [c]) == Enc(escaped - {c}, s)
  {
    if s != [] {
      var rest := Enc(escaped, s[1..]);
      DecodeStep(escaped, c, s[1..]);
      var h := s[0];
      EntityShape(c);
      if h == c {
        ReplaceAllMatch(Entity(c), rest, [c]);
      } else if h in escaped {
        ReplaceAllOtherEntity(h, c, rest);
      } else {
        ReplaceAllSkip([h], rest, Entity(c), [c]);
      }
    }
  }

  /** `escapeHtml` writes every special character as its entity. */
  lemma EscapeIsEnc(s: string)
    ensures EscapeHtml(s) == Enc(Specials, s)
  {
    EncNothing(s);
    EncodeStep({}, '&', s);
    assert {} + {'&'} == {'&'};
    assert Entity('&') == "&amp;";
    EncodeStep({'&'}, '<', s);
    assert {'&'} + {'<'} == {'&', '<'};
    assert Entity('<') == "&lt;";
    EncodeStep({'&', '<'}, '>', s);
    assert {'&', '<'} + {'>'} == {'&', '<', '>'};
    assert Entity('>') == "&gt;";
    EncodeStep({'&', '<', '>'}, '"', s);
    assert {'&', '<', '>'} + {'"'} == {'&', '<', '>', '"'};
    assert Entity('"') == "&quot;";
    EncodeStep({'&', '<', '>', '"'}, '\'', s);
    assert {'&', '<', '>', '"'} + {'\''} == Specials;
    assert Entity('\'') == "&#039;";
  }

  /** The escaped text has no "<", ">", '"' or "'" left. */
  lemma {:induction false} EncIsClean(s: string)
    ensures var t := Enc(Specials, s);
      '<' !in t && '>' !in t && '"' !in t && '\'' !in t
  {
    if s != [] {
      EncIsClean(s[1..]);
      if s[0] in Specials {
        EntityShape(s[0]);
      }
    }
  }

  lemma EscapeHtmlIsClean(s: string)
    ensures var t := EscapeHtml(s);
      '<' !in t && '>' !in t && '"' !in t && '\'' !in t
  {
    EscapeIsEnc(s);
    EncIsClean(s);
  }

  /** Decoding the entities, "&amp;" last, recovers the input exactly. */
  lemma EscapeRoundTrip(s: string)
    ensures Unescape(EscapeHtml(s)) == s
  {
    EscapeIsEnc(s);
    DecodeStep(Specials, '\'', s);
    assert Specials - {'\''} == {'&', '<', '>', '"'};
    DecodeStep({'&', '<', '>', '"'}, '"', s);
    assert {'&', '<', '>', '"'} - {'"'} == {'&', '<', '>'};
    DecodeStep({'&', '<', '>'}, '>', s);
    assert {'&', '<', '>'} - {'>'} == {'&', '<'};
    DecodeStep({'&', '<'}, '<', s);
    assert {'&', '<'} - {'<'} == {'&'};
    DecodeStep({'&'}, '&', s);
    assert {'&'} - {'&'} == {};
    EncNothing(s);
  }
}

/** String helpers shared by the scraper and the front end: whitespace
    handling (`str.strip`, `re.sub(r"\s+", " ", ...)`, `" ".join(s.split())`),
    case folding, substring search and lexicographic order. */
module Text {

  /** Whitespace as `str.strip()`, `str.split()` and the regex class `\s` see it
      (the characters for which Python's `str.isspace()` holds). */
  predicate IsSpace(c: char) {
    || ('\t' <= c <= '\r') || ('\U{001C}' <= c <= ' ')
    || c == '\U{0085}' || c == '\U{00A0}' || c == '\U{1680}'
    || ('\U{2000}' <= c <= '\U{200A}') || c == '\U{2028}' || c == '\U{2029}'
    || c == '\U{202F}' || c == '\U{205F}' || c == '\U{3000}'
  }

  predicate IsDigit(c: char) {
    '0' <= c <= '9'
  }

  /** Drops the leading run of whitespace (`str.lstrip()`). */
  function TrimLeft(s: string): (r: string)
    ensures |r| <= |s|
    ensures r == [] || !IsSpace(r[0])
    ensures r != [] ==> r[|r| - 1] == s[|s| - 1]
    ensures r == [] && s != [] ==> IsSpace(s[|s| - 1])
  {
    if s != [] && IsSpace(s[0]) then TrimLeft(s[1..]) else s
  }

  /** Drops the trailing run of whitespace (`str.rstrip()`). */
  function TrimRight(s: string): (r: string)
    ensures |r| <= |s|
    ensures r == [] || !IsSpace(r[|r| - 1])
  {
    if s != [] && IsSpace(s[|s| - 1]) then TrimRight(s[..|s| - 1]) else s
  }

  /** Python's `str.strip()`. */
  function Strip(s: string): (r: string)
    ensures |r| <= |s|
    ensures r == [] || (!IsSpace(r[0]) && !IsSpace(r[|r| - 1]))
  {
    if s != [] && IsSpace(s[0]) then Strip(s[1..])
    else if s != [] && IsSpace(s[|s| - 1]) then Strip(s[..|s| - 1])
    else s
  }

  /** Replaces every maximal run of whitespace by one blank (`re.sub(r"\s+", " ", s)`). */
  function Squeeze(s: string): (r: string)
    ensures |r| <= |s|
    ensures (r == []) == (s == [])
    ensures r != [] ==> (IsSpace(r[0]) <==> IsSpace(s[0]))
    ensures r != [] ==> (IsSpace(r[|r| - 1]) <==> IsSpace(s[|s| - 1]))
    ensures forall i {:trigger IsSpace(r[i])} :: 0 <= i < |r| && IsSpace(r[i]) ==> r[i] == ' ' && (i + 1 < |r| ==> !IsSpace(r[i + 1]))
    decreases |s|
  {
    if s == [] then []
    else if IsSpace(s[0]) then [' '] + Squeeze(TrimLeft(s))
    else [s[0]] + Squeeze(s[1..])
  }

  /** `norm` of scripts/scrape_editais.py, which is also what `" ".join(s.split())` computes. */
  function Norm(s: string): string {
    Squeeze(Strip(s))
  }

  /** The result of `Norm` has no leading, trailing or doubled whitespace. */
  lemma NormIsNormal(s: string)
    ensures IsNormal(Norm(s))
  {
  }

  /** No leading, trailing or doubled whitespace, and every whitespace character is a blank. */
  predicate IsNormal(t: string) {
    forall i :: 0 <= i < |t| && IsSpace(t[i]) ==> t[i] == ' ' && 0 < i < |t| - 1 && !IsSpace(t[i + 1])
  }

  /** A word without whitespace is normal. */
  lemma WordIsNormal(w: string)
    requires forall i :: 0 <= i < |w| ==> !IsSpace(w[i])
    ensures IsNormal(w)
  {
  }

  /** Two normal, non-empty strings joined by one blank stay normal. */
  lemma JoinIsNormal(a: string, b: string)
    requires a != [] && b != [] && IsNormal(a) && IsNormal(b)
    ensures IsNormal(a + " " + b)
  {
    var t := a + " " + b;
    forall i | 0 <= i < |t| && IsSpace(t[i])
      ensures t[i] == ' ' && 0 < i < |t| - 1 && !IsSpace(t[i + 1])
    {
      if i < |a| {
        assert t[i] == a[i];
        if i + 1 < |a| {
          assert t[i + 1] == a[i + 1];
        }
      } else if i > |a| {
        assert t[i] == b[i - |a| - 1];
        if i + 1 < |t| {
          assert t[i + 1] == b[i - |a|];
        }
      } else {
        assert t[i + 1] == b[0];
      }
    }
  }

  /** The non-whitespace characters of `s`, in order. */
  function Letters(s: string): string {
    if s == [] then [] else (if IsSpace(s[0]) then [] else [s[0]]) + Letters(s[1..])
  }

  lemma {:induction false} LettersAppend(a: string, b: string)
    ensures Letters(a + b) == Letters(a) + Letters(b)
  {
    if a == [] {
      assert a + b == b;
    } else {
      assert (a + b)[0] == a[0];
      assert (a + b)[1..] == a[1..] + b;
      LettersAppend(a[1..], b);
    }
  }

  lemma {:induction false} LettersTrimLeft(s: string)
    ensures Letters(TrimLeft(s)) == Letters(s)
  {
    if s != [] && IsSpace(s[0]) {
      LettersTrimLeft(s[1..]);
    }
  }

  lemma {:induction false} LettersStrip(s: string)
    ensures Letters(Strip(s)) == Letters(s)
  {
    if s != [] && IsSpace(s[0]) {
      LettersStrip(s[1..]);
    } else if s != [] && IsSpace(s[|s| - 1]) {
      var init := s[..|s| - 1];
      assert s == init + [s[|s| - 1]];
      LettersAppend(init, [s[|s| - 1]]);
      LettersStrip(init);
    }
  }

  lemma {:induction false} LettersSqueeze(s: string)
    ensures Letters(Squeeze(s)) == Letters(s)
    decreases |s|
  {
    if s == [] {
    } else if IsSpace(s[0]) {
      LettersTrimLeft(s);
      LettersSqueeze(TrimLeft(s));
      LettersAppend([' '], Squeeze(TrimLeft(s)));
    } else {
      LettersSqueeze(s[1..]);
      LettersAppend([s[0]], Squeeze(s[1..]));
    }
  }

  /** Normalising keeps every non-whitespace character, in order. */
  lemma NormKeepsLetters(s: string)
    ensures Letters(Norm(s)) == Letters(s)
  {
    LettersStrip(s);
    LettersSqueeze(Strip(s));
  }

  lemma {:induction false} SqueezeSingleBlanks(t: string)
    requires forall i :: 0 <= i < |t| && IsSpace(t[i]) ==> t[i] == ' ' && i + 1 < |t| && !IsSpace(t[i + 1])
    ensures Squeeze(t) == t
  {
    if t != [] {
      if IsSpace(t[0]) {
        assert TrimLeft(t[1..]) == t[1..];
        SqueezeSingleBlanks(t[1..]);
      } else {
        SqueezeSingleBlanks(t[1..]);
      }
    }
  }

  /** Normalising an already normal string changes nothing, so `Norm` is idempotent. */
  lemma NormOfNormal(t: string)
    requires IsNormal(t)
    ensures Norm(t) == t
  {
    assert Strip(t) == t;
    SqueezeSingleBlanks(t);
  }

  lemma NormIdempotent(s: string)
    ensures Norm(Norm(s)) == Norm(s)
  {
    NormIsNormal(s);
    NormOfNormal(Norm(s));
  }

  /** Every character is whitespace. */
  predicate AllSpace(t: string) {
    forall k {:trigger IsSpace(t[k])} :: 0 <= k < |t| ==> IsSpace(t[k])
  }

  lemma AllSpaceCons(c: char, t: string)
    requires IsSpace(c) && AllSpace(t)
    ensures AllSpace([c] + t)
  {
    forall k | 0 <= k < |[c] + t| ensures IsSpace(([c] + t)[k]) {
      if k > 0 {
        assert ([c] + t)[k] == t[k - 1];
      }
    }
  }

  lemma AllSpaceSnoc(t: string, c: char)
    requires IsSpace(c) && AllSpace(t)
    ensures AllSpace(t + [c])
  {
    forall k | 0 <= k < |t + [c]| ensures IsSpace((t + [c])[k]) {
      if k < |t| {
        assert (t + [c])[k] == t[k];
      }
    }
  }

  lemma ConsRegroup(c: char, x: string, y: string, z: string)
    ensures [c] + (x + y + z) == ([c] + x) + y + z
  {
  }

  lemma SnocRegroup(x: string, y: string, z: string, c: char)
    ensures (x + y + z) + [c] == x + y + (z + [c])
  {
  }

  /** Putting back a leading whitespace character that `strip` dropped. */
  lemma StripCutsFront(s: string, a: string, b: string)
    requires s != [] && IsSpace(s[0])
    requires s[1..] == a + Strip(s[1..]) + b && AllSpace(a)
    ensures s == ([s[0]] + a) + Strip(s) + b && AllSpace([s[0]] + a)
  {
    assert Strip(s) == Strip(s[1..]);
    assert s == [s[0]] + s[1..];
    ConsRegroup(s[0], a, Strip(s), b);
    AllSpaceCons(s[0], a);
  }

  /** A trailing whitespace character after a text that starts with non-whitespace is stripped. */
  lemma StripSnocSpace(init: string, c: char)
    requires init != [] && !IsSpace(init[0]) && IsSpace(c)
    ensures Strip(init + [c]) == Strip(init)
  {
    var s := init + [c];
    assert s[0] == init[0] && s[|s| - 1] == c;
    assert s[..|s| - 1] == init;
  }

  /** Putting back a trailing whitespace character that `strip` dropped. */
  lemma StripCutsBack(init: string, c: char, a: string, b: string)
    requires init != [] && !IsSpace(init[0]) && IsSpace(c)
    requires init == a + Strip(init) + b && AllSpace(b)
    ensures init + [c] == a + Strip(init + [c]) + (b + [c]) && AllSpace(b + [c])
  {
    StripSnocSpace(init, c);
    SnocRegroup(a, Strip(init), b, c);
    AllSpaceSnoc(b, c);
  }

  /** What `strip` cuts off: a whitespace run `a` before the result and a whitespace run `b` after it. */
  lemma {:induction false} StripCuts(s: string) returns (a: string, b: string)
    ensures s == a + Strip(s) + b && AllSpace(a) && AllSpace(b)
  {
    if s != [] && IsSpace(s[0]) {
      var a', b' := StripCuts(s[1..]);
      StripCutsFront(s, a', b');
      a, b := [s[0]] + a', b';
    } else if s != [] && IsSpace(s[|s| - 1]) {
      var init, c := s[..|s| - 1], s[|s| - 1];
      assert s == init + [c];
      var a', b' := StripCuts(init);
      StripCutsBack(init, c, a', b');
      a, b := a', b' + [c];
    } else {
      a, b := [], [];
      assert s == [] + s + [];
    }
  }

  /** `strip` removes a leading and a trailing run of whitespace and nothing else. */
  lemma StripIsInfix(s: string)
    ensures exists a, b :: s == a + Strip(s) + b && AllSpace(a) && AllSpace(b)
  {
    var a, b := StripCuts(s);
  }

  /** The longest prefix of `t` without whitespace. */
  function WordPrefix(t: string): (w: string)
    ensures |w| <= |t| && w == t[..|w|]
    ensures forall k {:trigger IsSpace(w[k])} :: 0 <= k < |w| ==> !IsSpace(w[k])
    ensures |w| < |t| ==> IsSpace(t[|w|])
    ensures t != [] && !IsSpace(t[0]) ==> w != []
  {
    if t == [] || IsSpace(t[0]) then [] else [t[0]] + WordPrefix(t[1..])
  }

  /** `str.split()` without arguments: the maximal runs of non-whitespace, in order. */
  function Words(s: string): seq<string>
    decreases |s|
  {
    var t := TrimLeft(s);
    if t == [] then []
    else
      var w := WordPrefix(t);
      [w] + Words(t[|w|..])
  }

  /** `" ".join(ws)` */
  function JoinBlank(ws: seq<string>): string {
    if ws == [] then "" else if |ws| == 1 then ws[0] else ws[0] + " " + JoinBlank(ws[1..])
  }

  lemma TrimLeftAgain(s: string)
    ensures TrimLeft(TrimLeft(s)) == TrimLeft(s)
  {
  }

  lemma {:induction false} TrimLeftAppend(x: string, y: string)
    ensures TrimLeft(x + y) == if TrimLeft(x) == [] then TrimLeft(y) else TrimLeft(x) + y
  {
    if x == [] {
      assert x + y == y;
    } else {
      assert (x + y)[0] == x[0];
      if IsSpace(x[0]) {
        assert (x + y)[1..] == x[1..] + y;
        TrimLeftAppend(x[1..], y);
      }
    }
  }

  lemma {:induction false} WordPrefixAppendSpace(t: string, c: char)
    requires IsSpace(c)
    ensures WordPrefix(t + [c]) == WordPrefix(t)
  {
    if t == [] {
      assert t + [c] == [c];
    } else {
      assert (t + [c])[0] == t[0];
      if !IsSpace(t[0]) {
        assert (t + [c])[1..] == t[1..] + [c];
        WordPrefixAppendSpace(t[1..], c);
      }
    }
  }

  /** Trailing whitespace does not change the words. */
  lemma {:induction false} WordsAppendSpace(x: string, c: char)
    requires IsSpace(c)
    ensures Words(x + [c]) == Words(x)
    decreases |x|
  {
    TrimLeftAppend(x, [c]);
    var t := TrimLeft(x);
    if t == [] {
      assert TrimLeft([c]) == TrimLeft([c][1..]) && [c][1..] == [];
    } else {
      var w := WordPrefix(t);
      WordPrefixAppendSpace(t, c);
      assert (t + [c])[|w|..] == t[|w|..] + [c];
      WordsAppendSpace(t[|w|..], c);
    }
  }

  /** Stripping does not change the words. */
  lemma {:induction false} WordsStrip(s: string)
    ensures Words(Strip(s)) == Words(s)
  {
    if s != [] && IsSpace(s[0]) {
      WordsStrip(s[1..]);
      WordsDropSpace(s);
    } else if s != [] && IsSpace(s[|s| - 1]) {
      WordsStrip(s[..|s| - 1]);
      WordsDropLastSpace(s);
    }
  }

  /** A trailing whitespace character does not change the words. */
  lemma WordsDropLastSpace(s: string)
    requires s != [] && IsSpace(s[|s| - 1])
    ensures Words(s) == Words(s[..|s| - 1])
  {
    var init := s[..|s| - 1];
    assert s == init + [s[|s| - 1]];
    WordsAppendSpace(init, s[|s| - 1]);
  }

  /** A leading whitespace character does not change the words. */
  lemma WordsDropSpace(s: string)
    requires s != [] && IsSpace(s[0])
    ensures Words(s) == Words(s[1..])
  {
    assert TrimLeft(s) == TrimLeft(s[1..]);
  }

  lemma SqueezeHead(c: char, y: string)
    requires !IsSpace(c)
    ensures Squeeze([c] + y) == [c] + Squeeze(y)
  {
    assert ([c] + y)[1..] == y;
  }

  lemma {:induction false} SqueezeWord(w: string, y: string)
    requires forall k {:trigger IsSpace(w[k])} :: 0 <= k < |w| ==> !IsSpace(w[k])
    ensures Squeeze(w + y) == w + Squeeze(y)
  {
    if w == [] {
      assert w + y == y;
    } else {
      var c, v := w[0], w[1..];
      assert !IsSpace(c);
      assert w + y == [c] + (v + y);
      SqueezeHead(c, v + y);
      SqueezeWord(v, y);
      assert [c] + (v + Squeeze(y)) == w + Squeeze(y);
    }
  }

  /** A string starting with a non-blank starts with its first word. */
  lemma WordsFront(t: string)
    requires t != [] && !IsSpace(t[0])
    ensures Words(t) == [WordPrefix(t)] + Words(t[|WordPrefix(t)|..])
  {
    assert TrimLeft(t) == t;
  }

  /** Leading whitespace does not change the words. */
  lemma WordsAfterSpace(r: string)
    ensures Words(r) == Words(TrimLeft(r))
  {
    TrimLeftAgain(r);
  }

  lemma JoinBlankCons(w: string, ws: seq<string>)
    requires ws != []
    ensures JoinBlank([w] + ws) == w + " " + JoinBlank(ws)
  {
    assert ([w] + ws)[1..] == ws;
  }

  lemma SplitAt(t: string, n: nat)
    requires n <= |t|
    ensures t == t[..n] + t[n..]
  {
  }

  /** A word followed by whitespace collapses to the word, one blank, and the collapsed rest. */
  lemma SqueezeWordSpace(w: string, rest: string)
    requires forall k {:trigger IsSpace(w[k])} :: 0 <= k < |w| ==> !IsSpace(w[k])
    requires rest != [] && IsSpace(rest[0])
    ensures Squeeze(w + rest) == w + " " + Squeeze(TrimLeft(rest))
  {
    SqueezeWord(w, rest);
    var x := Squeeze(TrimLeft(rest));
    assert Squeeze(rest) == " " + x;
    assert w + (" " + x) == w + " " + x;
  }

  /** Collapsing a text that starts with a word and has more after it. */
  lemma SqueezeStep(t: string)
    requires t != [] && !IsSpace(t[0]) && |WordPrefix(t)| < |t|
    ensures var w := WordPrefix(t);
      Squeeze(t) == w + " " + Squeeze(TrimLeft(t[|w|..]))
  {
    var w := WordPrefix(t);
    SplitAt(t, |w|);
    assert t[|w|..][0] == t[|w|];
    SqueezeWordSpace(w, t[|w|..]);
  }

  /** The words of a text that starts with a word and has more after it. */
  lemma WordsStep(t: string)
    requires t != [] && !IsSpace(t[0]) && |WordPrefix(t)| < |t|
    ensures var w := WordPrefix(t);
      Words(t) == [w] + Words(TrimLeft(t[|w|..]))
  {
    WordsFront(t);
    WordsAfterSpace(t[|WordPrefix(t)|..]);
  }

  /** A text that is a single word collapses to itself and is its only word. */
  lemma SqueezeOneWord(t: string)
    requires t != [] && !IsSpace(t[0]) && |WordPrefix(t)| == |t|
    ensures Squeeze(t) == t && Words(t) == [t]
  {
    var w := WordPrefix(t);
    assert w == t;
    SqueezeWord(w, []);
    assert w + [] == t;
    WordsFront(t);
    assert Words(t[|w|..]) == [];
  }

  /** After the first word of a trimmed text with more in it, the rest, trimmed, is again trimmed and shorter. */
  lemma RestTrimmed(t: string)
    requires t != [] && !IsSpace(t[0]) && !IsSpace(t[|t| - 1]) && |WordPrefix(t)| < |t|
    ensures var u := TrimLeft(t[|WordPrefix(t)|..]);
      u != [] && !IsSpace(u[0]) && !IsSpace(u[|u| - 1]) && |u| < |t|
  {
    var rest := t[|WordPrefix(t)|..];
    assert rest[|rest| - 1] == t[|t| - 1];
  }

  /** On text without leading or trailing whitespace, each inner whitespace
      run becomes exactly one blank between the words. */
  lemma {:induction false} SqueezeStripped(t: string)
    requires t != [] && !IsSpace(t[0]) && !IsSpace(t[|t| - 1])
    ensures Squeeze(t) == JoinBlank(Words(t))
    decreases |t|
  {
    var w := WordPrefix(t);
    if |w| == |t| {
      SqueezeOneWord(t);
    } else {
      var u := TrimLeft(t[|w|..]);
      RestTrimmed(t);
      SqueezeStep(t);
      WordsStep(t);
      SqueezeStripped(u);
      WordsFront(u);
      JoinBlankCons(w, Words(u));
    }
  }

  /** `norm(s)` is `" ".join(s.split())`: the words of `s` joined by single blanks. */
  lemma NormIsJoinOfWords(s: string)
    ensures Norm(s) == JoinBlank(Words(s))
  {
    WordsStrip(s);
    var t := Strip(s);
    if t != [] {
      SqueezeStripped(t);
    } else {
      assert Words(t) == [];
    }
  }

  /** Case folding as the source's case-insensitive regexes apply it: ASCII and Latin-1 capitals. */
  function LowerChar(c: char): char {
    if 'A' <= c <= 'Z' || ('\U{00C0}' <= c <= '\U{00DE}' && c != '\U{00D7}') then (c as int + 32) as char else c
  }

  function Lower(s: string): (r: string)
    ensures |r| == |s| && forall i :: 0 <= i < |s| ==> r[i] == LowerChar(s[i])
  {
    seq(|s|, i requires 0 <= i < |s| => LowerChar(s[i]))
  }

  predicate OccursAt(s: string, i: nat, sub: string) {
    i + |sub| <= |s| && s[i..i + |sub|] == sub
  }

  /** Python's `sub in s`. */
  predicate Contains(s: string, sub: string) {
    exists i: nat :: i <= |s| && OccursAt(s, i, sub)
  }

  /** `s.split(c)[0]`: everything before the first `c`. */
  function CutAt(s: string, c: char): (r: string)
    ensures |r| <= |s| && r == s[..|r|] && c !in r
    ensures |r| < |s| ==> s[|r|] == c
  {
    if s == [] || s[0] == c then [] else [s[0]] + CutAt(s[1..], c)
  }

  /** Decimal rendering of a natural number, as a JavaScript template prints it. */
  function Decimal(n: nat): (r: string)
    ensures r != [] && forall i :: 0 <= i < |r| ==> IsDigit(r[i])
  {
    var d := ['0', '1', '2', '3', '4', '5', '6', '7', '8', '9'][n % 10];
    if n < 10 then [d] else Decimal(n / 10) + [d]
  }

  /** Code-point lexicographic order, as Python compares `str` values. */
  predicate LexLess(a: string, b: string) {
    if a == [] then b != []
    else b != [] && (a[0] < b[0] || (a[0] == b[0] && LexLess(a[1..], b[1..])))
  }

  lemma {:induction false} LexLessTransitive(a: string, b: string, c: string)
    requires LexLess(a, b) && LexLess(b, c)
    ensures LexLess(a, c)
  {
    if a != [] && a[0] == b[0] && b[0] == c[0] {
      LexLessTransitive(a[1..], b[1..], c[1..]);
    }
  }

  lemma {:induction false} LexLessTotal(a: string, b: string)
    ensures a == b || LexLess(a, b) || LexLess(b, a)
  {
    if a != [] && b != [] && a[0] == b[0] {
      LexLessTotal(a[1..], b[1..]);
      if a[1..] == b[1..] {
        assert a == [a[0]] + a[1..] && b == [b[0]] + b[1..];
      }
    }
  }

  lemma {:induction false} LexLessAsymmetric(a: string, b: string)
    requires LexLess(a, b)
    ensures !LexLess(b, a)
  {
    if a != [] && b != [] && a[0] == b[0] {
      LexLessAsymmetric(a[1..], b[1..]);
    }
  }
}

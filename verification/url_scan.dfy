/**
 * The citation scan of `validate_content`: `re.findall` of the pattern
 * `https?://[^\s<>"]+|www\.[^\s<>"]+` over the report text.
 *
 * The engine tries the pattern at each offset, left to right.  At the first
 * offset where it matches, the match is taken and the scan resumes right after
 * it; otherwise the scan moves on by one character.  The alternatives are tried
 * in order and the character class is repeated greedily.  Nothing follows the
 * class in the pattern, so a match is always the longest run the class allows.
 */
module UrlScan {
  import opened Text

  /** Python's `str.isspace`, the set `\s` stands for in a text pattern. */
  predicate IsSpace(c: char)
  {
    || ('\t' <= c <= '\r')
    || ('\U{1C}' <= c <= ' ')
    || c == '\U{85}' || c == '\U{A0}' || c == '\U{1680}'
    || ('\U{2000}' <= c <= '\U{200A}')
    || c == '\U{2028}' || c == '\U{2029}' || c == '\U{202F}' || c == '\U{205F}' || c == '\U{3000}'
  }

  /** The class `[^\s<>"]`: a character that may continue a URL token. */
  predicate InUrl(c: char)
  {
    !IsSpace(c) && c != '<' && c != '>' && c != '"'
  }

  predicate AllInUrl(s: string)
  {
    forall i :: 0 <= i < |s| ==> InUrl(s[i])
  }

  const Https: string := "https://"
  const Http: string := "http://"
  const Www: string := "www."

  /** A complete token of the pattern: one of the three openings followed by
      at least one character of the class. */
  predicate UrlLike(t: string)
  {
    && AllInUrl(t)
    && ((Https <= t && |t| > |Https|) || (Http <= t && |t| > |Http|) || (Www <= t && |t| > |Www|))
  }

  /** The greedy repetition `[^\s<>"]*` at the start of `s`: the longest
      prefix made of class characters. */
  function RunLength(s: string): (n: nat)
    ensures n <= |s|
    ensures forall i :: 0 <= i < n ==> InUrl(s[i])
    ensures n == |s| || !InUrl(s[n])
  {
    if s == [] || !InUrl(s[0]) then 0 else 1 + RunLength(s[1..])
  }

  /** The length of the match at the start of `s`, if any: `https://`, else
      `http://`, else `www.`, each followed by a non-empty run. */
  function MatchLength(s: string): (m: Option<nat>)
    ensures m.Some? ==> 0 < m.value <= |s|
  {
    if Https <= s && RunLength(s[|Https|..]) > 0 then Some(|Https| + RunLength(s[|Https|..]))
    else if Http <= s && RunLength(s[|Http|..]) > 0 then Some(|Http| + RunLength(s[|Http|..]))
    else if Www <= s && RunLength(s[|Www|..]) > 0 then Some(|Www| + RunLength(s[|Www|..]))
    else None
  }

  /** `re.findall(pattern, s)`: the tokens of `s`, in order, without overlap. */
  function FindAll(s: string): seq<string>
    decreases |s|
  {
    if s == [] then []
    else
      match MatchLength(s)
      case Some(n) => [s[..n]] + FindAll(s[n..])
      case None => FindAll(s[1..])
  }

  /** A second, iterative formulation of the scan, the way the regular
      expression engine walks the text: take the match at the current position
      and resume after it, or move on by one character. It yields exactly the
      tokens of `FindAll`, which the rest of the model uses. */
  method ExtractUrls(s: string) returns (urls: seq<string>)
    ensures urls == FindAll(s)
    ensures forall k :: 0 <= k < |urls| ==> UrlLike(urls[k])
  {
    urls := [];
    var rest := s;
    while rest != []
      invariant urls + FindAll(rest) == FindAll(s)
      decreases |rest|
    {
      var m := MatchLength(rest);
      if m.Some? {
        FindAllTakes(rest, m.value);
        urls := urls + [rest[..m.value]];
        rest := rest[m.value..];
      } else {
        FindAllSkips(rest);
        rest := rest[1..];
      }
    }
    TokensAreUrlLike(s);
  }

  // ---------------------------------------------------------------------
  // Properties

  /** The three openings are made of class characters. */
  lemma OpeningsInClass()
    ensures AllInUrl(Https) && AllInUrl(Http) && AllInUrl(Www)
  {
  }

  /** A match at the start of a text is a complete token that the next
      character, if any, cannot extend. */
  lemma MatchIsToken(s: string)
    ensures var m := MatchLength(s);
            m.Some? ==> UrlLike(s[..m.value]) && (m.value == |s| || !InUrl(s[m.value]))
  {
    OpeningsInClass();
    if Https <= s && RunLength(s[|Https|..]) > 0 {
      OpeningRun(s, Https);
    } else if Http <= s && RunLength(s[|Http|..]) > 0 {
      OpeningRun(s, Http);
    } else if Www <= s && RunLength(s[|Www|..]) > 0 {
      OpeningRun(s, Www);
    }
  }

  /** An opening of class characters followed by the longest run of class
      characters is a run of class characters that starts with the opening
      and that the next character cannot extend. */
  lemma OpeningRun(s: string, p: string)
    requires p <= s && AllInUrl(p)
    ensures var n := |p| + RunLength(s[|p|..]);
            && n <= |s| && AllInUrl(s[..n]) && p <= s[..n]
            && (n == |s| || !InUrl(s[n]))
  {
    var k := RunLength(s[|p|..]);
    var t := s[..|p| + k];
    forall i | 0 <= i < |t|
      ensures InUrl(t[i])
    {
      if i < |p| {
        assert t[i] == p[i];
      } else {
        assert t[i] == s[|p|..][i - |p|];
      }
    }
    if |p| + k < |s| {
      assert s[|p| + k] == s[|p|..][k];
    }
  }

  /** Every extracted token starts with one of the three openings, has at
      least one more character, and holds only class characters. */
  lemma {:induction false} TokensAreUrlLike(s: string)
    ensures forall k :: 0 <= k < |FindAll(s)| ==> UrlLike(FindAll(s)[k])
    decreases |s|
  {
    if s != [] {
      match MatchLength(s)
      case Some(n) =>
        MatchIsToken(s);
        TokensAreUrlLike(s[n..]);
      case None =>
        TokensAreUrlLike(s[1..]);
    }
  }

  /** A match is exactly a maximal token: `MatchLength(s)` is `n` if and only
      if the first `n` characters form a token that the next character (if
      any) cannot extend. */
  lemma MatchIsMaximalToken(s: string, n: nat)
    ensures MatchLength(s) == Some(n) <==> (0 < n <= |s| && UrlLike(s[..n]) && (n == |s| || !InUrl(s[n])))
  {
    MatchIsToken(s);
    if 0 < n <= |s| && UrlLike(s[..n]) && (n == |s| || !InUrl(s[n])) {
      var t := s[..n];
      if Https <= t && |t| > |Https| {
        OpeningMatch(s, Https, n);
      } else if Http <= t && |t| > |Http| {
        PrefixCharAt(Http, t, 4);
        OpeningMatch(s, Http, n);
      } else {
        PrefixCharAt(Www, t, 0);
        OpeningMatch(s, Www, n);
      }
    }
  }

  /** A maximal token of `s` after the opening `p` is the match, provided no
      earlier alternative applies. */
  lemma OpeningMatch(s: string, p: string, n: nat)
    requires p == Https || (p == Http && |s| > 4 && s[4] == ':') || (p == Www && |s| > 0 && s[0] == 'w')
    requires p <= s && |p| < n <= |s| && AllInUrl(s[..n]) && (n == |s| || !InUrl(s[n]))
    ensures MatchLength(s) == Some(n)
  {
    var rest := s[|p|..];
    forall i | 0 <= i < n - |p|
      ensures InUrl(rest[i])
    {
      assert rest[i] == s[..n][|p| + i];
    }
    RunIsUnique(rest, n - |p|);
  }

  /** Any maximal run of class characters at the start of `s` is the one
      `RunLength` finds. */
  lemma RunIsUnique(s: string, n: nat)
    requires n <= |s| && (forall i :: 0 <= i < n ==> InUrl(s[i])) && (n == |s| || !InUrl(s[n]))
    ensures RunLength(s) == n
  {
  }

  /** The scan finds no token exactly when the pattern matches at no offset. */
  lemma {:induction false} NoTokenIffNoMatch(s: string)
    ensures FindAll(s) == [] <==> forall k :: 0 <= k < |s| ==> MatchLength(s[k..]).None?
    decreases |s|
  {
    if s != [] {
      match MatchLength(s)
      case Some(n) =>
        assert s[0..] == s;
      case None =>
        NoTokenIffNoMatch(s[1..]);
        forall k | 0 <= k < |s| - 1
          ensures s[1..][k..] == s[k + 1..]
        {
        }
        if forall k :: 0 <= k < |s| - 1 ==> MatchLength(s[1..][k..]).None? {
          forall k | 0 <= k < |s|
            ensures MatchLength(s[k..]).None?
          {
            if k > 0 {
              assert MatchLength(s[1..][k - 1..]).None?;
            } else {
              assert s[0..] == s;
            }
          }
        }
    }
  }

  /** `t` stands at offset `k` of `s` and the text does not go on with a
      class character right after it. */
  predicate MaximalAt(s: string, t: string, k: int)
  {
    OccursAt(s, t, k) && (k + |t| == |s| || !InUrl(s[k + |t|]))
  }

  /** A maximal occurrence in a suffix is one in the whole text. */
  lemma ShiftMaximal(s: string, d: nat, t: string, k: int)
    requires d <= |s| && MaximalAt(s[d..], t, k)
    ensures MaximalAt(s, t, d + k)
  {
    assert s[d..][k..k + |t|] == s[d + k..d + k + |t|];
  }

  /** Every token is a substring of the text, and the text does not go on
      with a class character right after it. */
  lemma {:induction false} TokensAreMaximalSubstrings(s: string)
    ensures forall t :: t in FindAll(s) ==> exists k :: MaximalAt(s, t, k)
    decreases |s|
  {
    if s != [] {
      var d := match MatchLength(s) case Some(n) => n case None => 1;
      TokensAreMaximalSubstrings(s[d..]);
      forall t | t in FindAll(s)
        ensures exists k :: MaximalAt(s, t, k)
      {
        if MatchLength(s).Some? && t == s[..d] {
          assert MaximalAt(s, t, 0);
        } else {
          assert t in FindAll(s[d..]);
          var k :| MaximalAt(s[d..], t, k);
          ShiftMaximal(s, d, t, k);
        }
      }
    }
  }

  /** The run at the start of `x` stops at a character outside the class. */
  lemma {:induction false} RunStopsAtSeparator(x: string, c: char, y: string)
    requires !InUrl(c)
    ensures RunLength(x + [c] + y) == RunLength(x)
    decreases |x|
  {
    if x == [] {
      assert (x + [c] + y)[0] == c;
    } else if InUrl(x[0]) {
      assert (x + [c] + y)[1..] == x[1..] + [c] + y;
      RunStopsAtSeparator(x[1..], c, y);
    }
  }

  /** An opening `p` made of class characters is a prefix of `x + [c] + y`
      exactly when it is a prefix of `x`. */
  lemma OpeningStopsAtSeparator(p: string, x: string, c: char, y: string)
    requires AllInUrl(p) && !InUrl(c)
    ensures p <= x + [c] + y <==> p <= x
  {
    if p <= x + [c] + y && |x| < |p| {
      PrefixCharAt(p, x + [c] + y, |x|);
      assert false;
    }
  }

  /** The match at the start of a text never reaches past a separator. */
  lemma MatchStopsAtSeparator(x: string, c: char, y: string)
    requires !InUrl(c)
    ensures MatchLength(x + [c] + y) == MatchLength(x)
  {
    OpeningsInClass();
    OpeningRunStops(Https, x, c, y);
    OpeningRunStops(Http, x, c, y);
    OpeningRunStops(Www, x, c, y);
  }

  /** The opening `p` and the run after it are found in `x + [c] + y`
      exactly as in `x`. */
  lemma OpeningRunStops(p: string, x: string, c: char, y: string)
    requires AllInUrl(p) && !InUrl(c)
    ensures p <= x + [c] + y <==> p <= x
    ensures p <= x ==> RunLength((x + [c] + y)[|p|..]) == RunLength(x[|p|..])
  {
    OpeningStopsAtSeparator(p, x, c, y);
    if p <= x {
      assert (x + [c] + y)[|p|..] == x[|p|..] + [c] + y;
      RunStopsAtSeparator(x[|p|..], c, y);
    }
  }

  /** A whitespace character (or `<`, `>`, `"`) splits the scan in two: the
      tokens of `a + [c] + b` are those of `a` followed by those of `b`. */
  lemma {:induction false} FindAllSplitsAtSeparator(a: string, c: char, b: string)
    requires !InUrl(c)
    ensures FindAll(a + [c] + b) == FindAll(a) + FindAll(b)
    decreases |a|
  {
    if a == [] {
      MatchStopsAtSeparator(a, c, b);
      assert (a + [c] + b)[1..] == b;
      FindAllSkips(a + [c] + b);
    } else if MatchLength(a).Some? {
      var n := MatchLength(a).value;
      FindAllSplitsAtSeparator(a[n..], c, b);
      SplitAfterMatch(a, c, b, n);
    } else {
      FindAllSplitsAtSeparator(a[1..], c, b);
      SplitAfterSkip(a, c, b);
    }
  }

  /** The step of `FindAllSplitsAtSeparator` where the text starts with a match. */
  lemma SplitAfterMatch(a: string, c: char, b: string, n: nat)
    requires !InUrl(c) && MatchLength(a) == Some(n)
    requires FindAll(a[n..] + [c] + b) == FindAll(a[n..]) + FindAll(b)
    ensures FindAll(a + [c] + b) == FindAll(a) + FindAll(b)
  {
    var t, x := a[..n], a[n..];
    var y := x + [c] + b;
    assert a + [c] + b == t + y;
    MatchStopsAtSeparator(a, c, b);
    FindAllTakes(t + y, n);
    assert (t + y)[..n] == t && (t + y)[n..] == y;
    FindAllTakes(a, n);
    assert FindAll(a + [c] + b) == [t] + (FindAll(x) + FindAll(b));
    assert FindAll(a) == [t] + FindAll(x);
    ConcatAssociates([t], FindAll(x), FindAll(b));
  }

  /** The step of `FindAllSplitsAtSeparator` where the text starts without one. */
  lemma SplitAfterSkip(a: string, c: char, b: string)
    requires !InUrl(c) && a != [] && MatchLength(a).None?
    requires FindAll(a[1..] + [c] + b) == FindAll(a[1..]) + FindAll(b)
    ensures FindAll(a + [c] + b) == FindAll(a) + FindAll(b)
  {
    var s := a + [c] + b;
    MatchStopsAtSeparator(a, c, b);
    assert s[1..] == a[1..] + [c] + b;
    FindAllSkips(s);
    FindAllSkips(a);
  }

  /** Where the pattern matches, the scan takes the match and resumes after it. */
  lemma FindAllTakes(s: string, n: nat)
    requires MatchLength(s) == Some(n)
    ensures FindAll(s) == [s[..n]] + FindAll(s[n..])
  {
  }

  /** Where the pattern does not match, the scan moves on by one character. */
  lemma FindAllSkips(s: string)
    requires s != [] && MatchLength(s).None?
    ensures FindAll(s) == FindAll(s[1..])
  {
  }

  /** A text that is a single token scans to just that token. */
  lemma WordIsOneToken(u: string)
    requires UrlLike(u)
    ensures FindAll(u) == [u]
  {
    MatchIsMaximalToken(u, |u|);
    assert u[..|u|] == u;
    assert u[|u|..] == [];
  }

  /** Citing the same URL twice yields it twice: tokens are not
      de-duplicated. */
  lemma RepeatedCitationScansTwice(u: string)
    requires UrlLike(u)
    ensures FindAll(u + " " + u) == [u, u]
  {
    WordIsOneToken(u);
    assert u + " " + u == u + [' '] + u;
    FindAllSplitsAtSeparator(u, ' ', u);
  }
}

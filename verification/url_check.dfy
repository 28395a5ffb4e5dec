/**
 * `validate_url` and `validate_content`.
 *
 * A URL passes when `urlparse` accepts it with a non-empty scheme and host,
 * it starts with `http://` or `https://`, and a HEAD request (following
 * redirects) ends with status 200.  Any exception along the way gives false.
 * A report passes when at least two of its scanned citation tokens pass.
 *
 * The split into scheme and host follows CPython's `urlsplit`.  Two things stay
 * opaque and are passed in as a `Network`: the extra checks that make `urlparse`
 * raise `ValueError` (unbalanced IPv6 brackets, bad bracketed hosts, hosts that
 * change under NFKC normalisation), and the HEAD request itself.
 */
module UrlCheck {
  import opened Text
  import opened UrlScan

  /** The end of `requests.head(url, timeout=5, allow_redirects=True)`: the
      final status code, or an exception (timeout, refused connection, too
      many redirects, a URL the library will not send). */
  datatype Probe = Status(code: int) | ProbeRaised

  /** The calls `validate_url` makes into code outside the model. */
  datatype Network = Network(parseRejects: string -> bool, head: string -> Probe)

  /** The two `urlparse` fields `validate_url` looks at. */
  datatype SplitUrl = SplitUrl(scheme: string, netloc: string)

  /** The characters `urlsplit` strips from the front: C0 controls and space. */
  predicate IsC0OrSpace(c: char) { c <= ' ' }

  /** The characters `urlsplit` deletes everywhere: tab, CR and LF. */
  predicate IsUnsafe(c: char) { c == '\t' || c == '\r' || c == '\n' }

  predicate IsAsciiAlpha(c: char) { ('a' <= c <= 'z') || ('A' <= c <= 'Z') }

  /** `urllib.parse.scheme_chars` */
  predicate IsSchemeChar(c: char)
  {
    IsAsciiAlpha(c) || ('0' <= c <= '9') || c == '+' || c == '-' || c == '.'
  }

  /** The characters that end the network location. */
  predicate EndsNetloc(c: char) { c == '/' || c == '?' || c == '#' }

  /** `s.lstrip(...)` of the C0-control-or-space characters. */
  function LStrip(s: string): (r: string)
    ensures |r| <= |s| && r == s[|s| - |r|..]
    ensures r == [] || !IsC0OrSpace(r[0])
  {
    if s != [] && IsC0OrSpace(s[0]) then LStrip(s[1..]) else s
  }

  /** `s` with every tab, CR and LF deleted. */
  function RemoveUnsafe(s: string): (r: string)
    ensures |r| <= |s|
    ensures forall i :: 0 <= i < |r| ==> !IsUnsafe(r[i])
  {
    if s == [] then []
    else (if IsUnsafe(s[0]) then [] else [s[0]]) + RemoveUnsafe(s[1..])
  }

  /** `s.find(c)`, with `|s|` standing for Python's -1. */
  function IndexOf(s: string, c: char): (k: nat)
    ensures k <= |s| && (k < |s| ==> s[k] == c)
    ensures forall j :: 0 <= j < k ==> s[j] != c
  {
    if s == [] || s[0] == c then 0 else 1 + IndexOf(s[1..], c)
  }

  /** The length of the network location at the start of `s`: up to the first
      `/`, `?` or `#`, or all of `s`. */
  function NetlocLength(s: string): (k: nat)
    ensures k <= |s| && (k < |s| ==> EndsNetloc(s[k]))
    ensures forall j :: 0 <= j < k ==> !EndsNetloc(s[j])
  {
    if s == [] || EndsNetloc(s[0]) then 0 else 1 + NetlocLength(s[1..])
  }

  /** ASCII `str.lower`, enough for a scheme. */
  function Lower(s: string): (r: string)
    ensures |r| == |s|
    ensures forall i :: 0 <= i < |s| ==> (r[i] == s[i] <==> !('A' <= s[i] <= 'Z'))
  {
    if s == [] then []
    else [if 'A' <= s[0] <= 'Z' then (s[0] as int + 32) as char else s[0]] + Lower(s[1..])
  }

  /** The scheme and network location `urlparse(url)` reports when it does
      not raise. */
  function UrlSplit(url: string): (u: SplitUrl)
    ensures forall i :: 0 <= i < |u.netloc| ==> !EndsNetloc(u.netloc[i]) && !IsUnsafe(u.netloc[i])
  {
    SplitClean(RemoveUnsafe(LStrip(url)))
  }

  /** The split proper, on a URL already stripped and cleaned. */
  function SplitClean(clean: string): (u: SplitUrl)
    ensures forall i :: 0 <= i < |u.netloc| ==> !EndsNetloc(u.netloc[i])
    ensures (forall i :: 0 <= i < |clean| ==> !IsUnsafe(clean[i])) ==>
              forall i :: 0 <= i < |u.netloc| ==> !IsUnsafe(u.netloc[i])
  {
    var i := IndexOf(clean, ':');
    var hasScheme := 0 < i < |clean| && IsAsciiAlpha(clean[0]) && forall j :: 0 <= j < i ==> IsSchemeChar(clean[j]);
    var scheme := if hasScheme then Lower(clean[..i]) else [];
    var rest := if hasScheme then clean[i + 1..] else clean;
    if |rest| >= 2 && rest[..2] == "//" then
      var tail := rest[2..];
      SplitUrl(scheme, tail[..NetlocLength(tail)])
    else
      SplitUrl(scheme, [])
  }

  predicate HttpPrefix(url: string)
  {
    Http <= url || Https <= url
  }

  /** `validate_url(url)`. */
  function ValidateUrl(net: Network, url: string): (ok: bool)
    ensures ok ==> HttpPrefix(url) && net.head(url) == Status(200)
  {
    if net.parseRejects(url) then false
    else
      var parts := UrlSplit(url);
      if parts.scheme == [] || parts.netloc == [] then false
      else if !HttpPrefix(url) then false
      else net.head(url) == Status(200)
  }

  /** `len([url for url in urls if keep(url)])` */
  function CountWhere(urls: seq<string>, keep: string -> bool): (n: nat)
    ensures n <= |urls|
  {
    if urls == [] then 0
    else (if keep(urls[0]) then 1 else 0) + CountWhere(urls[1..], keep)
  }

  /** The number of URLs in `urls` that pass `validate_url`. */
  function ValidCount(net: Network, urls: seq<string>): (n: nat)
    ensures n <= |urls|
  {
    CountWhere(urls, url => ValidateUrl(net, url))
  }

  /** `validate_content(content)`. */
  function ValidateContent(net: Network, content: string): (ok: bool)
    ensures ok ==> |FindAll(content)| >= 2
  {
    var urls := FindAll(content);
    if urls == [] then false else ValidCount(net, urls) >= 2
  }

  // ---------------------------------------------------------------------
  // Properties

  /** The text after an `http://` or `https://` prefix names a host: its first
      character that is not a tab or line break exists and is not `/`, `?` or
      `#`. */
  predicate HasHost(rest: string)
  {
    exists i :: 0 <= i < |rest| && !IsUnsafe(rest[i]) && !EndsNetloc(rest[i])
                && forall j :: 0 <= j < i ==> IsUnsafe(rest[j])
  }

  /** A URL passes exactly when `urlparse` does not raise, it starts with
      `http://` or `https://` followed by a host, and the HEAD request
      answers 200. */
  lemma ValidUrlCharacterisation(net: Network, url: string)
    ensures ValidateUrl(net, url) <==>
      && !net.parseRejects(url)
      && ((Https <= url && HasHost(url[|Https|..])) || (Http <= url && HasHost(url[|Http|..])))
      && net.head(url) == Status(200)
  {
    if Https <= url {
      assert url[4] == 's';
      SplitOfHttpUrl(url, Https);
    } else if Http <= url {
      SplitOfHttpUrl(url, Http);
    }
  }

  /** Without an `http://` or `https://` prefix a URL fails whatever the
      network would answer: in particular every `www.` citation fails. */
  lemma NoProbeWithoutHttpPrefix(url: string)
    requires !HttpPrefix(url)
    ensures forall net: Network :: !ValidateUrl(net, url)
  {
  }

  /** How `urlsplit` takes apart a URL that starts with `p`, one of the two
      accepted prefixes: the scheme is the prefix's, and the host is empty
      exactly when no host follows the prefix. */
  lemma SplitOfHttpUrl(url: string, p: string)
    requires (p == Http || p == Https) && p <= url
    ensures UrlSplit(url).scheme != []
    ensures UrlSplit(url).netloc != [] <==> HasHost(url[|p|..])
  {
    var x := url[|p|..];
    assert forall i :: 0 <= i < |p| ==> !IsUnsafe(p[i]);
    CleanKeepsPrefix(url, p);
    SplitCleanOfHttp(p, RemoveUnsafe(x));
    FirstKept(x);
  }

  /** Stripping and cleaning leave alone a prefix that starts with a
      printable character and holds no tab or line break, such as `http://`
      and `https://`. */
  lemma CleanKeepsPrefix(url: string, p: string)
    requires p <= url && p != [] && !IsC0OrSpace(p[0])
    requires forall i :: 0 <= i < |p| ==> !IsUnsafe(p[i])
    ensures RemoveUnsafe(LStrip(url)) == p + RemoveUnsafe(url[|p|..])
  {
    var x := url[|p|..];
    assert url == p + x;
    assert !IsC0OrSpace(url[0]);
    RemoveUnsafeAppend(p, x);
    KeepsSafeText(p);
  }

  /** Text without tabs and line breaks is left as it is. */
  lemma {:induction false} KeepsSafeText(s: string)
    requires forall i :: 0 <= i < |s| ==> !IsUnsafe(s[i])
    ensures RemoveUnsafe(s) == s
    decreases |s|
  {
    if s != [] {
      KeepsSafeText(s[1..]);
    }
  }

  /** On a cleaned `http://` or `https://` URL the scheme is found before the
      first colon and the host is what follows the two slashes. */
  lemma SplitCleanOfHttp(p: string, r: string)
    requires p == Http || p == Https
    ensures SplitClean(p + r).scheme != []
    ensures SplitClean(p + r).netloc == r[..NetlocLength(r)]
  {
    var name := p[..|p| - 3];
    assert p == name + "://";
    assert forall j :: 0 <= j < |name| ==> name[j] != ':' && IsSchemeChar(name[j]);
    SplitCleanAfterScheme(name, r);
  }

  /** A scheme name followed by `://`: the scheme is found before the colon
      and the host is what follows the two slashes. */
  lemma SplitCleanAfterScheme(name: string, r: string)
    requires name != [] && IsAsciiAlpha(name[0])
    requires forall j :: 0 <= j < |name| ==> name[j] != ':' && IsSchemeChar(name[j])
    ensures SplitClean(name + "://" + r).scheme != []
    ensures SplitClean(name + "://" + r).netloc == r[..NetlocLength(r)]
  {
    var clean := name + "://" + r;
    var i := |name|;
    assert clean[i] == ':';
    assert forall j :: 0 <= j < i ==> clean[j] == name[j];
    assert IndexOf(clean, ':') == i;
    assert clean[i + 1..] == "//" + r;
    assert ("//" + r)[..2] == "//";
    assert ("//" + r)[2..] == r;
  }

  lemma {:induction false} RemoveUnsafeAppend(a: string, b: string)
    ensures RemoveUnsafe(a + b) == RemoveUnsafe(a) + RemoveUnsafe(b)
    decreases |a|
  {
    if a == [] {
      assert a + b == b;
    } else {
      var h := if IsUnsafe(a[0]) then [] else [a[0]];
      assert (a + b)[0] == a[0];
      assert (a + b)[1..] == a[1..] + b;
      assert RemoveUnsafe(a + b) == h + RemoveUnsafe(a[1..] + b);
      RemoveUnsafeAppend(a[1..], b);
      ConcatAssociates(h, RemoveUnsafe(a[1..]), RemoveUnsafe(b));
    }
  }

  /** The first character left after deleting tabs and line breaks is the
      first such character that was not deleted. */
  lemma {:induction false} FirstKept(x: string)
    ensures NetlocLength(RemoveUnsafe(x)) > 0 <==> HasHost(x)
    decreases |x|
  {
    if x != [] {
      FirstKept(x[1..]);
      if IsUnsafe(x[0]) {
        assert RemoveUnsafe(x) == RemoveUnsafe(x[1..]);
        HostAfterUnsafe(x);
      } else {
        assert RemoveUnsafe(x)[0] == x[0];
        HostAtFirst(x);
      }
    }
  }

  /** A leading tab or line break does not decide whether a host follows. */
  lemma HostAfterUnsafe(x: string)
    requires x != [] && IsUnsafe(x[0])
    ensures HasHost(x) <==> HasHost(x[1..])
  {
    var y := x[1..];
    if HasHost(y) {
      var i :| 0 <= i < |y| && !IsUnsafe(y[i]) && !EndsNetloc(y[i])
               && forall j :: 0 <= j < i ==> IsUnsafe(y[j]);
      forall j | 0 <= j < i + 1
        ensures IsUnsafe(x[j])
      {
        if j > 0 {
          assert x[j] == y[j - 1];
        }
      }
      assert x[i + 1] == y[i];
    }
    if HasHost(x) {
      var i :| 0 <= i < |x| && !IsUnsafe(x[i]) && !EndsNetloc(x[i])
               && forall j :: 0 <= j < i ==> IsUnsafe(x[j]);
      forall j | 0 <= j < i - 1
        ensures IsUnsafe(y[j])
      {
        assert y[j] == x[j + 1];
      }
      assert y[i - 1] == x[i];
    }
  }

  /** A leading character that is kept decides alone whether a host follows. */
  lemma HostAtFirst(x: string)
    requires x != [] && !IsUnsafe(x[0])
    ensures HasHost(x) <==> !EndsNetloc(x[0])
  {
    if !EndsNetloc(x[0]) {
      assert HasHost(x) by {
        assert !IsUnsafe(x[0]) && !EndsNetloc(x[0]);
      }
    }
  }

  /** At least one URL of the list is kept exactly when one index holds a
      kept URL. */
  lemma CountAtLeastOne(urls: seq<string>, keep: string -> bool)
    ensures CountWhere(urls, keep) >= 1 <==> exists i :: 0 <= i < |urls| && keep(urls[i])
  {
    if CountWhere(urls, keep) >= 1 {
      var i := KeptOfCountOne(urls, keep);
    }
    if exists i :: 0 <= i < |urls| && keep(urls[i]) {
      var i :| 0 <= i < |urls| && keep(urls[i]);
      CountOneOfKept(urls, keep, i);
    }
  }

  /** At least two URLs of the list are kept exactly when two distinct
      indices hold kept URLs, so a URL listed twice counts twice. */
  lemma CountAtLeastTwo(urls: seq<string>, keep: string -> bool)
    ensures CountWhere(urls, keep) >= 2 <==>
              exists i, j :: 0 <= i < j < |urls| && keep(urls[i]) && keep(urls[j])
  {
    if CountWhere(urls, keep) >= 2 {
      var i, j := KeptPairOfCountTwo(urls, keep);
    }
    if exists i, j :: 0 <= i < j < |urls| && keep(urls[i]) && keep(urls[j]) {
      var i, j :| 0 <= i < j < |urls| && keep(urls[i]) && keep(urls[j]);
      CountTwoOfKeptPair(urls, keep, i, j);
    }
  }

  lemma {:induction false} CountOneOfKept(urls: seq<string>, keep: string -> bool, i: nat)
    requires i < |urls| && keep(urls[i])
    ensures CountWhere(urls, keep) >= 1
    decreases i
  {
    if i > 0 {
      CountOneOfKept(urls[1..], keep, i - 1);
    }
  }

  lemma {:induction false} CountTwoOfKeptPair(urls: seq<string>, keep: string -> bool, i: nat, j: nat)
    requires i < j < |urls| && keep(urls[i]) && keep(urls[j])
    ensures CountWhere(urls, keep) >= 2
    decreases i
  {
    if i > 0 {
      CountTwoOfKeptPair(urls[1..], keep, i - 1, j - 1);
    } else {
      CountOneOfKept(urls[1..], keep, j - 1);
    }
  }

  lemma {:induction false} KeptOfCountOne(urls: seq<string>, keep: string -> bool) returns (i: nat)
    requires CountWhere(urls, keep) >= 1
    ensures i < |urls| && keep(urls[i])
    decreases |urls|
  {
    if keep(urls[0]) {
      i := 0;
    } else {
      var k := KeptOfCountOne(urls[1..], keep);
      i := k + 1;
    }
  }

  lemma {:induction false} KeptPairOfCountTwo(urls: seq<string>, keep: string -> bool) returns (i: nat, j: nat)
    requires CountWhere(urls, keep) >= 2
    ensures i < j < |urls| && keep(urls[i]) && keep(urls[j])
    decreases |urls|
  {
    if keep(urls[0]) {
      var k := KeptOfCountOne(urls[1..], keep);
      i, j := 0, k + 1;
    } else {
      var k, l := KeptPairOfCountTwo(urls[1..], keep);
      i, j := k + 1, l + 1;
    }
  }

  /** A report passes exactly when two distinct citation tokens pass; with no
      token at all it fails, as the early return promises. */
  lemma ValidateContentIffTwoValidTokens(net: Network, content: string)
    ensures var urls := FindAll(content);
            ValidateContent(net, content) <==>
              exists i, j :: 0 <= i < j < |urls| && ValidateUrl(net, urls[i]) && ValidateUrl(net, urls[j])
  {
    var urls := FindAll(content);
    var keep := url => ValidateUrl(net, url);
    CountAtLeastTwo(urls, keep);
    assert forall i :: 0 <= i < |urls| ==> keep(urls[i]) == ValidateUrl(net, urls[i]);
  }

  /** A text in which the pattern matches nowhere never passes. */
  lemma NoCitationFails(net: Network, content: string)
    requires forall k :: 0 <= k < |content| ==> MatchLength(content[k..]).None?
    ensures !ValidateContent(net, content)
  {
    NoTokenIffNoMatch(content);
  }

  /** A report whose citations are all `www.` tokens never passes, whatever
      the network answers. */
  lemma WwwCitationsNeverCount(net: Network, content: string)
    requires forall k :: 0 <= k < |FindAll(content)| ==> Www <= FindAll(content)[k]
    ensures !ValidateContent(net, content)
  {
    var urls := FindAll(content);
    forall k | 0 <= k < |urls|
      ensures !ValidateUrl(net, urls[k])
    {
      assert urls[k][0] == 'w';
    }
    CountAtLeastOne(urls, url => ValidateUrl(net, url));
  }

  /** The same passing URL cited twice is enough for the report to pass. */
  lemma DuplicateCitationCountsTwice(net: Network, u: string)
    requires UrlLike(u) && ValidateUrl(net, u)
    ensures ValidateContent(net, u + " " + u)
  {
    RepeatedCitationScansTwice(u);
    var keep := url => ValidateUrl(net, url);
    CountAtLeastTwo([u, u], keep);
    assert keep([u, u][0]) && keep([u, u][1]);
  }

  /** A single citation never suffices, however good it is. */
  lemma OneCitationIsNotEnough(net: Network, u: string)
    requires UrlLike(u)
    ensures !ValidateContent(net, u)
  {
    WordIsOneToken(u);
  }
}

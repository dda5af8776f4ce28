/** `parseURL` of src/requests.ts: scheme, port and host/path split of an
    absolute HTTP(S) URL, written with JavaScript string semantics. */
module Requests {
  import opened Models

  const HTTP_STRING: string := "http://"
  const HTTPS_STRING: string := "https://"

  datatype ParsedUrl = ParsedUrl(isSecured: bool, host: string, port: Option<string>, path: Option<string>)

  /** A parsed URL, or the `'Wrong URL'` exception. */
  datatype UrlResult = Parsed(url: ParsedUrl) | WrongUrl

  /** A character `\d` matches. */
  predicate IsDigit(c: char)
  {
    '0' <= c <= '9'
  }

  /** The number of digits in `s` from position `i` on (the greedy `\d+`). */
  function DigitRun(s: string, i: nat): (n: nat)
    requires i <= |s|
    ensures i + n <= |s|
    ensures forall k :: i <= k < i + n ==> IsDigit(s[k])
    ensures i + n == |s| || !IsDigit(s[i + n])
    decreases |s| - i
  {
    if i < |s| && IsDigit(s[i]) then 1 + DigitRun(s, i + 1) else 0
  }

  /** A `:` followed by a digit starts at position `k`. */
  predicate PortAt(s: string, k: nat)
  {
    k + 1 < |s| && s[k] == ':' && IsDigit(s[k + 1])
  }

  /** Where `/:\d+/` first matches in `s`, searching from `i`. */
  function PortMatchFrom(s: string, i: nat): (p: Option<nat>)
    requires i <= |s|
    ensures p.Some? ==> i <= p.value && PortAt(s, p.value)
    ensures p.Some? ==> forall k :: i <= k < p.value ==> !PortAt(s, k)
    ensures p.None? ==> forall k :: i <= k < |s| ==> !PortAt(s, k)
    decreases |s| - i
  {
    if i + 1 >= |s| then None
    else if PortAt(s, i) then Some(i)
    else PortMatchFrom(s, i + 1)
  }

  /** `pat` occurs in `s` at position `k`. */
  predicate OccursAt(s: string, pat: string, k: nat)
  {
    k + |pat| <= |s| && s[k..k + |pat|] == pat
  }

  /** `s.indexOf(pat)` from position `i` on: the first occurrence, or -1. */
  function IndexOfFrom(s: string, pat: string, i: nat): (r: int)
    requires i <= |s|
    ensures r == -1 || (i <= r && OccursAt(s, pat, r))
    ensures r != -1 ==> forall k :: i <= k < r ==> !OccursAt(s, pat, k)
    ensures r == -1 ==> forall k :: i <= k <= |s| ==> !OccursAt(s, pat, k)
    decreases |s| - i
  {
    if OccursAt(s, pat, i) then i
    else if i == |s| then -1
    else IndexOfFrom(s, pat, i + 1)
  }

  /** `s.indexOf(c)` from position `i` on, for a single character. */
  function IndexOfChar(s: string, c: char, i: nat): (r: int)
    requires i <= |s|
    ensures r == -1 || (i <= r < |s| && s[r] == c)
    ensures r != -1 ==> forall k :: i <= k < r ==> s[k] != c
    ensures r == -1 ==> forall k :: i <= k < |s| ==> s[k] != c
    decreases |s| - i
  {
    if i == |s| then -1
    else if s[i] == c then i
    else IndexOfChar(s, c, i + 1)
  }

  /** The digit string of the first `:\d+` match (`portMatch[0].substring(1)`). */
  function PortOf(rest: string): (port: Option<string>)
    ensures port.None? <==> forall k :: 0 <= k < |rest| ==> !PortAt(rest, k)
    ensures port.Some? ==> |port.value| > 0 && forall c :: c in port.value ==> IsDigit(c)
    ensures port.Some? ==> exists k: nat :: FirstPortMatch(rest, k) && OccursAt(rest, ":" + port.value, k)
                                       && WholeDigitRun(rest, k + 1 + |port.value|)
  {
    var m := PortMatchFrom(rest, 0);
    if m.None? then None
    else
      var n := DigitRun(rest, m.value + 1);
      var port := rest[m.value + 1..m.value + 1 + n];
      assert rest[m.value..m.value + 1 + n] == ":" + port;
      assert FirstPortMatch(rest, m.value);
      assert WholeDigitRun(rest, m.value + 1 + |port|);
      Some(port)
  }

  /** `k` is where `/:\d+/` matches: the first `:`-then-digit position. */
  predicate FirstPortMatch(s: string, k: nat)
  {
    k < |s| && PortAt(s, k) && forall j :: 0 <= j < k ==> !PortAt(s, j)
  }

  /** The greedy `\d+` stops at position `e`: the string ends there or a
      non-digit follows. */
  predicate WholeDigitRun(s: string, e: nat)
  {
    e == |s| || (e < |s| && !IsDigit(s[e]))
  }

  /** `url.replace(port, '')`: the FIRST occurrence of the digit string goes
      (the colon before it stays). */
  function RemoveFirst(s: string, pat: string): (r: string)
    ensures IndexOfFrom(s, pat, 0) == -1 ==> r == s
    ensures IndexOfFrom(s, pat, 0) != -1 ==>
              var k := IndexOfFrom(s, pat, 0); r == s[..k] + s[k + |pat|..] && |r| == |s| - |pat|
  {
    var k := IndexOfFrom(s, pat, 0);
    if k == -1 then s else s[..k] + s[k + |pat|..]
  }

  /** The remainder after the scheme once the port digits are removed. */
  function WithoutPort(rest: string): string
  {
    var port := PortOf(rest);
    if port.Some? then RemoveFirst(rest, port.value) else rest
  }

  /** The `:` of the matched port stays behind: when the digits do not
      occur earlier, exactly the digits after the matched colon are removed,
      so the colon is left in place at the match position. */
  lemma PortColonStays(rest: string, k: nat)
    requires FirstPortMatch(rest, k) && PortOf(rest).Some?
    requires forall j :: 0 <= j <= k ==> !OccursAt(rest, PortOf(rest).value, j)
    ensures WithoutPort(rest) == rest[..k + 1] + rest[k + 1 + |PortOf(rest).value|..]
    ensures k < |WithoutPort(rest)| && WithoutPort(rest)[k] == ':'
  {
    var port := PortOf(rest).value;
    var m: nat :| FirstPortMatch(rest, m) && OccursAt(rest, ":" + port, m);
    FirstPortMatchUnique(rest, k, m);
    assert OccursAt(rest, port, k + 1) by {
      assert rest[k..k + 1 + |port|][1..] == rest[k + 1..k + 1 + |port|];
    }
    IndexOfFromFirst(rest, port, 0, k + 1);
    assert WithoutPort(rest) == RemoveFirst(rest, port);
  }

  /** The first `:`-then-digit position is unique. */
  lemma FirstPortMatchUnique(s: string, k: nat, m: nat)
    requires FirstPortMatch(s, k) && FirstPortMatch(s, m)
    ensures k == m
  {
  }

  /** The host/port/path part of one URL after its scheme prefix. */
  function ParseRest(isSecured: bool, rest: string): (r: ParsedUrl)
    ensures r.isSecured == isSecured && r.port == PortOf(rest)
    ensures r.host + (if r.path.Some? then r.path.value else "") == WithoutPort(rest)
    ensures '/' !in r.host
    ensures r.path.Some? ==> |r.path.value| > 0 && r.path.value[0] == '/'
    ensures r.path.None? <==> '/' !in WithoutPort(rest)
  {
    var url := WithoutPort(rest);
    var slash := IndexOfChar(url, '/', 0);
    if slash != -1 then
      assert url[..slash] + url[slash..] == url;
      assert forall k :: 0 <= k < slash ==> url[..slash][k] != '/';
      ParsedUrl(isSecured, url[..slash], PortOf(rest), Some(url[slash..]))
    else
      ParsedUrl(isSecured, url, PortOf(rest), None)
  }

  /** `parseURL`: an `http://` URL is not secured, an `https://` one is,
      and any other throws. */
  function ParseUrl(url: string): (r: UrlResult)
    ensures r.WrongUrl? <==> !(HTTP_STRING <= url) && !(HTTPS_STRING <= url)
    ensures r.Parsed? ==> (r.url.isSecured <==> HTTPS_STRING <= url)
  {
    if HTTP_STRING <= url then
      assert url[4] == ':';
      Parsed(ParseRest(false, url[|HTTP_STRING|..]))
    else if HTTPS_STRING <= url then Parsed(ParseRest(true, url[|HTTPS_STRING|..]))
    else WrongUrl
  }

  /** What follows the scheme is parsed on its own: the prefix is gone
      before the port and path are looked for. */
  lemma SchemeStripped(url: string)
    requires HTTP_STRING <= url || HTTPS_STRING <= url
    ensures var rest := if HTTP_STRING <= url then url[7..] else url[8..];
            ParseUrl(url) == Parsed(ParseRest(HTTPS_STRING <= url, rest))
  {
    if HTTP_STRING <= url {
      assert url[4] == ':';
    }
  }

  /** `IndexOfFrom` finds the first occurrence: any position with an
      occurrence and none before it is the answer. */
  lemma {:induction false} IndexOfFromFirst(s: string, pat: string, i: nat, j: nat)
    requires i <= j <= |s| && OccursAt(s, pat, j)
    requires forall k :: i <= k < j ==> !OccursAt(s, pat, k)
    ensures IndexOfFrom(s, pat, i) == j
    decreases j - i
  {
    if i < j {
      IndexOfFromFirst(s, pat, i + 1, j);
    }
  }

  /** `IndexOfChar` finds the first occurrence of its character. */
  lemma {:induction false} IndexOfCharFirst(s: string, c: char, i: nat, j: int)
    requires i <= |s| && (j == -1 || (i <= j < |s| && s[j] == c))
    requires forall k :: i <= k < (if j == -1 then |s| else j) ==> s[k] != c
    ensures IndexOfChar(s, c, i) == j
    decreases |s| - i
  {
    if i < |s| && i != j {
      IndexOfCharFirst(s, c, i + 1, j);
    }
  }

  lemma {:induction false} ShortPort()
    ensures PortOf("a:1/b") == Some("1")
  {
    var rest := "a:1/b";
    assert !PortAt(rest, 0);
    assert PortMatchFrom(rest, 0) == Some(1);
    assert DigitRun(rest, 2) == 1 by {
      assert rest[3] == '/';
    }
    assert rest[2..3] == "1";
  }

  lemma {:induction false} ShortWithoutPort()
    ensures WithoutPort("a:1/b") == "a:/b"
  {
    var rest := "a:1/b";
    ShortPort();
    assert !OccursAt(rest, "1", 0) by { assert rest[0..1] != "1"; }
    assert !OccursAt(rest, "1", 1) by { assert rest[1..2] != "1"; }
    assert OccursAt(rest, "1", 2) by { assert rest[2..3] == "1"; }
    IndexOfFromFirst(rest, "1", 0, 2);
    assert rest[..2] + rest[3..] == "a:/b";
  }

  lemma {:induction false} ShortParseRest()
    ensures ParseRest(false, "a:1/b") == ParsedUrl(false, "a:", Some("1"), Some("/b"))
  {
    ShortPort();
    ShortWithoutPort();
    var rest := "a:/b";
    IndexOfCharFirst(rest, '/', 0, 2);
    assert rest[..2] == "a:" && rest[2..] == "/b";
  }

  /** A URL with a port: the digits are reported, but the colon stays in the
      host. */
  lemma {:induction false} PortLeavesColonInHost()
    ensures ParseUrl("http://a:1/b") == Parsed(ParsedUrl(false, "a:", Some("1"), Some("/b")))
  {
    var url := "http://a:1/b";
    assert HTTP_STRING <= url by { assert url[..7] == HTTP_STRING; }
    assert !(HTTPS_STRING <= url) by { assert url[4] != HTTPS_STRING[4]; }
    SchemeStripped(url);
    assert url[7..] == "a:1/b";
    ShortParseRest();
  }

  lemma {:induction false} RepeatedPort()
    ensures PortOf("8:8") == Some("8")
  {
    var rest := "8:8";
    assert !PortAt(rest, 0);
    assert PortMatchFrom(rest, 0) == Some(1);
    assert DigitRun(rest, 2) == 1;
    assert rest[2..3] == "8";
  }

  lemma {:induction false} RepeatedWithoutPort()
    ensures WithoutPort("8:8") == ":8"
  {
    var rest := "8:8";
    RepeatedPort();
    assert OccursAt(rest, "8", 0) by { assert rest[0..1] == "8"; }
    IndexOfFromFirst(rest, "8", 0, 0);
    assert rest[1..] == ":8";
  }

  lemma {:induction false} RepeatedParseRest()
    ensures ParseRest(false, "8:8") == ParsedUrl(false, ":8", Some("8"), None)
  {
    RepeatedPort();
    RepeatedWithoutPort();
    IndexOfCharFirst(":8", '/', 0, -1);
  }

  /** The port digits are removed where they FIRST occur, which may be
      inside the host. */
  lemma {:induction false} PortDigitsRemovedFirstWhereTheyOccur()
    ensures ParseUrl("http://8:8") == Parsed(ParsedUrl(false, ":8", Some("8"), None))
  {
    var url := "http://8:8";
    assert HTTP_STRING <= url by { assert url[..7] == HTTP_STRING; }
    assert !(HTTPS_STRING <= url) by { assert url[4] != HTTPS_STRING[4]; }
    SchemeStripped(url);
    assert url[7..] == "8:8";
    RepeatedParseRest();
  }
}

/**
 * The in-memory cookie jar: cookies grouped by domain, the ones that go with a request, and how close a
 * profile's cookies are to expiry. Times are nanoseconds since the Unix epoch.
 */
module CookieJar {
  import opened Prelude
  import opened Text

  datatype SameSite = Strict | Lax | NoneMode | Unspecified

  datatype Cookie = Cookie(
    name: string, value: string, domain: string, path: string, expires: Option<int>,
    secure: bool, httpOnly: bool, sameSite: SameSite)

  /** The parts of a request URL the jar looks at. */
  datatype Url = Url(scheme: string, host: Option<string>, path: string)

  /** The registrable domain of a host, as the public suffix list has it. */
  type Psl = string -> Option<string>

  // ----- one cookie against one URL ----------------------------------------------------------

  function TrimLeft(s: string, drop: char -> bool): string {
    if s != "" && drop(s[0]) then TrimLeft(s[1..], drop) else s
  }

  function TrimRight(s: string, drop: char -> bool): string {
    if s != "" && drop(s[|s| - 1]) then TrimRight(s[..|s| - 1], drop) else s
  }

  function LowerChar(c: char): char {
    if 'A' <= c <= 'Z' then ((c as int) + 32) as char else c
  }

  function Lower(s: string): string {
    seq(|s|, i requires 0 <= i < |s| => LowerChar(s[i]))
  }

  function NormalizeDomain(domain: string): string {
    NormalizeOuter(Outer(domain))
  }

  function NormalizeOuter(trimmed: string): string {
    Lower(TrimRight(TrimLeft(trimmed, IsDot), IsDot))
  }

  predicate Starts(s: string, drop: char -> bool) { s != "" && drop(s[0]) }
  predicate Ends(s: string, drop: char -> bool) { s != "" && drop(s[|s| - 1]) }

  /** Where trimming on the left stops. */
  lemma {:induction false} TrimLeftStops(s: string, drop: char -> bool) returns (k: nat)
    ensures k <= |s| && TrimLeft(s, drop) == s[k..] && !Starts(s[k..], drop)
    ensures forall i :: 0 <= i < k ==> drop(s[i])
  {
    if Starts(s, drop) {
      var j := TrimLeftStops(s[1..], drop);
      k := j + 1;
      assert s[1..][j..] == s[k..];
      assert forall i :: 1 <= i < k ==> s[i] == s[1..][i - 1];
    } else {
      k := 0;
    }
  }

  lemma {:induction false} TrimRightStops(s: string, drop: char -> bool) returns (k: nat)
    ensures k <= |s| && TrimRight(s, drop) == s[..k] && !Ends(s[..k], drop)
    ensures forall i :: k <= i < |s| ==> drop(s[i])
  {
    if Ends(s, drop) {
      k := TrimRightStops(s[..|s| - 1], drop);
      assert s[..|s| - 1][..k] == s[..k];
    } else {
      k := |s|;
    }
  }

  predicate IsDot(c: char) { c == '.' }
  predicate IsUpper(c: char) { 'A' <= c <= 'Z' }

  predicate DotsBetween(t: string, from: int, to: int)
    requires 0 <= from && to <= |t|
  {
    forall i :: from <= i < to ==> IsDot(t[i])
  }

  /** The domain without the white space around it. */
  function Outer(domain: string): string {
    TrimRight(TrimLeft(domain, IsSpace), IsSpace)
  }

  /** What the dots are trimmed to: the part from the first to the last character that is not a dot. */
  lemma DotsStop(t: string) returns (lo: nat, hi: nat)
    ensures lo <= hi <= |t| && NormalizeOuter(t) == Lower(t[lo..hi])
    ensures DotsBetween(t, 0, lo) && DotsBetween(t, hi, |t|)
    ensures lo < hi ==> !IsDot(t[lo]) && !IsDot(t[hi - 1])
    ensures lo == hi ==> DotsBetween(t, 0, |t|)
  {
    lo := TrimLeftStops(t, IsDot);
    var left := t[lo..];
    var k := TrimRightStops(left, IsDot);
    hi := lo + k;
    assert left[..k] == t[lo..hi];
    assert forall i :: hi <= i < |t| ==> t[i] == left[i - lo];
    if k > 0 {
      assert left[..k][k - 1] == t[hi - 1] && left[0] == t[lo];
    }
  }

  /** A normalised domain has no dot at either end and no capital letters. */
  lemma NormalizedShape(domain: string)
    ensures var n := NormalizeDomain(domain);
            !Starts(n, IsDot) && !Ends(n, IsDot) && forall i :: 0 <= i < |n| ==> !IsUpper(n[i])
  {
    var lo, hi := DotsStop(Outer(domain));
  }

  /** Only white space and dots go, at the ends; capitals become small letters. */
  lemma NormalizedIsCore(domain: string) returns (lo: nat, hi: nat)
    ensures lo <= hi <= |domain| && |NormalizeDomain(domain)| == hi - lo
    ensures forall i :: 0 <= i < lo || hi <= i < |domain| ==> domain[i] == '.' || IsSpace(domain[i])
    ensures forall i :: lo <= i < hi ==>
              NormalizeDomain(domain)[i - lo] ==
                if 'A' <= domain[i] <= 'Z' then ((domain[i] as int) + 32) as char else domain[i]
  {
    var a := TrimLeftStops(domain, IsSpace);
    var b := TrimRightStops(domain[a..], IsSpace);
    var l, h := DotsStop(Outer(domain));
    lo, hi := a + l, a + h;
    assert Outer(domain) == domain[a..][..b];
    assert forall i :: 0 <= i < b ==> Outer(domain)[i] == domain[a + i];
    assert forall i :: b <= i < |domain| - a ==> domain[a..][i] == domain[a + i];
    forall i | 0 <= i < lo || hi <= i < |domain| ensures domain[i] == '.' || IsSpace(domain[i]) {
      if a <= i < a + b {
        assert Outer(domain)[i - a] == domain[i];
      } else if a + b <= i {
        assert domain[a..][i - a] == domain[i];
      }
    }
  }

  /** Inside the outer white space, a white-space character that only dots separate from an end. */
  predicate SpaceInsideDots(domain: string) {
    var t := Outer(domain);
    exists i :: 0 <= i < |t| && IsSpace(t[i]) && (DotsBetween(t, 0, i) || DotsBetween(t, i + 1, |t|))
  }

  lemma SpaceInsideDotsShows(domain: string)
    ensures var n := NormalizeDomain(domain);
            SpaceInsideDots(domain) <==> Starts(n, IsSpace) || Ends(n, IsSpace)
  {
    var t, n := Outer(domain), NormalizeDomain(domain);
    var lo, hi := DotsStop(t);
    if lo < hi {
      assert IsSpace(n[0]) <==> IsSpace(t[lo]);
      assert IsSpace(n[|n| - 1]) <==> IsSpace(t[hi - 1]);
    }
    if SpaceInsideDots(domain) {
      var i :| 0 <= i < |t| && IsSpace(t[i]) && (DotsBetween(t, 0, i) || DotsBetween(t, i + 1, |t|));
      assert lo <= i < hi && (i == lo || i == hi - 1);
    }
  }

  lemma StableIffNoSpaceLeft(n: string)
    requires !Starts(n, IsDot) && !Ends(n, IsDot) && forall i :: 0 <= i < |n| ==> !IsUpper(n[i])
    ensures NormalizeDomain(n) == n <==> !Starts(n, IsSpace) && !Ends(n, IsSpace)
  {
    var a := TrimLeftStops(n, IsSpace);
    var b := TrimRightStops(n[a..], IsSpace);
    var lo, hi := DotsStop(Outer(n));
    assert |NormalizeDomain(n)| <= |Outer(n)| <= |n|;
    if !Starts(n, IsSpace) && !Ends(n, IsSpace) {
      assert a == 0 && n[0..] == n && b == |n| && n[..b] == n;
      assert Outer(n) == n;
      assert lo == 0 && hi == |n| && n[lo..hi] == n;
      assert Lower(n) == n;
    }
  }

  /** Normalising again changes nothing if and only if no white space stands inside the outer dots. */
  lemma NormalizeStableIff(domain: string)
    ensures NormalizeDomain(NormalizeDomain(domain)) == NormalizeDomain(domain) <==> !SpaceInsideDots(domain)
  {
    NormalizedShape(domain);
    SpaceInsideDotsShows(domain);
    StableIffNoSpaceLeft(NormalizeDomain(domain));
  }

  /** White space behind a leading dot survives: the result is not yet normal. */
  lemma NormalizeIsNotIdempotent()
    ensures NormalizeDomain(". a") == " a" && NormalizeDomain(" a") == "a"
  {
    assert TrimLeft(". a", IsSpace) == ". a" && TrimRight(". a", IsSpace) == ". a";
    assert ". a"[1..] == " a" && TrimLeft(". a", IsDot) == " a" && TrimRight(" a", IsDot) == " a";
    assert " a"[1..] == "a" && TrimLeft(" a", IsSpace) == "a" && TrimRight("a", IsSpace) == "a";
  }

  predicate DomainMatches(psl: Psl, host: string, domain: string) {
    host == domain
    || (!(psl(host).Some? && psl(domain).Some? && psl(host) != psl(domain)) && EndsWith(host, "." + domain))
  }

  predicate PathMatches(request: string, path: string) {
    var cookiePath := if path == "" then "/" else path;
    request == cookiePath
    || (cookiePath <= request
        && (cookiePath[|cookiePath| - 1] == '/' || (|cookiePath| < |request| && request[|cookiePath|] == '/')))
  }

  predicate CookieMatchesUrl(psl: Psl, c: Cookie, url: Url, now: int) {
    && !(c.expires.Some? && c.expires.value <= now)
    && !(c.secure && url.scheme != "https")
    && url.host.Some?
    && NormalizeDomain(c.domain) != ""
    && DomainMatches(psl, NormalizeDomain(url.host.value), NormalizeDomain(c.domain))
    && PathMatches(url.path, c.path)
  }

  /** A directory written with its closing slash. */
  function AsDirectory(path: string): string {
    if path != "" && path[|path| - 1] == '/' then path else path + "/"
  }

  /**
   * Section 5.1.4 of RFC 6265 as a statement about directories: the request is for the cookie's path
   * itself or for something inside it, read as a directory. The empty path counts as "/".
   */
  lemma PathMatchIsContainment(request: string, path: string)
    ensures PathMatches(request, path) <==> request == path != "" || AsDirectory(path) <= request
  {}

  /** Whatever the public suffix list says, a cookie goes to its own domain or to hosts below it only. */
  lemma CookieStaysInItsDomain(psl: Psl, c: Cookie, url: Url, now: int)
    requires CookieMatchesUrl(psl, c, url, now)
    ensures var host, domain := NormalizeDomain(url.host.value), NormalizeDomain(c.domain);
            host == domain || exists sub :: host == sub + "." + domain
  {
    var host, domain := NormalizeDomain(url.host.value), NormalizeDomain(c.domain);
    if host != domain {
      var sub := host[..|host| - |domain| - 1];
      assert host == sub + ("." + domain);
      assert host == sub + "." + domain;
    }
  }

  /** The host is the cookie's domain, or below it and not known to be registered by someone else. */
  ghost predicate Reaches(psl: Psl, host: string, domain: string) {
    || host == domain
    || ((exists sub :: host == sub + "." + domain)
        && !(psl(host).Some? && psl(domain).Some? && psl(host) != psl(domain)))
  }

  /** The cookie goes with the request. */
  ghost predicate Goes(psl: Psl, c: Cookie, url: Url, now: int) {
    && (c.expires.Some? ==> now < c.expires.value)
    && (c.secure ==> url.scheme == "https")
    && url.host.Some? && NormalizeDomain(c.domain) != ""
    && Reaches(psl, NormalizeDomain(url.host.value), NormalizeDomain(c.domain))
    && (url.path == c.path != "" || AsDirectory(c.path) <= url.path)
  }

  lemma SuffixIff(host: string, domain: string)
    ensures EndsWith(host, "." + domain) <==> exists sub :: host == sub + "." + domain
  {
    if EndsWith(host, "." + domain) {
      var sub := host[..|host| - |domain| - 1];
      assert host == sub + ("." + domain);
      assert host == sub + "." + domain;
    }
    if sub :| host == sub + "." + domain {
      assert host == sub + ("." + domain);
    }
  }

  lemma CookieGoesIff(psl: Psl, c: Cookie, url: Url, now: int)
    ensures CookieMatchesUrl(psl, c, url, now) <==> Goes(psl, c, url, now)
  {
    PathMatchIsContainment(url.path, c.path);
    if url.host.Some? { SuffixIff(NormalizeDomain(url.host.value), NormalizeDomain(c.domain)); }
  }

  // ----- the index ------------------------------------------------------------------------------

  type Groups = map<string, seq<Cookie>>

  /** The cookies of a flat list that belong to one group, in their order. */
  function OfDomain(cookies: seq<Cookie>, key: string): seq<Cookie> {
    if cookies == [] then []
    else
      var last := cookies[|cookies| - 1];
      OfDomain(cookies[..|cookies| - 1], key) + if NormalizeDomain(last.domain) == key then [last] else []
  }

  /** The index holds every cookie in the group of its domain and nothing else. */
  ghost predicate Indexes(groups: Groups, cookies: seq<Cookie>) {
    forall k :: GroupIs(groups, k, OfDomain(cookies, k))
  }

  /** The group under a key; there is no empty group. */
  predicate GroupIs(groups: Groups, key: string, own: seq<Cookie>) {
    if key in groups then groups[key] == own && own != [] else own == []
  }

  function PairOf(c: Cookie): string {
    c.name + "=" + c.value
  }

  function PairIfMatching(psl: Psl, c: Cookie, url: Url, now: int): seq<string> {
    if CookieMatchesUrl(psl, c, url, now) then [PairOf(c)] else []
  }

  /** The pairs of the cookies that match, in list order. */
  function Matching(psl: Psl, cookies: seq<Cookie>, url: Url, now: int): seq<string> {
    if cookies == [] then []
    else Matching(psl, cookies[..|cookies| - 1], url, now) + PairIfMatching(psl, cookies[|cookies| - 1], url, now)
  }

  /** The cookies of a list that go with a request, in list order. */
  ghost function Going(psl: Psl, cookies: seq<Cookie>, url: Url, now: int): seq<Cookie> {
    if cookies == [] then []
    else
      var last := cookies[|cookies| - 1];
      Going(psl, cookies[..|cookies| - 1], url, now) + if Goes(psl, last, url, now) then [last] else []
  }

  function Texts(cookies: seq<Cookie>): seq<string> {
    seq(|cookies|, i requires 0 <= i < |cookies| => cookies[i].name + "=" + cookies[i].value)
  }

  /** What is sent is "name=value" of exactly the cookies that go, each as often as it is there. */
  lemma {:induction false} SentExactly(psl: Psl, cookies: seq<Cookie>, url: Url, now: int)
    ensures Matching(psl, cookies, url, now) == Texts(Going(psl, cookies, url, now))
    ensures forall c :: c in Going(psl, cookies, url, now) <==> c in cookies && Goes(psl, c, url, now)
  {
    if cookies != [] {
      var init, last := cookies[..|cookies| - 1], cookies[|cookies| - 1];
      assert cookies == init + [last];
      SentExactly(psl, init, url, now);
      CookieGoesIff(psl, last, url, now);
    }
  }

  lemma MatchingSnoc(psl: Psl, cookies: seq<Cookie>, c: Cookie, url: Url, now: int)
    ensures Matching(psl, cookies + [c], url, now) ==
            Matching(psl, cookies, url, now) + PairIfMatching(psl, c, url, now)
  {}

  /** Taking one group out of the flat list. */
  function Except(cookies: seq<Cookie>, key: string): seq<Cookie> {
    if cookies == [] then []
    else
      var last := cookies[|cookies| - 1];
      Except(cookies[..|cookies| - 1], key) + if NormalizeDomain(last.domain) == key then [] else [last]
  }

  lemma {:induction false} SplitOffGroup(cookies: seq<Cookie>, key: string)
    ensures |cookies| == |OfDomain(cookies, key)| + |Except(cookies, key)|
    ensures multiset(cookies) == multiset(OfDomain(cookies, key)) + multiset(Except(cookies, key))
  {
    if cookies != [] {
      var init, last := cookies[..|cookies| - 1], cookies[|cookies| - 1];
      SplitOffGroup(init, key);
      assert cookies == init + [last];
    }
  }

  lemma {:induction false} SplitOffMatching(psl: Psl, cookies: seq<Cookie>, key: string, url: Url, now: int)
    ensures multiset(Matching(psl, cookies, url, now)) ==
            multiset(Matching(psl, OfDomain(cookies, key), url, now)) +
              multiset(Matching(psl, Except(cookies, key), url, now))
  {
    if cookies != [] {
      var init, last := cookies[..|cookies| - 1], cookies[|cookies| - 1];
      SplitOffMatching(psl, init, key, url, now);
      var own, rest := OfDomain(init, key), Except(init, key);
      if NormalizeDomain(last.domain) == key {
        MatchingSnoc(psl, own, last, url, now);
        assert OfDomain(cookies, key) == own + [last] && Except(cookies, key) == rest;
      } else {
        MatchingSnoc(psl, rest, last, url, now);
        assert OfDomain(cookies, key) == own && Except(cookies, key) == rest + [last];
      }
    }
  }

  lemma {:induction false} ExceptKeepsOthers(cookies: seq<Cookie>, key: string, other: string)
    ensures OfDomain(Except(cookies, key), other) == if other == key then [] else OfDomain(cookies, other)
  {
    if cookies != [] {
      var init, last := cookies[..|cookies| - 1], cookies[|cookies| - 1];
      ExceptKeepsOthers(init, key, other);
      var rest := Except(init, key);
      assert (rest + [last])[..|rest|] == rest;
      assert rest + [] == rest;
    }
  }

  lemma EmptyIndex(cookies: seq<Cookie>)
    requires Indexes(map[], cookies)
    ensures cookies == []
  {
    assert cookies == [] || OfDomain(cookies, NormalizeDomain(cookies[|cookies| - 1].domain)) != [];
  }

  /** Removing a group from the index removes it from the list it indexes. */
  lemma IndexWithout(groups: Groups, cookies: seq<Cookie>, key: string)
    requires Indexes(groups, cookies) && key in groups
    ensures Indexes(groups - {key}, Except(cookies, key))
  {
    forall k ensures GroupIs(groups - {key}, k, OfDomain(Except(cookies, key), k)) {
      ExceptKeepsOthers(cookies, key, k);
      assert GroupIs(groups, k, OfDomain(cookies, k));
    }
  }

  lemma IndexAdd(groups: Groups, cookies: seq<Cookie>, c: Cookie)
    requires Indexes(groups, cookies)
    ensures var key := NormalizeDomain(c.domain);
            Indexes(groups[key := (if key in groups then groups[key] else []) + [c]], cookies + [c])
  {
    var key, all := NormalizeDomain(c.domain), cookies + [c];
    var grown := groups[key := (if key in groups then groups[key] else []) + [c]];
    assert all[..|cookies|] == cookies;
    forall k ensures GroupIs(grown, k, OfDomain(all, k)) {
      assert GroupIs(groups, k, OfDomain(cookies, k));
    }
  }

  /** Bytes a header value may not hold: controls other than tab. */
  predicate LegalHeader(s: string) {
    forall i :: 0 <= i < |s| ==> s[i] == '\t' || (s[i] as int >= 32 && s[i] as int != 127)
  }

  /** The header sent for these pairs; one illegal byte anywhere and nothing is sent. */
  function HeaderOf(pairs: seq<string>): Option<string> {
    if pairs != [] && LegalHeader(Join(pairs, "; ")) then Some(Join(pairs, "; ")) else None
  }

  predicate IllegalIn(s: string) {
    exists i :: 0 <= i < |s| && (s[i] as int == 127 || (s[i] as int < 32 && s[i] as int != 9))
  }

  lemma LegalIff(s: string)
    ensures LegalHeader(s) <==> !IllegalIn(s)
  {}

  lemma {:induction false} LegalJoin(pairs: seq<string>)
    ensures LegalHeader(Join(pairs, "; ")) <==> forall p :: p in pairs ==> !IllegalIn(p)
  {
    if |pairs| == 1 {
      assert pairs == [pairs[0]];
      LegalIff(pairs[0]);
    } else if |pairs| > 1 {
      var first, rest := pairs[0], Join(pairs[1..], "; ");
      LegalJoin(pairs[1..]);
      LegalConcat(first + "; ", rest);
      LegalConcat(first, "; ");
      assert pairs == [first] + pairs[1..];
      assert Join(pairs, "; ") == first + "; " + rest;
      LegalIff(first);
    }
  }

  lemma LegalConcat(a: string, b: string)
    ensures LegalHeader(a + b) <==> LegalHeader(a) && LegalHeader(b)
  {
    var s := a + b;
    forall i | 0 <= i < |a| ensures s[i] == a[i] {}
    forall i | 0 <= i < |b| ensures s[|a| + i] == b[i] {}
  }

  /** No header is sent for no pairs, or if one of them has a control byte; else it reads back as the pairs. */
  lemma HeaderExactly(pairs: seq<string>)
    ensures HeaderOf(pairs).None? <==> pairs == [] || exists p :: p in pairs && IllegalIn(p)
    ensures HeaderOf(pairs).Some? && (forall p :: p in pairs ==> !Contains(p, ';')) ==>
              Split(HeaderOf(pairs).value, "; ") == pairs
  {
    LegalJoin(pairs);
    if pairs != [] && forall p :: p in pairs ==> !Contains(p, ';') { SplitJoin(pairs, "; "); }
  }

  class AuthCookieJar {
    var inner: Groups

    constructor FromCookies(cookies: seq<Cookie>)
      ensures Indexes(inner, cookies)
    {
      var grouped: Groups := map[];
      for i := 0 to |cookies|
        invariant Indexes(grouped, cookies[..i])
      {
        var key := NormalizeDomain(cookies[i].domain);
        IndexAdd(grouped, cookies[..i], cookies[i]);
        assert cookies[..i] + [cookies[i]] == cookies[..i + 1];
        grouped := grouped[key := (if key in grouped then grouped[key] else []) + [cookies[i]]];
      }
      assert cookies[..|cookies|] == cookies;
      inner := grouped;
    }

    /** The groups are visited in any order; the count is that of the list. */
    method CookieCount(ghost cookies: seq<Cookie>) returns (n: nat)
      requires Indexes(inner, cookies)
      ensures n == |cookies|
    {
      n := 0;
      var todo := inner;
      ghost var rest := cookies;
      while todo != map[]
        invariant Indexes(todo, rest) && n + |rest| == |cookies|
        decreases |todo|
      {
        var key :| key in todo;
        IndexWithout(todo, rest, key);
        SplitOffGroup(rest, key);
        n := n + |todo[key]|;
        rest := Except(rest, key);
        todo := todo - {key};
      }
      EmptyIndex(rest);
    }

    /** The pairs sent are the list's matching pairs, as often as they occur there, and no others. */
    method Cookies(
      psl: Psl, url: Url, now: int, ghost cookies: seq<Cookie>) returns (header: Option<string>, pairs: seq<string>)
      requires Indexes(inner, cookies)
      ensures multiset(pairs) == multiset(Texts(Going(psl, cookies, url, now)))
      ensures header == HeaderOf(pairs)
    {
      SentExactly(psl, cookies, url, now);
      pairs := CollectPairs(psl, url, now, cookies);
      header := HeaderOf(pairs);
    }

    method CollectPairs(psl: Psl, url: Url, now: int, ghost cookies: seq<Cookie>) returns (pairs: seq<string>)
      requires Indexes(inner, cookies)
      ensures multiset(pairs) == multiset(Matching(psl, cookies, url, now))
    {
      pairs := [];
      var todo := inner;
      ghost var rest := cookies;
      while todo != map[]
        invariant StillToCome(psl, todo, rest, url, now, pairs, cookies)
        decreases |todo|
      {
        var key :| key in todo;
        var own := MatchingPairs(psl, todo[key], url, now);
        TakeGroup(psl, todo, rest, key, url, now, pairs, cookies);
        pairs := pairs + own;
        rest := Except(rest, key);
        todo := todo - {key};
      }
      EmptyIndex(rest);
    }
  }

  /** What has been collected and what the remaining groups will give make up the whole. */
  ghost predicate StillToCome(
    psl: Psl, todo: Groups, rest: seq<Cookie>, url: Url, now: int, pairs: seq<string>, cookies: seq<Cookie>)
  {
    && Indexes(todo, rest)
    && multiset(pairs) + multiset(Matching(psl, rest, url, now)) == multiset(Matching(psl, cookies, url, now))
  }

  lemma TakeGroup(
    psl: Psl, todo: Groups, rest: seq<Cookie>, key: string, url: Url, now: int, pairs: seq<string>,
    cookies: seq<Cookie>)
    requires StillToCome(psl, todo, rest, url, now, pairs, cookies) && key in todo
    ensures var taken := pairs + Matching(psl, todo[key], url, now);
            StillToCome(psl, todo - {key}, Except(rest, key), url, now, taken, cookies)
  {
    SplitOffMatching(psl, rest, key, url, now);
    IndexWithout(todo, rest, key);
    var own, others := Matching(psl, OfDomain(rest, key), url, now), Matching(psl, Except(rest, key), url, now);
    assert multiset(pairs + own) + multiset(others) == multiset(pairs) + (multiset(own) + multiset(others));
  }

  method MatchingPairs(psl: Psl, cookies: seq<Cookie>, url: Url, now: int) returns (pairs: seq<string>)
    ensures pairs == Matching(psl, cookies, url, now)
  {
    pairs := [];
    for i := 0 to |cookies|
      invariant pairs == Matching(psl, cookies[..i], url, now)
    {
      MatchingSnoc(psl, cookies[..i], cookies[i], url, now);
      assert cookies[..i] + [cookies[i]] == cookies[..i + 1];
      if CookieMatchesUrl(psl, cookies[i], url, now) {
        pairs := pairs + [cookies[i].name + "=" + cookies[i].value];
      }
    }
    assert cookies[..|cookies|] == cookies;
  }

  /** A list is determined by its index up to reordering: the groups hold each cookie as often as it did. */
  lemma {:induction false} IndexConserves(groups: Groups, a: seq<Cookie>, b: seq<Cookie>)
    requires Indexes(groups, a) && Indexes(groups, b)
    ensures multiset(a) == multiset(b)
    decreases |groups|
  {
    if groups == map[] {
      EmptyIndex(a);
      EmptyIndex(b);
    } else {
      var key :| key in groups;
      IndexWithout(groups, a, key);
      IndexWithout(groups, b, key);
      SplitOffGroup(a, key);
      SplitOffGroup(b, key);
      IndexConserves(groups - {key}, Except(a, key), Except(b, key));
    }
  }

  // ----- expiry -----------------------------------------------------------------------------------

  const HOURS_24 := 86_400_000_000_000
  const DAYS_7 := 604_800_000_000_000

  datatype ProfileStatus = Valid | ExpiringSoon | ExpiringCritical | PartiallyExpired | AllExpired

  predicate Expired(e: Option<int>, now: int) {
    e.Some? && e.value <= now
  }

  /** A cookie with an expiry time at most `within` away. */
  predicate Due(e: Option<int>, now: int, within: int) {
    e.Some? && e.value - now <= within
  }

  predicate AnyDue(expires: seq<Option<int>>, now: int, within: int) {
    exists i :: 0 <= i < |expires| && Due(expires[i], now, within)
  }

  /** The status as a statement about the list. */
  function StatusOf(expires: seq<Option<int>>, now: int): ProfileStatus {
    if expires != [] && forall i :: 0 <= i < |expires| ==> Expired(expires[i], now) then AllExpired
    else if AnyDue(expires, now, 0) then PartiallyExpired
    else if AnyDue(expires, now, HOURS_24) then ExpiringCritical
    else if AnyDue(expires, now, DAYS_7) then ExpiringSoon
    else Valid
  }

  method ClassifyStatus(expires: seq<Option<int>>, now: int) returns (status: ProfileStatus)
    ensures status == StatusOf(expires, now)
  {
    if expires == [] { return Valid; }
    var expiredCount := 0;
    for i := 0 to |expires|
      invariant 0 <= expiredCount <= i
      invariant expiredCount == i <==> forall k :: 0 <= k < i ==> Expired(expires[k], now)
      invariant expiredCount > 0 <==> exists k :: 0 <= k < i && Due(expires[k], now, 0)
    {
      if expires[i].Some? && expires[i].value <= now {
        assert Due(expires[i], now, 0);
        expiredCount := expiredCount + 1;
      }
    }
    if expiredCount == |expires| { return AllExpired; }
    if expiredCount > 0 { return PartiallyExpired; }
    var minRemaining: Option<int> := None;
    for i := 0 to |expires|
      invariant minRemaining.Some? <==> exists k :: 0 <= k < i && expires[k].Some?
      invariant minRemaining.Some? ==>
                exists k :: 0 <= k < i && expires[k].Some? && minRemaining.value == expires[k].value - now
      invariant minRemaining.Some? ==> forall k :: 0 <= k < i && expires[k].Some? ==>
                minRemaining.value <= expires[k].value - now
    {
      if expires[i].Some? {
        var remaining := expires[i].value - now;
        assert !Due(expires[i], now, 0);
        if remaining <= 0 { continue; }
        if !(minRemaining.Some? && minRemaining.value < remaining) {
          minRemaining := Some(remaining);
        }
      }
    }
    if minRemaining.Some? {
      var k :| 0 <= k < |expires| && expires[k].Some? && minRemaining.value == expires[k].value - now;
      assert minRemaining.value <= HOURS_24 ==> Due(expires[k], now, HOURS_24);
      assert minRemaining.value <= DAYS_7 ==> Due(expires[k], now, DAYS_7);
      if minRemaining.value <= HOURS_24 { return ExpiringCritical; }
      if minRemaining.value <= DAYS_7 { return ExpiringSoon; }
    }
    return Valid;
  }

  function Rank(s: ProfileStatus): nat {
    match s
    case Valid => 0
    case ExpiringSoon => 1
    case ExpiringCritical => 2
    case PartiallyExpired => 3
    case AllExpired => 4
  }

  lemma DueWidens(expires: seq<Option<int>>, now: int, within: int, wider: int)
    requires within <= wider && AnyDue(expires, now, within)
    ensures AnyDue(expires, now, wider)
  {}

  /** For a fixed list, the status never improves as the clock advances. */
  lemma StatusNeverImproves(expires: seq<Option<int>>, now: int, later: int)
    requires now <= later
    ensures Rank(StatusOf(expires, now)) <= Rank(StatusOf(expires, later))
  {}

  predicate EndsBy(e: Option<int>, t: int) {
    e.Some? && e.value <= t
  }

  predicate SomeEndsBy(expires: seq<Option<int>>, t: int) {
    exists i :: 0 <= i < |expires| && EndsBy(expires[i], t)
  }

  lemma AnyDueIff(expires: seq<Option<int>>, now: int, within: int)
    ensures AnyDue(expires, now, within) <==> SomeEndsBy(expires, now + within)
  {
    if i :| 0 <= i < |expires| && Due(expires[i], now, within) { assert EndsBy(expires[i], now + within); }
    if i :| 0 <= i < |expires| && EndsBy(expires[i], now + within) { assert Due(expires[i], now, within); }
  }

  /** Each status as the windows it stands for, worst first: the windows nest, so at most one applies. */
  lemma StatusMeaning(expires: seq<Option<int>>, now: int)
    ensures Rank(StatusOf(expires, now)) >= 1 <==> SomeEndsBy(expires, now + 7 * 24 * 3_600_000_000_000)
    ensures Rank(StatusOf(expires, now)) >= 2 <==> SomeEndsBy(expires, now + 24 * 3_600_000_000_000)
    ensures Rank(StatusOf(expires, now)) >= 3 <==> SomeEndsBy(expires, now)
    ensures Rank(StatusOf(expires, now)) >= 4 <==>
            expires != [] && forall i :: 0 <= i < |expires| ==> EndsBy(expires[i], now)
  {
    AnyDueIff(expires, now, 0);
    AnyDueIff(expires, now, HOURS_24);
    AnyDueIff(expires, now, DAYS_7);
    if AnyDue(expires, now, 0) { DueWidens(expires, now, 0, HOURS_24); }
    if AnyDue(expires, now, HOURS_24) { DueWidens(expires, now, HOURS_24, DAYS_7); }
    if StatusOf(expires, now) == AllExpired {
      assert Expired(expires[0], now);
      assert Due(expires[0], now, 0);
    }
    assert forall i :: 0 <= i < |expires| ==> (Expired(expires[i], now) <==> EndsBy(expires[i], now));
  }
}

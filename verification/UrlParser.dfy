/** `http_parser_url` of modules/src/http_parser.c and the rendering it inverts (section 3 of RFC 3986). */
module UrlParser {
  import opened CText
  import opened StringUtils

  const SCHEME_SIZE := 6
  const HOST_SIZE := 128
  const PORT_SIZE := 6
  const PATH_SIZE := 512

  datatype UrlParts = UrlParts(scheme: string, host: string, port: string, path: string)

  predicate SeparatorAt(s: string, i: int) {
    0 <= i && i + 2 < |s| && s[i] == ':' && s[i + 1] == '/' && s[i + 2] == '/'
  }

  /** `strstr(url, "://")` as an offset, -1 for NULL. */
  function SchemeEnd(s: string, from: nat): (r: int)
    ensures r == -1 || (from <= r && SeparatorAt(s, r))
    ensures forall j :: from <= j && (r == -1 || j < r) ==> !SeparatorAt(s, j)
    decreases |s| - from
  {
    if from + 2 >= |s| then -1
    else if SeparatorAt(s, from) then from
    else SchemeEnd(s, from + 1)
  }

  predicate AllDigits(s: string) { forall i :: 0 <= i < |s| ==> IsDigit(s[i]) }

  /** The port implied by the scheme, compared without regard to case. */
  function DefaultPort(scheme: string): Option<string> {
    if Lowered(scheme) == "https" then Some("443")
    else if Lowered(scheme) == "http" then Some("80")
    else None
  }

  /** What follows the separator: host, optional port, path. */
  function AuthorityOf(scheme: string, r: string): Option<UrlParts> {
    var slash := IndexOf(r, '/');
    var colon := IndexOf(r, ':');
    var hostLen := if colon < slash then colon else slash;
    if hostLen == 0 || hostLen >= HOST_SIZE then None
    else if colon < slash && (colon + 1 == slash || slash - colon - 1 >= PORT_SIZE) then None
    else if colon < slash && !AllDigits(r[colon + 1..slash]) then None
    else if |r| - slash >= PATH_SIZE then None
    else
      var path := if slash < |r| then r[slash..] else "/";
      var port := if colon < slash then Some(r[colon + 1..slash]) else DefaultPort(scheme);
      if port == None then None else Some(UrlParts(scheme, r[..hostLen], port.value, path))
  }

  /** The URL is a C string: it ends at its first NUL. */
  function UrlOf(url: string): Option<UrlParts> {
    var u := CStr(url);
    var e := SchemeEnd(u, 0);
    if e <= 0 || e >= SCHEME_SIZE then None
    else AuthorityOf(u[..e], u[e + 3..])
  }

  /** `http_parser_url`: the scheme. */
  method ParseUrl(url: string) returns (r: Option<UrlParts>)
    ensures r == UrlOf(url)
  {
    hide AuthorityOf;
    var u := CStr(url);
    var schemeEnd := SchemeEnd(u, 0);
    if schemeEnd < 0 { return None; }
    if schemeEnd == 0 || schemeEnd >= SCHEME_SIZE { return None; }
    r := ParseAuthority(u[..schemeEnd], u[schemeEnd + 3..]);
  }

  /** `http_parser_url`: host, port and path. */
  method ParseAuthority(scheme: string, rest: string) returns (r: Option<UrlParts>)
    requires |scheme| < SCHEME_SIZE
    ensures r == AuthorityOf(scheme, rest)
  {
    hide IndexOf, DefaultPort, AllDigits;
    var slash, colon := IndexOf(rest, '/'), IndexOf(rest, ':');
    var hostEnd := if colon < slash then colon else slash;
    if hostEnd == 0 || hostEnd >= HOST_SIZE { return None; }
    var port := None;
    if colon < slash {
      if colon + 1 == slash || slash - (colon + 1) >= PORT_SIZE { return None; }
      var digits := CheckDigits(rest[colon + 1..slash]);
      if !digits { return None; }
      port := Some(rest[colon + 1..slash]);
    }
    if |rest| - slash >= PATH_SIZE { return None; }
    var path := if slash < |rest| then rest[slash..] else "/";
    if port == None {
      port := ImpliedPort(scheme);
      if port == None { return None; }
    }
    return Some(UrlParts(scheme, rest[..hostEnd], port.value, path));
  }

  /** `http_parser_url`: the default port. */
  method ImpliedPort(scheme: string) returns (port: Option<string>)
    requires |scheme| < SCHEME_SIZE
    ensures port == DefaultPort(scheme)
  {
    var lower := LowerScheme(scheme);
    if lower == "https" { return Some("443"); }
    if lower == "http" { return Some("80"); }
    return None;
  }

  /** The port validation loop. */
  method CheckDigits(s: string) returns (ok: bool)
    ensures ok == AllDigits(s)
  {
    var i := 0;
    while i < |s|
      invariant 0 <= i <= |s|
      invariant forall k :: 0 <= k < i ==> IsDigit(s[k])
    {
      if !IsDigit(s[i]) { return false; }
      i := i + 1;
    }
    return true;
  }

  /** The lower-casing loop. */
  method LowerScheme(scheme: string) returns (lower: string)
    requires |scheme| < SCHEME_SIZE
    ensures lower == Lowered(scheme)
  {
    lower := "";
    var i := 0;
    while i < |scheme| && i < 5
      invariant 0 <= i <= |scheme| && lower == Lowered(scheme)[..i]
    {
      lower := lower + [ToLower(scheme[i])];
      i := i + 1;
    }
  }

  // ---------------------------------------------------------------------------------------
  // Rendering

  function PortText(port: Option<string>): string {
    match port case None => "" case Some(p) => ":" + p
  }

  function UrlText(scheme: string, host: string, port: Option<string>, path: string): string {
    scheme + "://" + (host + PortText(port) + path)
  }

  /** Parts within their field sizes, with a port given or implied. */
  predicate GoodUrl(scheme: string, host: string, port: Option<string>, path: string) {
    && 1 <= |scheme| <= 5 && (forall i :: 0 <= i < |scheme| ==> !SeparatorAt(scheme, i))
    && 1 <= |host| <= 127 && ':' !in host && '/' !in host
    && (if port.Some? then 1 <= |port.value| <= 5 && DecimalDigits(port.value) else DefaultPort(scheme).Some?)
    && |path| <= 511 && (path != "" ==> path[0] == '/')
    && '\0' !in scheme && '\0' !in host && '\0' !in path
  }

  function PartsOf(scheme: string, host: string, port: Option<string>, path: string): UrlParts
    requires GoodUrl(scheme, host, port, path)
  {
    UrlParts(scheme, host,
             if port.Some? then port.value else DefaultPort(scheme).value,
             if path == "" then "/" else path)
  }

  /** 443 for "https" and 80 for "http" in any mixture of cases, and nothing else. */
  lemma DefaultPortExactly(scheme: string)
    ensures DefaultPort(scheme) ==
            if |scheme| == 5 && scheme[0] in "hH" && scheme[1] in "tT" && scheme[2] in "tT" && scheme[3] in "pP"
               && scheme[4] in "sS"
            then Some("443")
            else if |scheme| == 4 && scheme[0] in "hH" && scheme[1] in "tT" && scheme[2] in "tT" && scheme[3] in "pP"
            then Some("80")
            else None
  {
    hide ToLower;
    var low := Lowered(scheme);
    LowerCase('h', 'H');
    LowerCase('t', 'T');
    LowerCase('p', 'P');
    LowerCase('s', 'S');
    if |scheme| == 5 {
      assert low == [low[0], low[1], low[2], low[3], low[4]];
    } else if |scheme| == 4 {
      assert low == [low[0], low[1], low[2], low[3]];
    }
  }

  lemma LowerCase(small: char, big: char)
    requires 'a' <= small <= 'z' && big as int == small as int - 32
    ensures forall c: char :: ToLower(c) == small <==> c == small || c == big
  {}

  lemma SchemeFound(scheme: string, rest: string)
    requires forall i :: 0 <= i < |scheme| ==> !SeparatorAt(scheme, i)
    ensures SchemeEnd(scheme + "://" + rest, 0) == |scheme|
  {
    var s := scheme + "://" + rest;
    assert SeparatorAt(s, |scheme|);
    forall j | 0 <= j < |scheme| ensures !SeparatorAt(s, j) {
      assert !SeparatorAt(scheme, j);
    }
  }

  lemma DigitsHaveNo(p: string, c: char)
    requires DecimalDigits(p) && c !in "0123456789"
    ensures c !in p
  {}

  lemma DigitsAreDigits(p: string)
    ensures AllDigits(p) <==> DecimalDigits(p)
  {
    assert forall c <- p :: exists i :: 0 <= i < |p| && p[i] == c;
    assert forall i :: 0 <= i < |p| ==> p[i] in p;
    forall c: char ensures IsDigit(c) <==> c in "0123456789" {}
  }

  /** The first `c` of a text whose second part begins with it, or is empty. */
  lemma FirstOf(front: string, c: char, rest: string)
    requires c !in front && (rest != "" ==> rest[0] == c)
    ensures IndexOf(front + rest, c) == |front|
  {
    assert (front + rest)[..|front|] == front;
    IndexOfIs(front + rest, c, |front|);
  }

  lemma IndexOfBeyond(front: string, c: char, rest: string)
    requires c !in front
    ensures IndexOf(front + rest, c) >= |front|
  {}

  /** Where the slash and the colon of a rendered authority are. */
  lemma AuthorityMarks(host: string, port: Option<string>, path: string)
    requires ':' !in host && '/' !in host && (port.Some? ==> DecimalDigits(port.value))
    requires path != "" ==> path[0] == '/'
    ensures var r := host + PortText(port) + path;
            IndexOf(r, '/') == |host| + |PortText(port)|
            && (port.Some? ==> IndexOf(r, ':') == |host|)
            && (port.None? ==> IndexOf(r, ':') >= |host|)
  {
    hide IndexOf, AllDigits;
    var front := host + PortText(port);
    if port.Some? {
      DigitsHaveNo(port.value, '/');
      assert front + path == host + [':'] + (port.value + path);
      IndexOfAfter(host, ':', port.value + path);
    } else {
      assert front == host;
      IndexOfBeyond(host, ':', path);
    }
    assert '/' !in front;
    FirstOf(front, '/', path);
  }

  /** Every rendered URL is taken apart again; only the default port and the path "/" are filled in. */
  lemma UrlRoundTrip(scheme: string, host: string, port: Option<string>, path: string)
    requires GoodUrl(scheme, host, port, path)
    ensures UrlOf(UrlText(scheme, host, port, path)) == Some(PartsOf(scheme, host, port, path))
  {
    hide IndexOf, SchemeEnd, Lowered;
    var r := host + PortText(port) + path;
    var url := UrlText(scheme, host, port, path);
    TextHasNoNul(scheme, host, port, path);
    CStrId(url);
    SchemeFound(scheme, r);
    assert url[..|scheme|] == scheme && url[|scheme| + 3..] == r;
    AuthorityMarks(host, port, path);
    AuthorityRead(scheme, host, port, path);
  }

  lemma TextHasNoNul(scheme: string, host: string, port: Option<string>, path: string)
    requires GoodUrl(scheme, host, port, path)
    ensures '\0' !in UrlText(scheme, host, port, path)
  {
    hide DefaultPort, SeparatorAt;
    if port.Some? {
      DigitsHaveNo(port.value, '\0');
    }
    assert '\0' !in PortText(port);
    assert '\0' !in host + PortText(port) + path;
  }

  lemma AuthorityRead(scheme: string, host: string, port: Option<string>, path: string)
    requires GoodUrl(scheme, host, port, path)
    ensures AuthorityOf(scheme, host + PortText(port) + path) == Some(PartsOf(scheme, host, port, path))
  {
    hide IndexOf, DefaultPort, SeparatorAt, AllDigits, DecimalDigits;
    if port.Some? {
      DigitsAreDigits(port.value);
    }
    var r := host + PortText(port) + path;
    var slash := |host| + |PortText(port)|;
    AuthorityMarks(host, port, path);
    assert r[..|host|] == host && r[slash..] == path;
    assert port.Some? ==> r[|host| + 1..slash] == port.value;
  }

  /** And every URL that is accepted is such a rendering: parsing accepts nothing else. */
  lemma UrlReassembles(url: string) returns (port: Option<string>, path: string)
    requires UrlOf(url).Some?
    ensures var u := UrlOf(url).value;
            GoodUrl(u.scheme, u.host, port, path) && CStr(url) == UrlText(u.scheme, u.host, port, path)
            && u == PartsOf(u.scheme, u.host, port, path)
  {
    hide IndexOf, DefaultPort;
    var text := CStr(url);
    var e := SchemeEnd(text, 0);
    var scheme, r := text[..e], text[e + 3..];
    SchemeCut(text, e);
    assert '\0' !in scheme && '\0' !in r;
    hide SchemeEnd, SeparatorAt, AuthorityOf, GoodUrl;
    port, path := AuthorityReassembles(scheme, r);
  }

  lemma SchemeCut(url: string, e: nat)
    requires SeparatorAt(url, e) && (forall j :: 0 <= j < e ==> !SeparatorAt(url, j))
    ensures url == url[..e] + "://" + url[e + 3..]
    ensures forall i :: 0 <= i < e ==> !SeparatorAt(url[..e], i)
  {
    forall i | 0 <= i < e ensures !SeparatorAt(url[..e], i) {
      assert !SeparatorAt(url, i);
    }
  }

  lemma AuthorityReassembles(scheme: string, r: string) returns (port: Option<string>, path: string)
    requires 0 < |scheme| < SCHEME_SIZE && (forall i :: 0 <= i < |scheme| ==> !SeparatorAt(scheme, i))
    requires AuthorityOf(scheme, r).Some? && '\0' !in scheme && '\0' !in r
    ensures var u := AuthorityOf(scheme, r).value;
            u.scheme == scheme && GoodUrl(scheme, u.host, port, path) && r == u.host + PortText(port) + path
            && u == PartsOf(scheme, u.host, port, path)
  {
    hide IndexOf, DefaultPort, SeparatorAt, AllDigits, DecimalDigits;
    var slash, colon := IndexOf(r, '/'), IndexOf(r, ':');
    path := r[slash..];
    if colon < slash {
      DigitsAreDigits(r[colon + 1..slash]);
      port := Some(r[colon + 1..slash]);
      CutThree(r, colon, slash);
    } else {
      port := None;
      CutTwo(r, slash, colon);
    }
  }

  lemma CutThree(r: string, colon: nat, slash: nat)
    requires colon < slash <= |r| && ':' !in r[..colon] && '/' !in r[..slash]
    requires r[colon] == ':' && (slash < |r| ==> r[slash] == '/')
    ensures '/' !in r[..colon]
    ensures r == r[..colon] + (":" + r[colon + 1..slash]) + r[slash..]
    ensures r[slash..] != "" ==> r[slash..][0] == '/'
  {}

  lemma CutTwo(r: string, slash: nat, colon: nat)
    requires slash <= colon <= |r| && ':' !in r[..colon] && '/' !in r[..slash]
    requires slash < |r| ==> r[slash] == '/'
    ensures ':' !in r[..slash]
    ensures r == r[..slash] + "" + r[slash..]
    ensures r[slash..] != "" ==> r[slash..][0] == '/'
  {}
}

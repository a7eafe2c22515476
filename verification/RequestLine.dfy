/** The request as the client builds it (modules/src/http_client.c) and the first-line parser of
    modules/src/http_parser.c that reads it back (section 3 of RFC 9112). */
module RequestLine {
  import opened CText
  import opened StringUtils
  import opened Scanners
  import opened LinkedLists
  import opened HeaderParser

  datatype Method = Options | Get | Post | Put | Delete | Download | Invalid

  /** `http_method_string_to_enum` */
  function MethodOf(s: string): Method {
    if s == "GET" then Get
    else if s == "OPTIONS" then Options
    else if s == "POST" then Post
    else if s == "PUT" then Put
    else if s == "DELETE" then Delete
    else if s == "DOWNLOAD" then Download
    else Invalid
  }

  /** What the parser stores; `params` is None when the target has no '?'. */
  datatype Request = Request(verb: Method, path: string, version: string, params: Option<seq<KeyValue>>)

  /** The query loop: pairs up to the first piece without '='. */
  function ParamsOf(s: string): seq<KeyValue> {
    var d := IndexOf(s, '=');
    if d == |s| then []
    else
      var v := s[d + 1..];
      var a := IndexOf(v, '&');
      [KeyValue(s[..d], v[..a])] + (if a < |v| then ParamsOf(v[a + 1..]) else [])
  }

  function RequestOf(line: string): Option<Request> {
    var l := CStr(line);
    var first := IndexOf(l, ' ');
    if first == |l| then None
    else
      var r := l[first + 1..];
      var second := IndexOf(r, ' ');
      if second == |r| || second + 1 == |r| then None
      else Some(TargetOf(l[..first], r[..second], r[second + 1..]))
  }

  function TargetOf(name: string, target: string, version: string): Request {
    var q := IndexOf(target, '?');
    Request(MethodOf(name), target[..q], version, if q < |target| then Some(ParamsOf(target[q + 1..])) else None)
  }

  /** One turn of the query loop. */
  lemma ParamsStep(s: string)
    ensures var d := IndexOf(s, '=');
            if d == |s| then ParamsOf(s) == []
            else var v := s[d + 1..]; var a := IndexOf(v, '&');
                 ParamsOf(s) == [KeyValue(s[..d], v[..a])] + (if a < |v| then ParamsOf(v[a + 1..]) else [])
  {}

  lemma AppendAssoc(a: seq<KeyValue>, p: KeyValue, b: seq<KeyValue>)
    ensures a + ([p] + b) == a + [p] + b
  {}

  /** What `param_str` still has to give; None is the NULL that ends the loop. */
  function Pending(paramStr: Option<string>): seq<KeyValue> {
    match paramStr case None => [] case Some(s) => ParamsOf(s)
  }

  /** The body of the query loop. */
  method NextPair(s: string) returns (pair: KeyValue, paramStr: Option<string>)
    requires '=' in s
    ensures ParamsOf(s) == [pair] + Pending(paramStr)
    ensures paramStr.Some? ==> |paramStr.value| < |s|
  {
    hide IndexOf;
    var delim := IndexOf(s, '=');
    assert delim < |s| by { assert s[..|s|] == s; }
    var value := s[delim + 1..];
    var amp := IndexOf(value, '&');
    pair := KeyValue(s[..delim], value[..amp]);
    paramStr := if amp < |value| then Some(value[amp + 1..]) else None;
  }

  /** The query loop, filling the parameter list. */
  method ParseParams(query: string) returns (list: LinkedList<KeyValue>)
    ensures fresh(list) && fresh(list.nodes) && list.Valid() && list.Items() == ParamsOf(query)
  {
    hide Pending, ParamsOf;
    list := new LinkedList<KeyValue>();
    var paramStr := Some(query);
    PendingEnds(query);
    while paramStr.Some? && '=' in paramStr.value
      invariant fresh(list) && fresh(list.nodes) && list.Valid()
      invariant ParamsOf(query) == list.Items() + Pending(paramStr)
      decreases if paramStr.Some? then 1 + |paramStr.value| else 0
    {
      PendingEnds(paramStr.value);
      var pair, next := NextPair(paramStr.value);
      AppendAssoc(list.Items(), pair, Pending(next));
      var _ := list.ItemAdd(pair);
      paramStr := next;
    }
    PendingEnds(if paramStr.Some? then paramStr.value else "");
    assert list.Items() + [] == list.Items();
  }

  lemma PendingEnds(s: string)
    ensures Pending(None) == [] && Pending(Some(s)) == ParamsOf(s) && [] + ParamsOf(s) == ParamsOf(s)
    ensures '=' !in s ==> ParamsOf(s) == []
  {}

  /** `http_parser_first_line`; None stands for its error codes. The parameters come as a list. */
  method ParseFirstLine(line: string) returns (r: Option<Request>, params: LinkedList?<KeyValue>)
    ensures r == RequestOf(line)
    ensures params != null <==> r.Some? && r.value.params.Some?
    ensures params != null ==> params.Valid() && r.value.params == Some(params.Items())
  {
    hide ParamsOf, IndexOf, MethodOf;
    params := null;
    var l := CStr(line);
    var first := IndexOf(l, ' ');
    if first == |l| { return None, null; }
    var rest := l[first + 1..];
    var second := IndexOf(rest, ' ');
    if second == |rest| { return None, null; }
    var target, version := rest[..second], rest[second + 1..];
    if version == "" { return None, null; }
    var q := IndexOf(target, '?');

    if q < |target| {
      params := ParseParams(target[q + 1..]);

      r := Some(Request(MethodOf(l[..first]), target[..q], version, Some(ParamsOf(target[q + 1..]))));
    } else {
      r := Some(Request(MethodOf(l[..first]), target[..q], version, None));
    }
  }

  // ---------------------------------------------------------------------------------------
  // Building

  /** The method text of `http_client_worktask_build_request`: anything else is sent as GET. */
  function MethodText(m: Method): string {
    match m case Post => "POST" case Put => "PUT" case Delete => "DELETE" case _ => "GET"
  }

  function StartLine(m: Method, target: string): string { MethodText(m) + " " + target + " HTTP/1.1" }

  function CommonFields(host: string): string {
    "Host: " + host + CRLF + "User-Agent: httpclient\r\n" + "Connection: close\r\n"
  }

  function BodyFields(n: nat): string {
    "Content-Length: " + Decimal(n) + CRLF + "Content-Type: application/octet-stream\r\n"
  }

  predicate DescribesBody(m: Method, body: string) { body != "" && (m == Post || m == Put) }

  function EffectivePath(path: string): string { if path == "" then "/" else path }

  function RequestFields(m: Method, host: string, body: string): string {
    CommonFields(host) + (if DescribesBody(m, body) then BodyFields(|body|) else "") + CRLF
  }

  /** What is printed into the buffer. */
  function RequestHead(m: Method, host: string, path: string, body: string): string {
    StartLine(m, EffectivePath(path)) + CRLF + RequestFields(m, host, body)
  }

  lemma HeadThenBody(m: Method, host: string, path: string, body: string)
    ensures RequestHead(m, host, path, body) + body == RequestText(m, host, path, body)
  {
    hide StartLine, RequestFields, EffectivePath;
  }

  /** The text printed in front of the body, and the body. */
  function RequestText(m: Method, host: string, path: string, body: string): string {
    StartLine(m, EffectivePath(path)) + CRLF + (RequestFields(m, host, body) + body)
  }

  /** `max_len`, the size of the allocated request buffer. */
  function Capacity(host: string, path: string, body: string): nat {
    |host| + |EffectivePath(path)| + 256 + (if body != "" then 128 else 0) + |body|
  }

  /** The request always fits its buffer: nothing is truncated, the error branch is never taken. */
  lemma RequestFits(m: Method, host: string, path: string, body: string)
    requires |body| <= INT_MAX
    ensures |RequestText(m, host, path, body)| < Capacity(host, path, body)
  {
    IntHasTenDigits(|body|);
    assert |BodyFields(|body|)| == 58 + |Decimal(|body|)|;
    assert |CommonFields(host)| == 51 + |host|;
    assert |StartLine(m, EffectivePath(path))| <= 16 + |EffectivePath(path)|;
  }

  function QueryText(ps: seq<KeyValue>): string
    requires ps != []
  {
    ps[0].key + "=" + ps[0].value + if |ps| == 1 then "" else "&" + QueryText(ps[1..])
  }

  predicate GoodParams(ps: seq<KeyValue>) {
    ps != [] && forall p <- ps :: '=' !in p.key && '&' !in p.value
  }

  /** One rendered pair in front of the rest of a query. */
  lemma OnePair(key: string, value: string, tail: string)
    requires '=' !in key && '&' !in value && (tail == "" || tail[0] == '&')
    ensures ParamsOf(key + "=" + (value + tail)) ==
            [KeyValue(key, value)] + (if tail == "" then [] else ParamsOf(tail[1..]))
  {
    hide ParamsOf, IndexOf;
    var v := value + tail;
    var s := key + "=" + v;
    IndexOfAfter(key, '=', v);
    assert s[..|key|] == key && s[|key| + 1..] == v;
    assert v[..|value|] == value;
    IndexOfIs(v, '&', |value|);
    assert tail != "" ==> v[|value| + 1..] == tail[1..];
    ParamsStep(s);
  }

  /** A query is read back pair by pair, in order. */
  lemma {:induction false} QueryRoundTrip(ps: seq<KeyValue>)
    requires GoodParams(ps)
    ensures ParamsOf(QueryText(ps)) == ps
  {
    hide ParamsOf;
    assert ps[0] in ps;
    var tail := if |ps| == 1 then "" else "&" + QueryText(ps[1..]);
    QueryCons(ps, tail);
    OnePair(ps[0].key, ps[0].value, tail);
    assert ps == [ps[0]] + ps[1..];
    if |ps| > 1 {
      QueryRoundTrip(ps[1..]);
      assert tail[1..] == QueryText(ps[1..]);
    }
  }

  /** What is behind the last pair, if anything: a piece without '=' that is not looked at. */
  function Ignored(tail: Option<string>): string { match tail case None => "" case Some(t) => "&" + t }

  /** Every query is pairs in this form and, if it does not end with a value, a last piece that is ignored. */
  lemma {:induction false} QueryReassembles(s: string) returns (tail: Option<string>)
    requires '=' in s
    ensures GoodParams(ParamsOf(s)) && s == QueryText(ParamsOf(s)) + Ignored(tail)
    ensures tail.Some? ==> '=' !in tail.value
    decreases |s|
  {
    hide ParamsOf, QueryText;
    var key, value, more := TakePair(s);
    if more == None {
      tail := None;
      OneParam([KeyValue(key, value)]);
    } else if '=' in more.value {
      tail := QueryReassembles(more.value);
      var ps := ParamsOf(more.value);
      MoreParams(KeyValue(key, value), ps);
      Regroup(key + "=" + value + "&", QueryText(ps), Ignored(tail));
      Regroup(key + "=" + value, "&", more.value);
    } else {
      tail := more;
      PendingEnds(more.value);
      OneParam([KeyValue(key, value)]);
    }
  }

  /** The first pair of a query and what is behind it. */
  lemma TakePair(s: string) returns (key: string, value: string, more: Option<string>)
    requires '=' in s
    ensures '=' !in key && '&' !in value && s == key + "=" + value + Ignored(more)
    ensures ParamsOf(s) == [KeyValue(key, value)] + Pending(more)
    ensures more.Some? ==> |more.value| < |s|
  {
    hide ParamsOf, IndexOf, Ignored;
    ParamsStep(s);
    var d := IndexOf(s, '=');
    assert d < |s| by { assert s[..|s|] == s; }
    var v := s[d + 1..];
    var a := IndexOf(v, '&');
    key, value := s[..d], v[..a];
    more := if a < |v| then Some(v[a + 1..]) else None;
    CutAtMark(s, d, "=");
    CutAtAmpersand(v, a, more);
    Regroup(key + "=", value, Ignored(more));
  }

  lemma CutAtMark(s: string, i: nat, mark: string)
    requires i < |s| && mark == [s[i]]
    ensures s == s[..i] + mark + s[i + 1..]
  {}

  lemma CutAtAmpersand(v: string, a: nat, more: Option<string>)
    requires a <= |v| && (a < |v| ==> v[a] == '&') && more == if a < |v| then Some(v[a + 1..]) else None
    ensures v == v[..a] + Ignored(more)
  {
    if a < |v| {
      CutAtMark(v, a, "&");
      Regroup(v[..a], "&", v[a + 1..]);
    } else {
      assert v[..a] + "" == v;
    }
  }

  lemma OneParam(ps: seq<KeyValue>)
    requires |ps| == 1 && '=' !in ps[0].key && '&' !in ps[0].value
    ensures GoodParams(ps) && QueryText(ps) == ps[0].key + "=" + ps[0].value && ps + [] == ps
  {
    assert ps[0].key + "=" + ps[0].value + "" == ps[0].key + "=" + ps[0].value;
  }

  lemma MoreParams(p: KeyValue, ps: seq<KeyValue>)
    requires GoodParams(ps) && '=' !in p.key && '&' !in p.value
    ensures GoodParams([p] + ps)
    ensures QueryText([p] + ps) == p.key + "=" + p.value + "&" + QueryText(ps)
  {
    assert ([p] + ps)[1..] == ps;
  }

  lemma Regroup(a: string, b: string, c: string)
    ensures a + (b + c) == a + b + c
  {}

  lemma QueryCons(ps: seq<KeyValue>, tail: string)
    requires ps != [] && tail == if |ps| == 1 then "" else "&" + QueryText(ps[1..])
    ensures QueryText(ps) == ps[0].key + "=" + (ps[0].value + tail)
  {}

  /** A line with two spaces is split there; the version is everything behind them. */
  lemma LineSplit(name: string, target: string, version: string)
    requires ' ' !in name && ' ' !in target && version != ""
    requires '\0' !in name && '\0' !in target && '\0' !in version
    ensures RequestOf(name + " " + (target + " " + version)) == Some(TargetOf(name, target, version))
  {
    hide TargetOf, IndexOf;
    var r := target + [' '] + version;
    var l := name + [' '] + r;
    CStrId(l);
    IndexOfAfter(name, ' ', r);
    assert l[..|name|] == name && l[|name| + 1..] == r;
    IndexOfAfter(target, ' ', version);
    assert r[..|target|] == target && r[|target| + 1..] == version;
  }

  /** And every line that is accepted is, up to its first NUL, such a line. */
  lemma RequestReassembles(line: string) returns (name: string, target: string)
    requires RequestOf(line).Some?
    ensures var r := RequestOf(line).value;
            && CStr(line) == name + " " + (target + " " + r.version)
            && ' ' !in name && ' ' !in target && r.version != "" && r == TargetOf(name, target, r.version)
  {
    hide TargetOf, IndexOf, CStr;
    var l := CStr(line);
    var first := IndexOf(l, ' ');
    var rest := l[first + 1..];
    var second := IndexOf(rest, ' ');
    name, target := l[..first], rest[..second];
    assert l == name + [' '] + rest;
    assert rest == target + [' '] + rest[second + 1..];
    assert RequestOf(line) == Some(TargetOf(name, target, rest[second + 1..]));
    TargetVersion(name, target, rest[second + 1..]);
  }

  lemma TargetVersion(name: string, target: string, version: string)
    ensures TargetOf(name, target, version).version == version
  {}

  /** The six method names; every other text, in whatever case, is Invalid. */
  const METHOD_NAMES := [("GET", Get), ("POST", Post), ("PUT", Put), ("DELETE", Delete), ("OPTIONS", Options),
                         ("DOWNLOAD", Download)]

  lemma MethodExactly(s: string, m: Method)
    requires m != Invalid
    ensures MethodOf(s) == m <==> exists i :: 0 <= i < 6 && METHOD_NAMES[i] == (s, m)
  {
    var names := METHOD_NAMES;
    assert names[0] == ("GET", Get) && names[1] == ("POST", Post) && names[2] == ("PUT", Put);
    assert names[3] == ("DELETE", Delete) && names[4] == ("OPTIONS", Options) && names[5] == ("DOWNLOAD", Download);
  }

  lemma StartLineSplit(m: Method, target: string)
    requires ' ' !in target && '\0' !in target
    ensures RequestOf(StartLine(m, target)) == Some(TargetOf(MethodText(m), target, "HTTP/1.1"))
  {
    hide RequestOf, TargetOf;
    var name := MethodText(m);
    assert ' ' !in name && '\0' !in name;
    assert StartLine(m, target) == name + " " + (target + " " + "HTTP/1.1");
    LineSplit(name, target, "HTTP/1.1");
  }

  lemma StartLineEnds(m: Method, target: string, rest: string)
    requires NoCrlf(target)
    ensures LineEnd(StartLine(m, target) + CRLF + rest) == |StartLine(m, target)|
  {
    var l, n := StartLine(m, target), |MethodText(m)| + 1;
    forall i | 0 <= i < |l| ensures !CrlfAt(l, i) {
      if n <= i < n + |target| {
        assert l[i] == target[i - n];
        assert !CrlfAt(target, i - n);
      } else {
        assert l[i] != '\r';
      }
    }
    LineEndAfter(l, rest);
  }

  /** The first line of the built request, as a receiver delimits it, is the start line. */
  lemma FirstLineOfRequest(m: Method, host: string, path: string, body: string)
    requires NoCrlf(path)
    ensures var text := RequestText(m, host, path, body);
            var start := StartLine(m, EffectivePath(path));
            LineEnd(text) == |start| && text[..|start|] == start
            && text[|start| + 2..] == RequestFields(m, host, body) + body
  {
    hide StartLine, RequestFields;
    var start, rest := StartLine(m, EffectivePath(path)), RequestFields(m, host, body) + body;
    StartLineEnds(m, EffectivePath(path), rest);
    assert (start + CRLF + rest)[..|start|] == start && (start + CRLF + rest)[|start| + 2..] == rest;
  }

  /** The method as sent: everything but POST, PUT and DELETE goes out as GET. */
  function Sendable(m: Method): Method { if m in {Post, Put, Delete} then m else Get }

  lemma MethodRoundTrip(m: Method)
    ensures MethodOf(MethodText(m)) == Sendable(m)
  {}

  /** Request round trip: the first line of what the client builds parses back to the method as sent, the path and
      the ordered parameters. */
  lemma RequestRoundTrip(m: Method, host: string, path: string, ps: seq<KeyValue>, body: string)
    requires '?' !in path && GoodParams(ps)
    requires var target := path + "?" + QueryText(ps); ' ' !in target && '\0' !in target && NoCrlf(target)
    ensures var text := RequestText(m, host, path + "?" + QueryText(ps), body);
            LineEnd(text) >= 0
            && RequestOf(text[..LineEnd(text)]) == Some(Request(Sendable(m), path, "HTTP/1.1", Some(ps)))
  {
    hide RequestText, RequestOf, QueryText, ParamsOf, MethodOf, MethodText;
    MethodRoundTrip(m);
    var target := path + "?" + QueryText(ps);
    FirstLineOfRequest(m, host, target, body);
    StartLineSplit(m, target);
    assert target == path + ['?'] + QueryText(ps);
    IndexOfAfter(path, '?', QueryText(ps));
    assert target[..|path|] == path && target[|path| + 1..] == QueryText(ps);
    QueryRoundTrip(ps);
  }

  /** Without a query the whole target is the path; an empty one is sent as "/". */
  lemma PlainRequestRoundTrip(m: Method, host: string, path: string, body: string)
    requires '?' !in path && ' ' !in path && '\0' !in path && NoCrlf(path)
    ensures var text := RequestText(m, host, path, body);
            LineEnd(text) >= 0
            && RequestOf(text[..LineEnd(text)])
               == Some(Request(Sendable(m), if path == "" then "/" else path, "HTTP/1.1", None))
  {
    hide RequestText, RequestOf, MethodOf, MethodText;
    var target := EffectivePath(path);
    FirstLineOfRequest(m, host, path, body);
    StartLineSplit(m, target);
    MethodRoundTrip(m);
    assert target[..|target|] == target;
    IndexOfIs(target, '?', |target|);
  }

  // ---------------------------------------------------------------------------------------
  // The whole request, as a receiver takes it apart

  function SentField(key: string, value: string): RawField { RawField(key, "", " ", value, "") }

  /** The header fields of a request with a body of `n` bytes. */
  function Sent(m: Method, host: string, n: nat): seq<RawField> {
    var common := [SentField("Host", host), SentField("User-Agent", "httpclient"), SentField("Connection", "close")];
    if n > 0 && m in {Post, Put}
    then common + [SentField("Content-Length", Decimal(n)), SentField("Content-Type", "application/octet-stream")]
    else common
  }

  lemma SentText(key: string, value: string)
    ensures SentField(key, value).Text() == key + ": " + value
  {
    assert key + "" + ":" + (" " + value + "") == key + ": " + value;
  }

  lemma CommonAreSent(host: string, fs: seq<RawField>)
    requires |fs| == 3 && fs[0] == SentField("Host", host)
    requires fs[1] == SentField("User-Agent", "httpclient") && fs[2] == SentField("Connection", "close")
    ensures Lines(Texts(fs)) == CommonFields(host)
  {
    hide Texts, SentField, RawField.Text;
    SentText("Host", host);
    SentText("User-Agent", "httpclient");
    SentText("Connection", "close");
    ThreeLines(Texts(fs));
    assert "User-Agent: httpclient" == "User-Agent" + ": " + "httpclient";
    assert "Connection: close" == "Connection" + ": " + "close";
    assert "Host: " + host == "Host" + ": " + host;
  }

  lemma ThreeLines(ls: seq<string>)
    requires |ls| == 3
    ensures Lines(ls) == ls[0] + CRLF + (ls[1] + CRLF) + (ls[2] + CRLF)
  {
    TwoLines(ls[1..]);
    Regroup(ls[0] + CRLF, ls[1] + CRLF, ls[2] + CRLF);
  }

  lemma TwoLines(ls: seq<string>)
    requires |ls| == 2
    ensures Lines(ls) == ls[0] + CRLF + (ls[1] + CRLF)
  {
    assert Lines(ls[1..]) == ls[1] + CRLF + Lines(ls[1..][1..]);
    assert ls[1] + CRLF + "" == ls[1] + CRLF;
  }

  lemma {:induction false} LinesAppend(a: seq<string>, b: seq<string>)
    ensures Lines(a + b) == Lines(a) + Lines(b)
  {
    if a == [] {
      assert a + b == b && "" + Lines(b) == Lines(b);
    } else {
      assert (a + b)[1..] == a[1..] + b;
      LinesAppend(a[1..], b);
      Regroup(a[0] + CRLF, Lines(a[1..]), Lines(b));
    }
  }

  lemma LengthAndType(n: nat, fs: seq<RawField>)
    requires |fs| == 2 && fs[0] == SentField("Content-Length", Decimal(n))
    requires fs[1] == SentField("Content-Type", "application/octet-stream")
    ensures Lines(Texts(fs)) == BodyFields(n)
  {
    hide Texts, SentField, RawField.Text, Decimal;
    SentText("Content-Length", Decimal(n));
    SentText("Content-Type", "application/octet-stream");
    TwoLines(Texts(fs));
    assert "Content-Length: " + Decimal(n) == "Content-Length" + ": " + Decimal(n);
    assert "Content-Type: application/octet-stream" == "Content-Type: " + "application/octet-stream";
    assert "Content-Type" + ": " == "Content-Type: ";
    assert "Content-Type: application/octet-stream" + CRLF == "Content-Type: application/octet-stream\r\n";
  }

  /** What is printed behind the start line is exactly this header section. */
  lemma FieldsAreSent(m: Method, host: string, body: string)
    ensures RequestFields(m, host, body) == Block(Sent(m, host, |body|))
  {
    hide Texts, SentField, Lines, CommonFields, BodyFields, Decimal;
    var fs := Sent(m, host, |body|);
    CommonAreSent(host, fs[..3]);
    if |body| > 0 && m in {Post, Put} {
      LengthAndType(|body|, fs[3..]);
    } else {
      assert fs[..3] == fs && CommonFields(host) + "" == CommonFields(host);
    }
    TextsAppend(fs[..3], fs[3..]);
    assert fs[..3] + fs[3..] == fs;
    LinesAppend(Texts(fs[..3]), Texts(fs[3..]));
  }

  lemma TextsAppend(a: seq<RawField>, b: seq<RawField>)
    ensures Texts(a + b) == Texts(a) + Texts(b)
  {}

  lemma {:induction false} DigitsAreClean(n: nat)
    ensures Clean(Decimal(n)) && NoBlankInFront(Decimal(n)) && NoTrimmingsBehind(Decimal(n))
  {
    var s := Decimal(n);
    assert s[0] in s && s[|s| - 1] in s;
  }

  lemma SentIsGood(key: string, value: string)
    requires Clean(key) && ':' !in key && NoTrimmingsBehind(key)
    requires Clean(value) && NoBlankInFront(value) && NoTrimmingsBehind(value)
    ensures GoodField(SentField(key, value))
  {}

  lemma TypeIsGood()
    ensures GoodField(SentField("Content-Type", "application/octet-stream"))
  {
    hide GoodField, SentField;
    SentIsGood("Content-Type", "application/octet-stream");
  }

  lemma ConstantsAreGood()
    ensures GoodField(SentField("User-Agent", "httpclient")) && GoodField(SentField("Connection", "close"))
    ensures Clean("Host") && Clean("Content-Length")
  {
    hide GoodField, SentField;
    SentIsGood("User-Agent", "httpclient");
    SentIsGood("Connection", "close");
  }

  lemma SentAreGood(m: Method, host: string, n: nat)
    requires Clean(host) && NoBlankInFront(host) && NoTrimmingsBehind(host)
    ensures GoodFields(Sent(m, host, n))
  {
    hide Decimal, GoodField, SentField, Clean;
    DigitsAreClean(n);
    ConstantsAreGood();
    TypeIsGood();
    SentIsGood("Host", host);
    SentIsGood("Content-Length", Decimal(n));
  }

  /** A receiver that takes the request apart with this parser finds, behind the start line, the header section
      with exactly these fields, and behind that exactly the body. */
  lemma RequestReceived(m: Method, host: string, path: string, body: string)
    requires NoCrlf(path) && Clean(host) && NoBlankInFront(host) && NoTrimmingsBehind(host)
    ensures var text := RequestText(m, host, path, body);
            var e := LineEnd(text);
            && 0 <= e && e + 2 <= |text|
            && var rest := text[e + 2..]; var h := HeadersEnd(rest);
               && 0 <= h && h + 4 <= |rest|
               && FieldsOf(rest[..h + 4]) == Some(Fields(Sent(m, host, |body|)))
               && rest[h + 4..] == body
  {
    hide RequestText, StartLine, FieldsOf, Sent, Fields, RequestFields, Block;
    FirstLineOfRequest(m, host, path, body);
    FieldsAreSent(m, host, body);
    SentAreGood(m, host, |body|);
    var block := Block(Sent(m, host, |body|));
    HeaderRoundTrip(Sent(m, host, |body|), body);
    assert (block + body)[|block|..] == body;
  }

  /** A described body announces its length: the receiver reads it back as the number of bytes it finds. */
  lemma LengthAnnounced(m: Method, host: string, body: string)
    requires 0 < |body| <= 2147483647
    ensures var length := Lookup(Fields(Sent(m, host, |body|)), "Content-Length");
            if m in {Post, Put} then length.Some? && ParseInt(length.value) == Some(|body|) else length == None
  {
    hide Decimal, ParseInt, Lookup;
    var fields := Fields(Sent(m, host, |body|));
    IntRoundTrip(|body|);
    if m in {Post, Put} {
      LookupIs(fields, "Content-Length", 3);
    }
  }
}

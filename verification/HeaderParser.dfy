/** The header section of modules/src/http_parser.c: `http_parser_headers` and
    `http_parser_get_header_value`, with the renderer they invert. */
module HeaderParser {
  import opened CText
  import opened Scanners
  import opened LinkedLists

  datatype KeyValue = KeyValue(key: string, value: string)

  predicate IsTrimmed(c: char) { c == ' ' || c == '\t' || c == '\r' || c == '\n' }

  function TrimLeft(s: string): string {
    if s != "" && IsBlank(s[0]) then TrimLeft(s[1..]) else s
  }

  function TrimRight(s: string): string {
    if s != "" && IsTrimmed(s[|s| - 1]) then TrimRight(s[..|s| - 1]) else s
  }

  /** One header line; None when it has no colon. */
  function FieldOf(line: string): Option<KeyValue> {
    var l := CStr(line);
    var colon := IndexOf(l, ':');
    if colon == |l| then None
    else Some(KeyValue(TrimRight(l[..colon]), TrimRight(TrimLeft(l[colon + 1..]))))
  }

  function Prepend(xs: seq<KeyValue>, r: Option<seq<KeyValue>>): Option<seq<KeyValue>> {
    match r case None => None case Some(ys) => Some(xs + ys)
  }

  lemma PrependTwice(xs: seq<KeyValue>, ys: seq<KeyValue>, r: Option<seq<KeyValue>>)
    ensures Prepend([], r) == r && Prepend(xs, Some([])) == Some(xs)
    ensures Prepend(xs, Prepend(ys, r)) == Prepend(xs + ys, r)
  {
    assert xs + [] == xs;
    if r.Some? {
      assert [] + r.value == r.value;
      assert xs + (ys + r.value) == xs + ys + r.value;
    }
  }

  /** The fields read from `start` on: up to an empty line or the last complete line. */
  function FieldsFrom(buf: string, start: nat): Option<seq<KeyValue>>
    decreases |buf| - start
  {
    var e := LineEndFrom(buf, start);
    if start >= |buf| || e < 0 || e == start then Some([]) else
      match FieldOf(buf[start..e])
      case None => None
      case Some(kv) => Prepend([kv], FieldsFrom(buf, e + 2))
  }

  /** One turn of the reading loop. */
  lemma FieldsStep(buf: string, start: nat)
    ensures var e := LineEndFrom(buf, start);
            if start >= |buf| || e < 0 || e == start then FieldsFrom(buf, start) == Some([])
            else match FieldOf(buf[start..e])
              case None => FieldsFrom(buf, start) == None
              case Some(kv) => FieldsFrom(buf, start) == Prepend([kv], FieldsFrom(buf, e + 2))
  {}

  function FieldsOf(buf: string): Option<seq<KeyValue>> {
    FieldsFrom(buf, 0)
  }

  /** The body of the per-line loop: split at the colon, then trim by moving the ends. */
  method ParseFieldLine(line: string) returns (r: Option<KeyValue>)
    ensures r == FieldOf(line)
  {
    var l := CStr(line);
    var colon := IndexOf(l, ':');
    if colon == |l| { return None; }
    var value := l[colon + 1..];
    var from := 0;
    while from < |value| && IsBlank(value[from])
      invariant from <= |value| && TrimLeft(value) == TrimLeft(value[from..])
    {
      from := from + 1;
    }
    assert TrimLeft(value[from..]) == value[from..];
    var key := TrimEnd(l[..colon]);
    value := TrimEnd(value[from..]);
    return Some(KeyValue(key, value));
  }

  /** The `*--end = '\0'` loops. */
  method TrimEnd(s: string) returns (r: string)
    ensures r == TrimRight(s)
  {
    var end := |s|;
    assert s[..end] == s;
    while end > 0 && IsTrimmed(s[end - 1])
      invariant 0 <= end <= |s| && TrimRight(s) == TrimRight(s[..end])
    {
      assert s[..end][..end - 1] == s[..end - 1];
      end := end - 1;
    }
    r := s[..end];
  }

  /** The inner scan of `http_parser_headers`. */
  method FindLineFrom(buf: array<char>, start: nat, len: nat) returns (lineEnd: int)
    requires start <= len <= buf.Length
    ensures lineEnd == LineEndFrom(buf[..len], start)
  {
    var i := start;
    while i + 1 < len
      invariant start <= i
      invariant LineEndFrom(buf[..len], start) == LineEndFrom(buf[..len], i)
    {
      if buf[i] == '\r' && buf[i + 1] == '\n' { return i; }
      i := i + 1;
    }
    return -1;
  }

  /** `http_parser_headers`: null stands for ERR_BAD_FORMAT. */
  method ParseHeaders(buf: array<char>, len: nat) returns (list: LinkedList?<KeyValue>)
    requires len <= buf.Length
    ensures list == null <==> FieldsOf(buf[..len]) == None
    ensures list != null ==>
              fresh(list) && fresh(list.nodes) && list.Valid() && FieldsOf(buf[..len]) == Some(list.Items())
  {
    hide FieldsFrom, LineEndFrom, FieldOf;
    var fields := new LinkedList<KeyValue>();
    var start := 0;
    PrependTwice([], [], FieldsOf(buf[..len]));
    while start < len
      invariant fresh(fields) && fresh(fields.nodes) && fields.Valid()
      invariant FieldsOf(buf[..len]) == Prepend(fields.Items(), FieldsFrom(buf[..len], start))
    {
      PrependTwice(fields.Items(), [], None);
      FieldsStep(buf[..len], start);
      var lineEnd := FindLineFrom(buf, start, len);
      if lineEnd < 0 || lineEnd == start { return fields; }
      var field := ParseFieldLine(buf[..len][start..lineEnd]);
      if field == None { return null; }
      PrependTwice(fields.Items(), [field.value], FieldsFrom(buf[..len], lineEnd + 2));
      var _ := fields.ItemAdd(field.value);
      start := lineEnd + 2;
    }
    PrependTwice(fields.Items(), [], None);
    FieldsStep(buf[..len], start);
    return fields;
  }

  /** `http_parser_get_header_value` on the stored list: the first exact, case-sensitive match. */
  function Lookup(fields: seq<KeyValue>, name: string): (r: Option<string>)
    ensures r == None <==> forall f <- fields :: f.key != name
    ensures r.Some? ==> exists i :: 0 <= i < |fields| && fields[i] == KeyValue(name, r.value)
                                    && forall j :: 0 <= j < i ==> fields[j].key != name
  {
    if fields == [] then None
    else if fields[0].key == name then Some(fields[0].value)
    else
      var r := Lookup(fields[1..], name);
      assert r.Some? ==> exists i :: 0 <= i < |fields| && fields[i] == KeyValue(name, r.value)
                                     && forall j :: 0 <= j < i ==> fields[j].key != name by {
        if r.Some? {
          var i :| 0 <= i < |fields[1..]| && fields[1..][i] == KeyValue(name, r.value)
                   && forall j :: 0 <= j < i ==> fields[1..][j].key != name;
          assert forall j :: 0 < j < i + 1 ==> fields[j] == fields[1..][j - 1];
          assert fields[i + 1] == KeyValue(name, r.value);
        }
      }
      r
  }

  /** `i` is the first field of that name. */
  predicate FirstNamed(fields: seq<KeyValue>, name: string, i: nat) {
    i < |fields| && fields[i].key == name && forall j :: 0 <= j < i ==> fields[j].key != name
  }

  lemma LookupIs(fields: seq<KeyValue>, name: string, i: nat)
    requires FirstNamed(fields, name, i)
    ensures Lookup(fields, name) == Some(fields[i].value)
  {
    assert fields[i] in fields;
    var r := Lookup(fields, name);
    var k :| 0 <= k < |fields| && fields[k] == KeyValue(name, r.value)
             && forall j :: 0 <= j < k ==> fields[j].key != name;
    assert !(k < i) && !(i < k);
  }

  method GetHeaderValue(headers: LinkedList<KeyValue>, name: string) returns (r: Option<string>)
    requires headers.Valid()
    ensures r == Lookup(headers.Items(), name)
  {
    var node := headers.head;
    ghost var i := 0;
    while node != null
      invariant 0 <= i <= |headers.nodes|
      invariant node == if i < |headers.nodes| then headers.nodes[i] else null
      invariant Lookup(headers.Items(), name) == Lookup(headers.Items()[i..], name)
      decreases |headers.nodes| - i
    {
      assert node.item == headers.Items()[i];
      if node.item.key == name { return Some(node.item.value); }
      assert headers.Items()[i..][1..] == headers.Items()[i + 1..];
      node := node.next;
      i := i + 1;
    }
    return None;
  }

  // ---------------------------------------------------------------------------------------
  // Rendering, section 5 of RFC 9112

  /** A field as sent, with the optional white space around its value, and some that the client also
      accepts in front of the colon. */
  datatype RawField = RawField(key: string, pad: string, lead: string, value: string, trail: string) {
    function Text(): string { key + pad + ":" + (lead + value + trail) }
    function Field(): KeyValue { KeyValue(key, value) }
  }

  predicate Clean(s: string) { forall c <- s :: c != '\r' && c != '\n' && c != '\0' }

  predicate Blanks(s: string) { forall c <- s :: c == ' ' || c == '\t' }

  /** What is cut off at the end of a key or a value. */
  predicate Trimmings(s: string) { forall c <- s :: c in " \t\r\n" }

  predicate NoTrimmingsBehind(s: string) { s != "" ==> s[|s| - 1] !in " \t\r\n" }

  predicate NoBlankInFront(s: string) { s != "" ==> s[0] != ' ' && s[0] != '\t' }

  predicate GoodField(f: RawField) {
    && Clean(f.key) && Clean(f.value) && Blanks(f.pad) && Blanks(f.lead) && Blanks(f.trail)
    && ':' !in f.key && NoTrimmingsBehind(f.key)
    && NoBlankInFront(f.value) && NoTrimmingsBehind(f.value)
  }

  predicate GoodFields(fs: seq<RawField>) { fs != [] && forall f <- fs :: GoodField(f) }

  function Texts(fs: seq<RawField>): (r: seq<string>)
    ensures |r| == |fs| && forall i :: 0 <= i < |fs| ==> r[i] == fs[i].Text()
  {
    seq(|fs|, i requires 0 <= i < |fs| => fs[i].Text())
  }

  function Fields(fs: seq<RawField>): (r: seq<KeyValue>)
    ensures |r| == |fs| && forall i :: 0 <= i < |fs| ==> r[i] == fs[i].Field()
  {
    seq(|fs|, i requires 0 <= i < |fs| => fs[i].Field())
  }

  /** The header section as sent, blank line included. */
  function Block(fs: seq<RawField>): string { Lines(Texts(fs)) + CRLF }

  lemma {:induction false} TrimLeftBlanks(b: string, s: string)
    requires Blanks(b) && NoBlankInFront(s)
    ensures TrimLeft(b + s) == s
  {
    if b == "" {
      assert b + s == s;
    } else {
      assert (b + s)[1..] == b[1..] + s;
      assert b[0] in b && forall c <- b[1..] :: c in b;
      assert Blanks(b[1..]);
      TrimLeftBlanks(b[1..], s);
    }
  }

  lemma {:induction false} TrimRightBlanks(s: string, b: string)
    requires Trimmings(b) && NoTrimmingsBehind(s)
    ensures TrimRight(s + b) == s
  {
    if b == "" {
      assert s + b == s;
    } else {
      assert (s + b)[..|s + b| - 1] == s + b[..|b| - 1];
      assert b[|b| - 1] in b && forall c <- b[..|b| - 1] :: c in b;
      TrimRightBlanks(s, b[..|b| - 1]);
    }
  }

  lemma FieldSplit(key: string, v: string)
    requires ':' !in key && '\0' !in key && '\0' !in v
    ensures FieldOf(key + ":" + v) == Some(KeyValue(TrimRight(key), TrimRight(TrimLeft(v))))
  {
    var t := key + ":" + v;
    CStrId(t);
    IndexOfAfter(key, ':', v);
    assert t[..|key|] == key && t[|key| + 1..] == v;
  }

  /** One line is taken apart at its first colon: blanks in front of the value go, and blanks and stray line
      ends behind key and value. */
  lemma FieldRead(key: string, pad: string, lead: string, value: string, trail: string)
    requires ':' !in key && '\0' !in key && '\0' !in value && NoTrimmingsBehind(key)
    requires Trimmings(pad) && Blanks(lead) && Trimmings(trail)
    requires NoBlankInFront(value) && NoTrimmingsBehind(value)
    ensures FieldOf(key + pad + ":" + (lead + value + trail)) == Some(KeyValue(key, value))
  {
    hide FieldOf;
    assert forall c <- key + pad :: c in key || c in pad;
    assert forall c <- lead + value + trail :: c in lead || c in value || c in trail;
    FieldSplit(key + pad, lead + value + trail);
    TrimRightBlanks(key, pad);
    TrimValue(lead, value, trail);
  }

  lemma TrimValue(lead: string, value: string, trail: string)
    requires Blanks(lead) && Trimmings(trail) && NoBlankInFront(value) && NoTrimmingsBehind(value)
    ensures TrimRight(TrimLeft(lead + value + trail)) == value
  {
    if value == "" {
      var cut := TrimLeft(lead + value + trail);
      assert forall c <- lead + value + trail :: c in lead || c in trail;
      TrimLeftKeeps(lead + value + trail);
      assert "" + cut == cut;
      TrimRightBlanks("", cut);
    } else {
      assert lead + value + trail == lead + (value + trail);
      TrimLeftBlanks(lead, value + trail);
      TrimRightBlanks(value, trail);
    }
  }

  lemma {:induction false} TrimLeftKeeps(s: string)
    ensures forall c <- TrimLeft(s) :: c in s
  {
    if s == "" {
    } else {
      TrimLeftKeeps(s[1..]);
    }
  }

  /** A line is rejected exactly when it has no colon in front of its first NUL. */
  lemma NoFieldExactly(line: string)
    ensures FieldOf(line) == None <==> ':' !in CStr(line)
  {
    var l := CStr(line);
    assert l[..|l|] == l;
  }

  lemma CleanAppend(a: string, b: string)
    requires Clean(a) && Clean(b)
    ensures Clean(a + b)
  {}

  lemma CleanHasNoCrlf(s: string)
    requires Clean(s)
    ensures NoCrlf(s) && '\0' !in s
  {
    assert forall i :: 0 <= i < |s| ==> s[i] in s;
  }

  /** One rendered field is read back, whatever blanks surround its value. */
  lemma FieldRoundTrip(f: RawField)
    requires GoodField(f)
    ensures FieldOf(f.Text()) == Some(f.Field())
    ensures f.Text() != "" && NoCrlf(f.Text())
  {
    hide FieldOf;
    FieldRead(f.key, f.pad, f.lead, f.value, f.trail);
    assert Clean(f.pad) && Clean(f.lead) && Clean(f.trail) && Clean(":");
    CleanAppend(f.key, f.pad);
    CleanAppend(f.key + f.pad, ":");
    CleanAppend(f.lead, f.value);
    CleanAppend(f.lead + f.value, f.trail);
    CleanAppend(f.key + f.pad + ":", f.lead + f.value + f.trail);
    CleanHasNoCrlf(f.Text());
  }

  lemma GoodTexts(fs: seq<RawField>)
    requires forall f <- fs :: GoodField(f)
    ensures GoodLines(Texts(fs))
  {
    forall i | 0 <= i < |fs| ensures Texts(fs)[i] != "" && NoCrlf(Texts(fs)[i]) {
      FieldRoundTrip(fs[i]);
    }
  }

  lemma LineEndIs(buf: string, start: nat, line: string)
    requires NoCrlf(line) && start + |line| + 2 <= |buf| && buf[start..start + |line|] == line
    requires CrlfAt(buf, start + |line|)
    ensures LineEndFrom(buf, start) == start + |line|
  {
    hide LineEndFrom;
    assert forall k :: 0 <= k < |line| ==> line[k] == buf[start + k];
    forall j | start <= j < start + |line| ensures !CrlfAt(buf, j) {
      assert !CrlfAt(line, j - start);
    }
  }

  lemma SplitFirstLine(buf: string, start: nat, line: string, rest: string)
    requires start <= |buf| && buf[start..] == line + CRLF + rest
    ensures start + |line| + 2 <= |buf| && buf[start..start + |line|] == line
    ensures CrlfAt(buf, start + |line|) && buf[start + |line| + 2..] == rest
  {}

  /** Where lines end: at an empty line, or in the middle of one. */
  lemma NoMoreLines(buf: string, start: nat, tail: string)
    requires start <= |buf| && buf[start..] == tail && (NoCrlf(tail) || CrlfAt(tail, 0))
    ensures FieldsFrom(buf, start) == Some([])
  {
    hide LineEndFrom;
    FieldsStep(buf, start);
    var e := LineEndFrom(buf, start);
    if CrlfAt(tail, 0) {
      assert CrlfAt(buf, start);
    } else if e >= 0 {
      assert !CrlfAt(tail, e - start);
    }
  }

  /** Reading a run of lines from any position: it succeeds exactly when each has a colon in front of its first
      NUL, and then gives each line's field, in order; an incomplete line behind them is not looked at. */
  lemma {:induction false} LinesRead(buf: string, start: nat, ls: seq<string>, tail: string)
    requires GoodLines(ls) && start <= |buf| && buf[start..] == Lines(ls) + tail
    requires NoCrlf(tail) || CrlfAt(tail, 0)
    ensures var r := FieldsFrom(buf, start);
            && (r.Some? <==> forall l <- ls :: ':' in CStr(l))
            && (r.Some? ==> |r.value| == |ls| && forall i :: 0 <= i < |ls| ==> FieldOf(ls[i]) == Some(r.value[i]))
    decreases |ls|
  {
    hide FieldsFrom, FieldOf, LineEndFrom, CStr;
    if ls == [] {
      assert Lines(ls) + tail == tail;
      NoMoreLines(buf, start, tail);
    } else {
      var line, rest := ls[0], Lines(ls[1..]) + tail;
      assert line in ls && Lines(ls) + tail == line + CRLF + rest;
      SplitFirstLine(buf, start, line, rest);
      LineEndIs(buf, start, line);
      FieldsStep(buf, start);
      NoFieldExactly(line);
      LinesRead(buf, start + |line| + 2, ls[1..], tail);
      assert ls == [line] + ls[1..];
    }
  }

  /** Header round trip: the end of the section is located exactly, the parsed list is the
      rendered list in order, and nothing that follows the section disturbs either. */
  lemma HeaderRoundTrip(fs: seq<RawField>, rest: string)
    requires GoodFields(fs)
    ensures 0 <= HeadersEnd(Block(fs) + rest) == |Block(fs)| - 4
    ensures FieldsOf((Block(fs) + rest)[..HeadersEnd(Block(fs) + rest) + 4]) == Some(Fields(fs))
  {
    hide FieldsFrom, FieldOf, CStr;
    GoodTexts(fs);
    EndMarkAfterLines(Texts(fs), rest);
    assert (Block(fs) + rest)[..|Block(fs)|] == Block(fs);
    LinesRead(Block(fs), 0, Texts(fs), CRLF);
    forall i | 0 <= i < |fs| ensures FieldOf(Texts(fs)[i]) == Some(fs[i].Field()) {
      FieldRoundTrip(fs[i]);
    }
    forall l | l in Texts(fs) ensures ':' in CStr(l) {
      NoFieldExactly(l);
    }
    assert FieldsOf(Block(fs)).value == Fields(fs);
  }

  /** One line without a colon spoils the whole section. */
  lemma BadLineSpoils(ls: seq<string>, bad: string, rest: string)
    requires GoodLines(ls) && bad in ls && ':' !in CStr(bad)
    ensures 0 <= HeadersEnd(Lines(ls) + CRLF + rest) == |Lines(ls) + CRLF| - 4
    ensures FieldsOf(Lines(ls) + CRLF) == None
  {
    hide FieldsFrom, CStr;
    EndMarkAfterLines(ls, rest);
    LinesRead(Lines(ls) + CRLF, 0, ls, CRLF);
  }
}

/** The two scanners of modules/src/http_parser.c that find where a line and a header
    section end, and how their answers behave when more bytes arrive. */
module Scanners {
  import opened CText

  predicate CrlfAt(s: string, i: int) {
    0 <= i && i + 1 < |s| && s[i] == '\r' && s[i + 1] == '\n'
  }

  predicate EndMarkAt(s: string, i: int) {
    0 <= i && i + 3 < |s| && s[i] == '\r' && s[i + 1] == '\n' && s[i + 2] == '\r' && s[i + 3] == '\n'
  }

  /** No line end inside `s`. */
  predicate NoCrlf(s: string) {
    forall i :: 0 <= i < |s| ==> !CrlfAt(s, i)
  }

  /** The first line end at or after `start`, or -1. */
  function LineEndFrom(s: string, start: nat): (r: int)
    ensures r == -1 || (start <= r && CrlfAt(s, r))
    ensures forall j :: start <= j && (r == -1 || j < r) ==> !CrlfAt(s, j)
    decreases |s| - start
  {
    if start + 1 >= |s| then -1
    else if CrlfAt(s, start) then start
    else LineEndFrom(s, start + 1)
  }

  function LineEnd(s: string): (r: int)
    ensures r == -1 || CrlfAt(s, r)
    ensures forall j :: r == -1 || j < r ==> !CrlfAt(s, j)
  {
    LineEndFrom(s, 0)
  }

  function EndMarkFrom(s: string, start: nat): (r: int)
    ensures r == -1 || (start <= r && EndMarkAt(s, r))
    ensures forall j :: start <= j && (r == -1 || j < r) ==> !EndMarkAt(s, j)
    decreases |s| - start
  {
    if start + 3 >= |s| then -1
    else if EndMarkAt(s, start) then start
    else EndMarkFrom(s, start + 1)
  }

  function HeadersEnd(s: string): (r: int)
    ensures r == -1 || EndMarkAt(s, r)
    ensures forall j :: r == -1 || j < r ==> !EndMarkAt(s, j)
  {
    EndMarkFrom(s, 0)
  }

  /** `http_parser_find_line_end` */
  method FindLineEnd(buf: array<char>, len: nat) returns (r: int)
    requires len <= buf.Length
    ensures r == LineEnd(buf[..len])
    ensures -1 <= r < len
  {
    if len < 2 { return -1; }
    var i := 0;
    while i + 1 < len
      invariant 0 <= i < len
      invariant LineEnd(buf[..len]) == LineEndFrom(buf[..len], i)
    {
      if buf[i] == '\r' && buf[i + 1] == '\n' { return i; }
      i := i + 1;
    }
    return -1;
  }

  /** `http_parser_find_headers_end` */
  method FindHeadersEnd(buf: array<char>, len: nat) returns (r: int)
    requires len <= buf.Length
    ensures r == HeadersEnd(buf[..len])
    ensures -1 <= r < len
  {
    if len < 4 { return -1; }
    var i := 0;
    while i + 3 < len
      invariant 0 <= i <= len
      invariant HeadersEnd(buf[..len]) == EndMarkFrom(buf[..len], i)
    {
      if buf[i] == '\r' && buf[i + 1] == '\n' && buf[i + 2] == '\r' && buf[i + 3] == '\n' { return i; }
      i := i + 1;
    }
    return -1;
  }

  /** A line followed by CRLF ends exactly there, whatever comes next. */
  lemma LineEndAfter(line: string, rest: string)
    requires NoCrlf(line)
    ensures LineEnd(line + CRLF + rest) == |line|
  {
    var s := line + CRLF + rest;
    assert CrlfAt(s, |line|);
    forall j | 0 <= j < |line| ensures !CrlfAt(s, j) {
      assert !CrlfAt(line, j);
    }
  }

  /** On a prefix of a stream, the line end is found exactly when it has fully arrived. */
  lemma LineEndOfPrefix(buf: string, more: string)
    ensures LineEnd(buf + more) >= 0 && LineEnd(buf + more) + 2 <= |buf| ==> LineEnd(buf) == LineEnd(buf + more)
    ensures !(LineEnd(buf + more) >= 0 && LineEnd(buf + more) + 2 <= |buf|) ==> LineEnd(buf) == -1
  {
    var s := buf + more;
    forall j | 0 <= j && j + 1 < |buf| ensures CrlfAt(buf, j) <==> CrlfAt(s, j) {}
  }

  lemma HeadersEndOfPrefix(buf: string, more: string)
    ensures HeadersEnd(buf + more) >= 0 && HeadersEnd(buf + more) + 4 <= |buf| ==>
              HeadersEnd(buf) == HeadersEnd(buf + more)
    ensures !(HeadersEnd(buf + more) >= 0 && HeadersEnd(buf + more) + 4 <= |buf|) ==> HeadersEnd(buf) == -1
  {
    var s := buf + more;
    forall j | 0 <= j && j + 3 < |buf| ensures EndMarkAt(buf, j) <==> EndMarkAt(s, j) {}
  }

  /** Text made of non-empty lines, each ended by CRLF. */
  function Lines(ls: seq<string>): string {
    if ls == [] then "" else ls[0] + CRLF + Lines(ls[1..])
  }

  predicate GoodLines(ls: seq<string>) {
    forall l <- ls :: l != "" && NoCrlf(l)
  }

  /** A non-empty run of lines closed by an empty one holds its first end mark at its very end. */
  lemma {:induction false} EndMarkAfterLines(ls: seq<string>, rest: string)
    requires ls != [] && GoodLines(ls)
    ensures HeadersEnd(Lines(ls) + CRLF + rest) == |Lines(ls)| - 2
    ensures !CrlfAt(Lines(ls) + CRLF + rest, 0)
  {
    hide LineEndFrom, EndMarkFrom;
    var l := ls[0];
    var s := Lines(ls) + CRLF + rest;
    var tail := Lines(ls[1..]) + CRLF + rest;
    assert s == l + CRLF + tail;
    LineEndAfter(l, tail);
    if ls[1..] == [] {
      assert EndMarkAt(s, |l|);
      assert forall j :: 0 <= j < |l| ==> !CrlfAt(s, j);
      assert forall j :: 0 <= j < |l| ==> EndMarkAt(s, j) ==> CrlfAt(s, j);
    } else {
      EndMarkAfterLines(ls[1..], rest);
      var e := |Lines(ls[1..])| - 2;
      assert EndMarkAt(tail, e);
      assert EndMarkAt(s, |l| + 2 + e);
      forall j | 0 <= j < |l| + 2 + e ensures !EndMarkAt(s, j) {
        if j < |l| {
          assert !CrlfAt(s, j);
        } else if j >= |l| + 2 {
          assert !EndMarkAt(tail, j - |l| - 2);
        } else {
          assert !CrlfAt(tail, 0);
        }
      }
    }
  }
}

/** Whole responses, from the first byte of the status line to the body handed to the caller: exactly
    when the result is the body that was sent, in each of the three framings of
    modules/src/http_client.c, over every cut into reads. */
module EndToEnd {
  import opened CText
  import opened StringUtils
  import opened Scanners
  import opened HeaderParser
  import opened ResponseMachine
  import opened Delivery
  import opened ChunkedDecoding

  // ---------------------------------------------------------------------------------------
  // The status line

  /** The status lines that get through: at most 1022 bytes, or 1023 when no read ends between
      the CR and the LF behind it (`behind` bytes follow the line end). */
  ghost predicate LineFits(script: seq<ReadEvent>, line: string, behind: nat) {
    |line| <= 1022 || (|line| == 1023 && NoStopIn(script, behind + 1, behind + 1))
  }

  /** `d` is reached from `c` by work calls that consumed everything before `rest`. */
  ghost predicate Reaches(ok: string -> bool, c: Client, d: Client, rest: string) {
    && Run(ok, c) == Run(ok, d)
    && Left(d) == rest && Delivers(d.incoming)
    && Skips(c.incoming, d.incoming, |rest|)
  }

  /** One call while the line is incomplete: read, then look. */
  lemma FirstlineCall(ok: string -> bool, c: Client, line: string, rest: string)
    requires c.state == ReadingFirstline && NoCrlf(line)
    requires Left(c) == line + CRLF + rest && |c.buf| < |line| + 2 && |c.buf| < MAX_FIRSTLINE
    requires Delivers(c.incoming)
    ensures Bytes(c.incoming) != "" && Later(c, ReadMore(c, ReadingFirstline))
    ensures var r := ReadMore(c, ReadingFirstline);
            Step(ok, c) == if |r.buf| < |line| + 2 then (if |r.buf| >= MAX_FIRSTLINE then r.(state := Error) else r)
                           else if line == "" || |line| >= MAX_FIRSTLINE || !ok(line) then r.(state := Error)
                           else r.(state := ReadingHeaders, buf := r.buf[|line| + 2..])
    ensures var r := ReadMore(c, ReadingFirstline);
            |r.buf| >= |line| + 2 ==> Left(r.(buf := r.buf[|line| + 2..])) == rest
  {
    assert |Left(c)| == |c.buf| + |Bytes(c.incoming)|;
    var r := ReadMore(c, ReadingFirstline);
    ReadDelivers(c, ReadingFirstline);
    assert c.(state := ReadingFirstline) == c;
    LineArrival(r, line, rest);
    if !Next(c.incoming).Data? {
      assert r.buf == c.buf;
    }
  }

  /** The status lines that are taken: accepted ones that get through. */
  ghost predicate LineTaken(ok: string -> bool, script: seq<ReadEvent>, line: string, behind: nat) {
    line != "" && ok(line) && LineFits(script, line, behind)
  }

  /** The status line is taken off exactly when it is accepted and fits; otherwise the run is an error. */
  lemma {:induction false} StatusLineExact(ok: string -> bool, c: Client, line: string, rest: string)
    returns (d: Client)
    requires c.state == ReadingFirstline && NoCrlf(line)
    requires Left(c) == line + CRLF + rest && |c.buf| < |line| + 2 && |c.buf| < MAX_FIRSTLINE
    requires Delivers(c.incoming)
    ensures LineTaken(ok, c.incoming, line, |rest|) ==>
              Reaches(ok, c, d, rest) && d == c.(state := ReadingHeaders, buf := d.buf, incoming := d.incoming)
    ensures !LineTaken(ok, c.incoming, line, |rest|) ==> Run(ok, c).state == Error
    decreases |c.incoming|
  {
    hide Run, ReadMore, Step;
    FirstlineCall(ok, c, line, rest);
    RunStep(ok, c);
    var r := ReadMore(c, ReadingFirstline);
    d := Step(ok, c);
    assert |Left(c)| == |c.buf| + |Bytes(c.incoming)|;
    assert |Left(r)| == |r.buf| + |Bytes(r.incoming)|;
    var u := |rest| + 1;
    assert Skips(r.incoming, r.incoming, |rest|) && |Bytes(c.incoming)| > |rest|;
    assert |line| == 1023 ==> NoStopIn(c.incoming, u, u) == NoStopIn(r.incoming, u, u);
    if |r.buf| >= |line| + 2 {
      NoStopBelow(r.incoming, u, u);
    }
    if d.state == Error {
      RunDone(ok, d);
    } else if |r.buf| < |line| + 2 {
      d := StatusLineExact(ok, r, line, rest);
    }
  }

  // ---------------------------------------------------------------------------------------
  // The header section

  /** Either the section is all there, or the client is short of it. */
  lemma HeadersArrival(c: Client, fs: seq<RawField>, rest: string)
    requires GoodFields(fs) && Left(c) == Block(fs) + rest
    ensures |c.buf| < |Block(fs)| ==> HeadersEnd(c.buf) == -1 && Bytes(c.incoming) != ""
    ensures |c.buf| >= |Block(fs)| ==>
              HeadersEnd(c.buf) + 4 == |Block(fs)| && FieldsOf(c.buf[..|Block(fs)|]) == Some(Fields(fs))
              && Left(c.(buf := c.buf[|Block(fs)|..])) == rest
  {
    hide FieldsOf, Block;
    HeaderRoundTrip(fs, rest);
    HeadersEndOfPrefix(c.buf, Bytes(c.incoming));
    if |c.buf| >= |Block(fs)| {
      assert c.buf[..|Block(fs)|] == Left(c)[..|Block(fs)|];
      assert c.buf[|Block(fs)|..] + Bytes(c.incoming) == Left(c)[|Block(fs)|..];
    }
  }

  lemma HeadersCall(ok: string -> bool, c: Client, fs: seq<RawField>, rest: string)
    requires c.state == ReadingHeaders && GoodFields(fs) && Left(c) == Block(fs) + rest
    ensures |c.buf| < |Block(fs)| ==> Step(ok, c) == ReadMore(c, ReadingHeaders) && Bytes(c.incoming) != ""
    ensures |c.buf| >= |Block(fs)| ==>
              Step(ok, c) == EnterBody(c.(headers := Fields(fs), buf := c.buf[|Block(fs)|..]))
              && Left(c.(buf := c.buf[|Block(fs)|..])) == rest
  {
    hide FieldsFrom, EndMarkFrom, Lookup, ParseInt, GoodFields;
    HeadersArrival(c, fs, rest);
    if |c.buf| >= |Block(fs)| {
      assert c.buf[..HeadersEnd(c.buf) + 4] == c.buf[..|Block(fs)|];
    }
  }

  /** The header section is parsed once it is complete, whatever the cut. */
  lemma {:induction false} HeadersTaken(ok: string -> bool, c: Client, fs: seq<RawField>, rest: string)
    returns (d: Client)
    requires c.state == ReadingHeaders && GoodFields(fs) && Left(c) == Block(fs) + rest
    requires Delivers(c.incoming)
    ensures Run(ok, c) == Run(ok, EnterBody(d)) && Left(d) == rest && Delivers(d.incoming)
    ensures Skips(c.incoming, d.incoming, |rest|)
    ensures d == c.(headers := Fields(fs), buf := d.buf, incoming := d.incoming)
    decreases |c.incoming|
  {
    hide Run, ReadMore, Block, EnterBody, Step, GoodFields;
    HeadersCall(ok, c, fs, rest);
    RunStep(ok, c);
    if |c.buf| < |Block(fs)| {
      ReadDelivers(c, ReadingHeaders);
      assert |Left(c)| == |c.buf| + |Bytes(c.incoming)|;
      d := HeadersTaken(ok, ReadMore(c, ReadingHeaders), fs, rest);
    } else {
      d := c.(headers := Fields(fs), buf := c.buf[|Block(fs)|..]);
    }
  }

  /** An accepted response head: status line and at least one header field. */
  predicate GoodHead(ok: string -> bool, line: string, fs: seq<RawField>) {
    line != "" && NoCrlf(line) && ok(line) && GoodFields(fs)
  }

  function ResponseText(line: string, fs: seq<RawField>, body: string): string {
    line + CRLF + (Block(fs) + body)
  }

  /** The whole head: after it the run continues with the parsed fields and the body bytes left. */
  lemma HeadTaken(ok: string -> bool, script: seq<ReadEvent>, line: string, fs: seq<RawField>, body: string)
    returns (d: Client)
    requires GoodHead(ok, line, fs) && Delivers(script)
    requires Bytes(script) == ResponseText(line, fs, body)
    requires LineFits(script, line, |Block(fs) + body|)
    ensures Run(ok, Initial(script)) == Run(ok, EnterBody(d)) && Left(d) == body && Delivers(d.incoming)
    ensures Skips(script, d.incoming, |body|)
    ensures d.headers == Fields(fs) && d.decoded == ""
  {
    hide Run, EnterBody, Block, NoStopIn, Skips;
    var c := Initial(script);
    assert Left(c) == Bytes(script);
    var h := StatusLineExact(ok, c, line, Block(fs) + body);
    d := HeadersTaken(ok, h, fs, body);
    SkipsMore(script, h.incoming, d.incoming, |Block(fs) + body|, |body|);
  }

  /** A first line that is empty, not accepted, or does not fit makes every response an error, whatever follows. */
  lemma StatusLineFails(ok: string -> bool, script: seq<ReadEvent>, line: string, rest: string)
    requires NoCrlf(line) && Delivers(script) && Bytes(script) == line + CRLF + rest
    requires line == "" || !ok(line) || !LineFits(script, line, |rest|)
    ensures Run(ok, Initial(script)).state == Error
  {
    assert Left(Initial(script)) == Bytes(script);
    var _ := StatusLineExact(ok, Initial(script), line, rest);
  }

  lemma {:induction false} BadBlockFails(ok: string -> bool, c: Client, block: string, rest: string)
    requires c.state == ReadingHeaders && Left(c) == block + rest && Delivers(c.incoming)
    requires 0 <= HeadersEnd(block + rest) == |block| - 4 && FieldsOf(block) == None
    ensures Run(ok, c).state == Error
    decreases |c.incoming|
  {
    hide Run, ReadMore, FieldsFrom, EndMarkFrom;
    HeadersEndOfPrefix(c.buf, Bytes(c.incoming));
    assert |Left(c)| == |c.buf| + |Bytes(c.incoming)|;
    RunStep(ok, c);
    if |c.buf| < |block| {
      ReadDelivers(c, ReadingHeaders);
      BadBlockFails(ok, ReadMore(c, ReadingHeaders), block, rest);
    } else {
      assert c.buf[..HeadersEnd(c.buf) + 4] == Left(c)[..|block|] == block;
      RunDone(ok, c.(state := Error));
    }
  }

  /** A header section with a line that has no colon makes every response an error, in every cut. */
  lemma BadHeaderFails(ok: string -> bool, script: seq<ReadEvent>, line: string, ls: seq<string>, bad: string,
                       rest: string)
    requires NoCrlf(line) && Delivers(script) && Bytes(script) == line + CRLF + (Lines(ls) + CRLF + rest)
    requires LineTaken(ok, script, line, |Lines(ls) + CRLF + rest|)
    requires GoodLines(ls) && bad in ls && ':' !in CStr(bad)
    ensures Run(ok, Initial(script)).state == Error
  {
    hide Run, CStr, FieldsOf, Lines, NoStopIn, Skips;
    assert Left(Initial(script)) == Bytes(script);
    var d := StatusLineExact(ok, Initial(script), line, Lines(ls) + CRLF + rest);
    BadLineSpoils(ls, bad, rest);
    BadBlockFails(ok, d, Lines(ls) + CRLF, rest);
  }

  // ---------------------------------------------------------------------------------------
  // Content-Length bodies

  /** A length printed in decimal is declared as itself. */
  lemma DecimalIsDeclared(fields: seq<KeyValue>, n: nat)
    requires n <= INT_MAX && Lookup(fields, "Content-Length") == Some(Decimal(n))
    ensures DeclaredLength(fields) == n
  {
    IntRoundTrip(n);
  }

  /** What is handed over when `extra` bytes follow a body of `n`: everything that had arrived when the body
      was complete, which is the body alone exactly when a read ended at its end. */
  ghost predicate Collected(e: Client, stream: string, n: nat, alone: bool) {
    && e.state == Returning && n <= |e.buf| <= |stream| && e.buf == stream[..|e.buf|]
    && (|e.buf| == n <==> alone)
  }

  lemma {:induction false} BodyTaken(ok: string -> bool, c: Client)
    requires c.state == ReadingBody && Delivers(c.incoming)
    requires |c.buf| < c.contentLength <= |Left(c)|
    ensures var extra := |Left(c)| - c.contentLength;
            Collected(Run(ok, c), Left(c), c.contentLength, !NoStopIn(c.incoming, extra, extra))
    ensures Run(ok, c).decoded == c.decoded
    decreases |c.incoming|
  {
    hide Run;
    var extra := |Left(c)| - c.contentLength;
    assert |Left(c)| == |c.buf| + |Bytes(c.incoming)|;
    ReadDelivers(c, ReadingBody);
    RunStep(ok, c);
    var r := ReadMore(c, ReadingBody);
    assert |Left(r)| == |r.buf| + |Bytes(r.incoming)|;
    if |r.buf| < r.contentLength {
      BodyTaken(ok, r);
    } else {
      StopsHere(r, extra);
      RunDone(ok, r.(state := Returning));
    }
  }

  /** With at most `extra` bytes to come, a read ends with exactly `extra` to come only if one just did. */
  lemma StopsHere(r: Client, extra: nat)
    requires |Bytes(r.incoming)| <= extra
    ensures NoStopIn(r.incoming, extra, extra) <==> |Bytes(r.incoming)| < extra
    ensures r.buf == Left(r)[..|r.buf|]
  {
    if |Bytes(r.incoming)| < extra {
      NoStopBelow(r.incoming, extra, extra);
    }
  }

  /** End to end, Content-Length framing, with any bytes behind the body: the response always returns, and
      what is handed over is the body exactly when some read ends where the body ends. */
  lemma ContentLengthExact(ok: string -> bool, script: seq<ReadEvent>, line: string, fs: seq<RawField>,
                           body: string, extra: string)
    requires GoodHead(ok, line, fs) && Delivers(script)
    requires Bytes(script) == ResponseText(line, fs, body + extra)
    requires LineFits(script, line, |Block(fs) + (body + extra)|)
    requires !IsChunked(Fields(fs)) && DeclaredLength(Fields(fs)) == |body| > 0
    ensures Run(ok, Initial(script)).state == Returning && body <= Output(Run(ok, Initial(script)))
    ensures Output(Run(ok, Initial(script))) == body <==> !NoStopIn(script, |extra|, |extra|)
  {
    hide Run, Block, NoStopIn, Skips, IsChunked, DeclaredLength;
    var d := HeadTaken(ok, script, line, fs, body + extra);
    SkipsKeepsStops(script, d.incoming, |body + extra|, |extra|, |extra|);
    assert |Left(d)| == |d.buf| + |Bytes(d.incoming)|;
    var e := EnterBody(d);
    if e.state == Returning {
      StopsHere(d, |extra|);
      RunDone(ok, e);
    } else {
      BodyTaken(ok, e);
    }
    var end := Run(ok, Initial(script));
    assert end.buf == (body + extra)[..|end.buf|];
    assert (body + extra)[..|body|] == body;
  }

  lemma {:induction false} EndsSomewhere(script: seq<ReadEvent>)
    ensures !NoStopIn(script, 0, 0)
  {
    if script == [] {
    } else {
      EndsSomewhere(script[1..]);
    }
  }

  /** With nothing behind the body, any cut hands over exactly the body. */
  lemma ContentLengthEndToEnd(ok: string -> bool, script: seq<ReadEvent>, line: string, fs: seq<RawField>, body: string)
    requires GoodHead(ok, line, fs) && Delivers(script)
    requires Bytes(script) == ResponseText(line, fs, body)
    requires LineFits(script, line, |Block(fs) + body|)
    requires !IsChunked(Fields(fs)) && DeclaredLength(Fields(fs)) == |body| > 0
    ensures Run(ok, Initial(script)).state == Returning && Output(Run(ok, Initial(script))) == body
  {
    hide Run, Block, NoStopIn, IsChunked, DeclaredLength;
    assert body + "" == body;
    EndsSomewhere(script);
    ContentLengthExact(ok, script, line, fs, body, "");
  }

  // ---------------------------------------------------------------------------------------
  // Neither a length nor chunked coding

  /** Without framing the response returns as soon as the head is complete, with what has arrived of the
      body: all of it exactly when no read ends inside it or right before it. */
  lemma UnframedExact(ok: string -> bool, script: seq<ReadEvent>, line: string, fs: seq<RawField>, body: string)
    requires GoodHead(ok, line, fs) && Delivers(script)
    requires Bytes(script) == ResponseText(line, fs, body)
    requires LineFits(script, line, |Block(fs) + body|)
    requires !IsChunked(Fields(fs)) && DeclaredLength(Fields(fs)) == 0
    ensures Run(ok, Initial(script)).state == Returning
    ensures Output(Run(ok, Initial(script))) == body <==> NoStopIn(script, 1, |body|)
  {
    hide Run, Block, Skips, IsChunked, DeclaredLength;
    var d := HeadTaken(ok, script, line, fs, body);
    SkipsKeepsStops(script, d.incoming, |body|, 1, |body|);
    assert |Left(d)| == |d.buf| + |Bytes(d.incoming)|;
    RunDone(ok, EnterBody(d));
    if Bytes(d.incoming) == "" {
      NoStopBelow(d.incoming, 1, |body|);
      assert d.buf + "" == d.buf;
    }
  }

  // ---------------------------------------------------------------------------------------
  // Chunked coding

  /** Behind the head of a chunked response the client is at a size line. */
  lemma ChunkedHead(ok: string -> bool, script: seq<ReadEvent>, line: string, fs: seq<RawField>, body: string)
    returns (d: Client)
    requires GoodHead(ok, line, fs) && Delivers(script)
    requires Bytes(script) == ResponseText(line, fs, body)
    requires LineFits(script, line, |Block(fs) + body|) && IsChunked(Fields(fs))
    ensures Run(ok, Initial(script)) == Run(ok, d) && Left(d) == body && Delivers(d.incoming)
    ensures Skips(script, d.incoming, |body|)
    ensures d.state == DecipherChonkiness && d.decoded == ""
  {
    hide Run, Block, NoStopIn, Skips, IsChunked;
    d := HeadTaken(ok, script, line, fs, body);
    d := d.(state := DecipherChonkiness);
  }

  /** End to end, chunked framing, for every cut, every trailer section and any bytes behind the response: what
      is handed over is the data exactly when the closing section survives and, for an empty body, a read ended
      where the response ends; otherwise an empty body is what had arrived of `extra`. A cut inside a closing
      section that starts no number is exactly then an error, and inside one that overruns undefined. */
  lemma ChunkedEndToEnd(ok: string -> bool, script: seq<ReadEvent>, line: string, fs: seq<RawField>,
                        ks: seq<Chunk>, l: Last, extra: string)
    requires GoodHead(ok, line, fs) && Delivers(script) && GoodChunks(ks) && GoodLast(l)
    requires Bytes(script) == ResponseText(line, fs, BodyText(ks, l) + extra)
    requires LineFits(script, line, |Block(fs) + (BodyText(ks, l) + extra)|) && IsChunked(Fields(fs))
    ensures var e, f := Run(ok, Initial(script)), FateOf(script, l.trailers, |extra|);
            && (f.Survived? || !Leaks(f.at, extra) ==>
                  (e.state == Returning && Output(e) == BodyData(ks)
                   <==> f.Survived? && (ks != [] || StopsAt(script, |extra|))))
            && (f.Survived? ==> e.state == Returning && (ks == [] ==> Output(e) <= extra))
            && (extra == "" ==> StopsAt(script, |extra|))
    ensures Uncut(script, l.trailers, |extra|) ==> Survives(script, l.trailers, |extra|)
    ensures DeadEnd(l.trailers) ==> (Run(ok, Initial(script)).state == Error <==> !Uncut(script, l.trailers, |extra|))
    ensures Overruns(l.trailers) ==>
              (Run(ok, Initial(script)).state == Undefined <==> !Uncut(script, l.trailers, |extra|))
  {
    hide Run, Block, NoStopIn, BodyText, Skips, FateOf, IsChunked, ClosingText, DeadEnd, Overruns, Hollow, Leaks,
         Outcome, BodyData, LineFits, GoodHead, Delivers, Bytes, GoodChunks, GoodLast, Wire;
    var body := BodyText(ks, l) + extra;
    WireIsBody(ks, l, extra);
    ClosingIsLast(ks, l, extra);
    var d := ChunkedHead(ok, script, line, fs, body);
    SkipsKeepsFate(script, d.incoming, |body|, l.trailers, |extra|);
    SkipsKeepsStops(script, d.incoming, |body|, |extra|, |extra|);
    SkipsKeepsStops(script, d.incoming, |body|, |extra| + 1, |extra| + |ClosingText(l.trailers)|);
    FateOfUncut(script, l.trailers, |extra|);
    EndsSomewhere(script);
    ChunkedBodyExact(ok, d, ks, l, extra);
    assert "" + BodyData(ks) == BodyData(ks);
    HandedOver(Run(ok, Initial(script)), ks, FateOf(script, l.trailers, |extra|), extra, StopsAt(script, |extra|));
  }

  /** The outcome of decoding, as the caller sees it. */
  lemma HandedOver(e: Client, ks: seq<Chunk>, f: Fate, extra: string, alone: bool)
    requires GoodChunks(ks) && Outcome(e, BodyData(ks), f, extra, alone) && (extra == "" ==> alone)
    ensures f.Survived? || !Leaks(f.at, extra) ==>
              (e.state == Returning && Output(e) == BodyData(ks) <==> f.Survived? && (ks != [] || alone))
    ensures f.Survived? ==> e.state == Returning && (ks == [] ==> Output(e) <= extra)
  {
    hide Hollow, DeadEnd, Overruns, Leaks;
    assert ks != [] ==> GoodChunk(ks[0]);
  }

  // ---------------------------------------------------------------------------------------
  // No header field at all

  lemma {:induction false} WaitsForHeaders(ok: string -> bool, c: Client)
    requires c.state == ReadingHeaders && HeadersEnd(Left(c)) == -1
    ensures Run(ok, c).state in {ReadingHeaders, Error}
    decreases |c.incoming|
  {
    HeadersEndOfPrefix(c.buf, Bytes(c.incoming));
    var d := ReadMore(c, ReadingHeaders);
    assert Step(ok, c) == d;
    if c.incoming == [] {
    } else {
      hide Run;
      RunStep(ok, c);
      if d.state == Error {
        RunDone(ok, d);
      } else {
        ReadKeepsLeft(c, ReadingHeaders);
        WaitsForHeaders(ok, d);
      }
    }
  }

  /** An empty first line ends the fields at once, and nothing frames a body. */
  lemma EmptyHeadReturns(c: Client, e: nat)
    requires CrlfAt(c.buf, 0) && HeadersEnd(c.buf) == e
    ensures HeadersStep(c).state == Returning
  {
    var block := c.buf[..e + 4];
    assert CrlfAt(block, 0);
    assert LineEndFrom(block, 0) == 0;
    FieldsStep(block, 0);
    assert Lookup([], "Transfer-Encoding") == None && Lookup([], "Content-Length") == None;
  }

  lemma {:induction false} FindsEndMark(ok: string -> bool, c: Client)
    requires c.state == ReadingHeaders && CrlfAt(Left(c), 0) && HeadersEnd(Left(c)) >= 0 && Delivers(c.incoming)
    ensures Run(ok, c).state == Returning
    decreases |c.incoming|
  {
    hide Run, ReadMore, FieldsFrom, EndMarkFrom;
    HeadersEndOfPrefix(c.buf, Bytes(c.incoming));
    assert |Left(c)| == |c.buf| + |Bytes(c.incoming)|;
    RunStep(ok, c);
    if HeadersEnd(c.buf) == -1 {
      ReadDelivers(c, ReadingHeaders);
      FindsEndMark(ok, ReadMore(c, ReadingHeaders));
    } else {
      EmptyHeadReturns(c, HeadersEnd(c.buf));
      RunDone(ok, HeadersStep(c));
    }
  }

  /** The end mark is searched after the status line is gone, so a response without header fields returns
      exactly when its body, or the empty line and its body, happen to hold an end mark. */
  lemma HeaderlessExact(ok: string -> bool, script: seq<ReadEvent>, line: string, body: string)
    requires line != "" && NoCrlf(line) && ok(line) && Delivers(script)
    requires Bytes(script) == line + CRLF + (CRLF + body)
    requires LineFits(script, line, |CRLF + body|)
    ensures Run(ok, Initial(script)).state == Returning <==> HeadersEnd(CRLF + body) >= 0
  {
    hide Run;
    assert Left(Initial(script)) == Bytes(script);
    var d := StatusLineExact(ok, Initial(script), line, CRLF + body);
    if HeadersEnd(CRLF + body) >= 0 {
      FindsEndMark(ok, d);
    } else {
      WaitsForHeaders(ok, d);
    }
  }

  // ---------------------------------------------------------------------------------------
  // From the fields as sent

  /** Field `i` is the first one sent under that name. */
  predicate SentFirst(fs: seq<RawField>, name: string, i: nat) {
    i < |fs| && fs[i].key == name && forall j :: 0 <= j < i ==> fs[j].key != name
  }

  predicate NotSent(fs: seq<RawField>, name: string) { forall i :: 0 <= i < |fs| ==> fs[i].key != name }

  /** "chunked" anywhere in the value of the first Transfer-Encoding field makes the response chunked: the data is
      handed over exactly when the closing section survives the cut. */
  lemma ChunkedResponse(ok: string -> bool, script: seq<ReadEvent>, line: string, fs: seq<RawField>,
                        i: nat, before: string, after: string, ks: seq<Chunk>, l: Last)
    requires GoodHead(ok, line, fs) && Delivers(script) && GoodChunks(ks) && GoodLast(l)
    requires SentFirst(fs, "Transfer-Encoding", i) && fs[i].value == before + "chunked" + after
    requires Bytes(script) == ResponseText(line, fs, BodyText(ks, l))
    requires LineFits(script, line, |Block(fs) + BodyText(ks, l)|)
    ensures var e := Run(ok, Initial(script));
            e.state == Returning && Output(e) == BodyData(ks) <==> Survives(script, l.trailers, 0)
    ensures NoStopIn(script, 1, |l.Closing()|) ==> Survives(script, l.trailers, 0)
  {
    hide Run, Block, NoStopIn, BodyText, FateOf, IsChunked;
    ChunkedExactly(Fields(fs));
    assert FirstNamed(Fields(fs), "Transfer-Encoding", i);
    assert before + "chunked" + after == before + ("chunked" + after);
    assert OccursAt(Fields(fs)[i].value, "chunked", |before|);
    assert BodyText(ks, l) + "" == BodyText(ks, l);
    ChunkedEndToEnd(ok, script, line, fs, ks, l, "");
  }

  /** A decimal Content-Length and no Transfer-Encoding: exactly the body, whatever the cut. */
  lemma LengthResponse(ok: string -> bool, script: seq<ReadEvent>, line: string, fs: seq<RawField>, i: nat,
                       body: string)
    requires GoodHead(ok, line, fs) && Delivers(script)
    requires NotSent(fs, "Transfer-Encoding") && SentFirst(fs, "Content-Length", i)
    requires fs[i].value == Decimal(|body|) && 0 < |body| <= 2147483647
    requires Bytes(script) == ResponseText(line, fs, body) && LineFits(script, line, |Block(fs) + body|)
    ensures Run(ok, Initial(script)).state == Returning && Output(Run(ok, Initial(script))) == body
  {
    hide Run, Block, NoStopIn, IsChunked, DeclaredLength, ParseInt;
    ChunkedExactly(Fields(fs));
    LengthExactly(Fields(fs), |body|);
    IntRoundTrip(|body|);
    assert FirstNamed(Fields(fs), "Content-Length", i);
    ContentLengthEndToEnd(ok, script, line, fs, body);
  }

  /** Neither field: the response returns with the head, and the whole body exactly if it arrived with that. */
  lemma PlainResponse(ok: string -> bool, script: seq<ReadEvent>, line: string, fs: seq<RawField>, body: string)
    requires GoodHead(ok, line, fs) && Delivers(script)
    requires NotSent(fs, "Transfer-Encoding") && NotSent(fs, "Content-Length")
    requires Bytes(script) == ResponseText(line, fs, body) && LineFits(script, line, |Block(fs) + body|)
    ensures Run(ok, Initial(script)).state == Returning
    ensures Output(Run(ok, Initial(script))) == body <==> NoStopIn(script, 1, |body|)
  {
    hide Run, Block, NoStopIn, IsChunked, DeclaredLength;
    ChunkedExactly(Fields(fs));
    LengthExactly(Fields(fs), 0);
    UnframedExact(ok, script, line, fs, body);
  }
}

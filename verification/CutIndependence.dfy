/** Receiving arbitrary bytes, malformed ones included: the incremental client ends where a client that is given
    the whole stream in one read ends, whatever the cut, with two exceptions. */
module CutIndependence {
  import opened CText
  import opened Scanners
  import opened HeaderParser
  import opened ChunkSize
  import opened ResponseMachine
  import opened Delivery
  import opened ChunkedDecoding

  /** Non-empty reads and would-blocks only. */
  predicate OnlyBytes(script: seq<ReadEvent>) {
    forall i :: 0 <= i < |script| ==> script[i].WouldBlock? || (script[i].Data? && script[i].bytes != "")
  }

  /** The same client with everything delivered at once. */
  function Batch(c: Client): Client { c.(buf := Left(c), incoming := []) }

  predicate InChunks(c: Client) { c.state == DecipherChonkiness || c.state == ReadingBodyChunked }

  predicate AtZeroLine(c: Client) {
    c.state == DecipherChonkiness && LineEnd(c.buf) >= 0 && SizeOf(c.buf[..LineEnd(c.buf)]) == Size(0)
  }

  function PastLine(c: Client): Client
    requires LineEnd(c.buf) >= 0
  {
    c.(buf := c.buf[LineEnd(c.buf) + 2..])
  }

  /** The client just behind the first zero-size line its run meets, if it meets one. */
  function ZeroLine(ok: string -> bool, c: Client): Option<Client>
    decreases |c.incoming|, |c.buf|, Rank(c)
  {
    StepProgress(ok, c);
    if AtZeroLine(c) then Some(PastLine(c))
    else if Step(ok, c) == c then None
    else ZeroLine(ok, Step(ok, c))
  }

  /** The bytes behind a complete closing section. */
  function Behind(z: Client): nat {
    if CloseChunks(z).state == Returning then |CloseChunks(z).buf| else 0
  }

  /** No read of `script` ends between the first zero-size line that the run of `whole` meets and the end of
      the closing section behind it. */
  predicate Spares(ok: string -> bool, whole: Client, script: seq<ReadEvent>) {
    match ZeroLine(ok, whole)
    case None => true
    case Some(z) => NoStopIn(script, Behind(z) + 1, |z.buf|)
  }

  predicate Undisturbed(ok: string -> bool, c: Client) { Spares(ok, Batch(c), c.incoming) }

  // ---------------------------------------------------------------------------------------

  lemma BatchOfRead(c: Client, stay: State)
    requires OnlyBytes(c.incoming) && stay == c.state
    ensures Batch(ReadMore(c, stay)) == Batch(c) && OnlyBytes(ReadMore(c, stay).incoming)
    ensures ReadMore(c, stay).state == stay
    ensures c.incoming == [] ==> ReadMore(c, stay) == c
    ensures c.incoming != [] ==> ReadMore(c, stay).incoming == c.incoming[1..]
  {}

  lemma BatchOfDone(c: Client)
    requires Bytes(c.incoming) == ""
    ensures Left(c) == c.buf && Batch(c) == c.(incoming := [])
  {}

  /** The first line, when it has arrived, is the first line of the whole. */
  lemma SameLine(c: Client)
    requires LineEnd(c.buf) >= 0
    ensures var b := Batch(c); var e := LineEnd(c.buf);
            LineEnd(b.buf) == e && b.buf[..e] == c.buf[..e] && PastLine(b) == Batch(PastLine(c))
  {
    LineEndOfPrefix(c.buf, Bytes(c.incoming));
    var e := LineEnd(c.buf);
    assert Left(c)[..e] == c.buf[..e];
    assert Left(c)[e + 2..] == c.buf[e + 2..] + Bytes(c.incoming);
  }

  lemma ZeroLineStep(ok: string -> bool, c: Client)
    requires !AtZeroLine(c)
    ensures ZeroLine(ok, c) == ZeroLine(ok, Step(ok, c))
  {}

  lemma StaysUndisturbed(ok: string -> bool, c: Client, d: Client)
    requires Undisturbed(ok, c) && ZeroLine(ok, Batch(d)) == ZeroLine(ok, Batch(c))
    requires d.incoming == c.incoming || (c.incoming != [] && d.incoming == c.incoming[1..])
    ensures Undisturbed(ok, d)
  {
    hide ZeroLine, CloseChunks;
  }

  lemma DoneIsUndisturbed(ok: string -> bool, d: Client)
    requires Bytes(d.incoming) == ""
    ensures Undisturbed(ok, d)
  {
    hide ZeroLine, CloseChunks, NoStopIn;
    var z := ZeroLine(ok, Batch(d));
    if z.Some? {
      NoStopBelow(d.incoming, Behind(z.value) + 1, |z.value.buf|);
    }
  }

  /** A size line that opens a chunk or is rejected is handled alike. */
  lemma SizeStepOfBatch(ok: string -> bool, c: Client)
    requires c.state == DecipherChonkiness && LineEnd(c.buf) >= 0 && !AtZeroLine(c)
    ensures Step(ok, Batch(c)) == Batch(Step(ok, c)) && !AtZeroLine(Batch(c))
    ensures Step(ok, c).incoming == c.incoming && (InChunks(Step(ok, c)) || !Receiving(Step(ok, c).state))
  {
    hide SizeOf, LineEndFrom;
    SameLine(c);
  }

  /** A complete closing section is complete in every buffer that holds it. */
  lemma ClosingOfBatch(t: Client)
    requires |Bytes(t.incoming)| <= Behind(Batch(t)) && CloseChunks(Batch(t)).state == Returning
    requires t.state == DecipherChonkiness
    ensures CloseChunks(t).state == Returning && Batch(CloseChunks(t)) == CloseChunks(Batch(t))
  {
    hide EndMarkFrom;
    var z := Batch(t);
    HeadersEndOfPrefix(t.buf, Bytes(t.incoming));
    assert |z.buf| == |t.buf| + |Bytes(t.incoming)|;
    if CrlfAt(z.buf, 0) {
      assert CrlfAt(t.buf, 0);
      assert t.buf[2..] + Bytes(t.incoming) == z.buf[2..];
    } else {
      var e := HeadersEnd(z.buf);
      assert HeadersEnd(t.buf) == e && !CrlfAt(t.buf, 0);
      assert t.buf[e + 4..] + Bytes(t.incoming) == z.buf[e + 4..];
    }
  }

  /** Moving chunk data out commutes with delivering more. */
  lemma MoveOfBatch(c: Client)
    requires c.chunkRemaining <= |c.buf|
    ensures Batch(c).chunkRemaining <= |Batch(c).buf| && MoveData(Batch(c)) == Batch(MoveData(c))
  {}

  /** A chunk end that is there, right or wrong, is handled alike. */
  lemma EndOfBatch(m: Client)
    requires |m.buf| >= 2
    ensures EndChunk(Batch(m)) == Batch(EndChunk(m)) && EndChunk(m).incoming == m.incoming
  {}

  /** With the data moved out, the rest of the chunk looks the same from both sides of the move. */
  lemma StepAfterMove(ok: string -> bool, b: Client)
    requires b.state == ReadingBodyChunked && b.chunkRemaining <= |b.buf| && b.chunkRemaining < TWO63
    ensures Step(ok, b) == Step(ok, MoveData(b))
  {}

  // ---------------------------------------------------------------------------------------

  ghost predicate EndsAlike(ok: string -> bool, c: Client) { Batch(Run(ok, c)) == Run(ok, Batch(c)) }

  lemma AlikeByStep(ok: string -> bool, c: Client)
    requires Run(ok, Batch(c)) == Run(ok, Batch(Step(ok, c))) && EndsAlike(ok, Step(ok, c))
    ensures EndsAlike(ok, c)
  {}

  lemma AlikeAtRest(ok: string -> bool, c: Client)
    requires !Receiving(c.state) || (c.incoming == [] && Step(ok, c) == c)
    ensures EndsAlike(ok, c)
  {
    if c.incoming == [] {
      assert c.buf + "" == c.buf;
      assert Batch(c) == c;
    }
  }

  /** Every byte stream, every cut: state, decoded body and unread bytes at the end of the incremental
      run are those of the run that gets the stream at once, provided no read ends inside the closing
      section of the first zero-size chunk, if there is one. */
  lemma {:induction false} CutDoesNotMatter(ok: string -> bool, c: Client)
    requires InChunks(c) && OnlyBytes(c.incoming) && Undisturbed(ok, c)
    ensures Batch(Run(ok, c)) == Run(ok, Batch(c))
    decreases |c.incoming|, |c.buf|, Rank(c), 2
  {
    hide Run;
    if c.state == DecipherChonkiness {
      SizeCut(ok, c);
    } else {
      ChunkCut(ok, c);
    }
  }

  lemma {:induction false} SizeCut(ok: string -> bool, c: Client)
    requires c.state == DecipherChonkiness && OnlyBytes(c.incoming) && Undisturbed(ok, c)
    ensures EndsAlike(ok, c)
    decreases |c.incoming|, |c.buf|, Rank(c), 1
  {
    hide Run, ReadMore, SizeOf, LineEndFrom, Undisturbed, Batch, CloseChunks, ZeroLine;
    StepProgress(ok, c);
    var d := Step(ok, c);
    if LineEnd(c.buf) < 0 {
      BatchOfRead(c, DecipherChonkiness);
      if c.incoming == [] {
        AlikeAtRest(ok, c);
      } else {
        StaysUndisturbed(ok, c, d);
        CutDoesNotMatter(ok, d);
        AlikeByStep(ok, c);
      }
    } else if AtZeroLine(c) {
      ZeroCut(ok, c);
    } else {
      SizeStepOfBatch(ok, c);
      RunStep(ok, Batch(c));
      if InChunks(d) {
        ZeroLineStep(ok, Batch(c));
        StaysUndisturbed(ok, c, d);
        CutDoesNotMatter(ok, d);
      } else {
        AlikeAtRest(ok, d);
      }
      AlikeByStep(ok, c);
    }
  }

  /** What is known at a zero-size line: its closing section is all there, or nothing is outstanding. */
  lemma AtZero(ok: string -> bool, c: Client)
    requires AtZeroLine(c) && Undisturbed(ok, c)
    ensures var t := PastLine(c);
            && Step(ok, c) == CloseChunks(t) && Step(ok, Batch(c)) == CloseChunks(Batch(t))
            && |Bytes(t.incoming)| <= Behind(Batch(t))
  {
    hide CloseChunks, SizeOf, LineEndFrom;
    SameLine(c);
    assert ZeroLine(ok, Batch(c)) == Some(PastLine(Batch(c)));
  }

  /** With nothing outstanding, an incomplete closing section is waited for by both. */
  lemma ClosingOutstanding(t: Client)
    requires t.state == DecipherChonkiness && Bytes(t.incoming) == "" && CloseChunks(Batch(t)).state != Returning
    ensures CloseChunks(t) == ReadMore(t, DecipherChonkiness) && CloseChunks(Batch(t)) == Batch(t)
  {
    hide EndMarkFrom;
    BatchOfDone(t);
  }

  lemma {:induction false} ZeroCut(ok: string -> bool, c: Client)
    requires AtZeroLine(c) && OnlyBytes(c.incoming) && Undisturbed(ok, c)
    ensures EndsAlike(ok, c)
    decreases |c.incoming|, |c.buf|, Rank(c), 0
  {
    hide Run, ReadMore, SizeOf, LineEndFrom, Undisturbed, Batch, CloseChunks, ZeroLine, Step;
    AtZero(ok, c);
    StepProgress(ok, c);
    RunStep(ok, Batch(c));
    var t, d := PastLine(c), Step(ok, c);
    if CloseChunks(Batch(t)).state == Returning {
      ClosingOfBatch(t);
      AlikeAtRest(ok, d);
    } else {
      ClosingOutstanding(t);
      BatchOfRead(t, DecipherChonkiness);
      NothingComes(t);
      DoneIsUndisturbed(ok, d);
      CutDoesNotMatter(ok, d);
    }
    AlikeByStep(ok, c);
  }

  lemma NothingComes(t: Client)
    requires Bytes(t.incoming) == "" && OnlyBytes(t.incoming)
    ensures Bytes(ReadMore(t, DecipherChonkiness).incoming) == ""
    ensures ReadMore(t, DecipherChonkiness).buf == t.buf
  {}

  lemma {:induction false} ChunkCut(ok: string -> bool, c: Client)
    requires c.state == ReadingBodyChunked && OnlyBytes(c.incoming) && Undisturbed(ok, c)
    ensures EndsAlike(ok, c)
    decreases |c.incoming|, |c.buf|, Rank(c), 1
  {
    hide Run, ReadMore, Undisturbed, ZeroLine, EndChunk;
    StepProgress(ok, c);
    var b, d := Batch(c), Step(ok, c);
    var n := c.chunkRemaining;
    RunStep(ok, b);
    if n >= TWO63 {
      AlikeAtRest(ok, d);
      AlikeByStep(ok, c);
    } else if |c.buf| < n {
      BatchOfRead(c, ReadingBodyChunked);
      if c.incoming == [] {
        AlikeAtRest(ok, c);
      } else {
        StaysUndisturbed(ok, c, d);
        CutDoesNotMatter(ok, d);
        AlikeByStep(ok, c);
      }
    } else {
      MovedCut(ok, c);
    }
  }

  /** The data is there and is moved out. */
  lemma {:induction false} MovedCut(ok: string -> bool, c: Client)
    requires c.state == ReadingBodyChunked && c.chunkRemaining <= |c.buf| && c.chunkRemaining < TWO63
    requires OnlyBytes(c.incoming) && Undisturbed(ok, c)
    ensures EndsAlike(ok, c)
    decreases |c.incoming|, |c.buf|, Rank(c), 0
  {
    hide Run, ReadMore, Undisturbed, ZeroLine, Left;
    StepProgress(ok, c);
    var b, d, m := Batch(c), Step(ok, c), MoveData(c);
    RunStep(ok, b);
    ZeroLineStep(ok, b);
    MoveOfBatch(c);
    if |m.buf| >= 2 {
      EndOfBatch(m);
      if InChunks(d) {
        StaysUndisturbed(ok, c, d);
        CutDoesNotMatter(ok, d);
      } else {
        AlikeAtRest(ok, d);
      }
      AlikeByStep(ok, c);
    } else if d == c {
      AlikeAtRest(ok, c);
    } else {
      BatchOfRead(m, ReadingBodyChunked);
      StepAfterMove(ok, b);
      RunStep(ok, Batch(d));
      ZeroLineStep(ok, Batch(d));
      StaysUndisturbed(ok, c, d);
      CutDoesNotMatter(ok, d);
      AlikeByStep(ok, c);
    }
  }

  // ---------------------------------------------------------------------------------------
  // From the first byte on

  /** Reading a plain body: what is there in the end decides. */
  lemma {:induction false} BodyCut(ok: string -> bool, c: Client)
    requires c.state == ReadingBody && OnlyBytes(c.incoming) && |c.buf| < c.contentLength
    ensures Batch(Run(ok, c)) == Batch(c).(state := if |Left(c)| < c.contentLength then ReadingBody else Returning)
    decreases |c.incoming|
  {
    hide Run;
    RunStep(ok, c);
    if c.incoming == [] {
      AlikeAtRest(ok, c);
      WaitsForever(ok, c);
    } else {
      BatchOfRead(c, ReadingBody);
      var r := ReadMore(c, ReadingBody);
      assert |Left(r)| == |r.buf| + |Bytes(r.incoming)|;
      if |r.buf| < r.contentLength {
        BodyCut(ok, r);
      } else {
        RunDone(ok, r.(state := Returning));
      }
    }
  }

  lemma WaitsForever(ok: string -> bool, c: Client)
    requires Step(ok, c) == c
    ensures Run(ok, c) == c
  {}

  /** A header section that is there is parsed alike, and the framing chosen alike. */
  lemma HeadersOfBatch(ok: string -> bool, c: Client)
    requires c.state == ReadingHeaders && HeadersEnd(c.buf) >= 0
    ensures var d, b := Step(ok, c), Step(ok, Batch(c));
            && d.incoming == c.incoming
            && (if d.state == ReadingBody
                then |d.buf| < d.contentLength
                     && b == Batch(d).(state := if |Left(d)| < d.contentLength then ReadingBody else Returning)
                else b == Batch(d) && (d.state == DecipherChonkiness || !Receiving(d.state)))
  {
    hide FieldsOf, EndMarkFrom, IsChunked, DeclaredLength;
    HeadersEndOfPrefix(c.buf, Bytes(c.incoming));
    var e := HeadersEnd(c.buf);
    assert Left(c)[..e + 4] == c.buf[..e + 4];
    assert Left(c)[e + 4..] == c.buf[e + 4..] + Bytes(c.incoming);
  }

  lemma {:induction false} HeadersCut(ok: string -> bool, c: Client)
    requires c.state == ReadingHeaders && OnlyBytes(c.incoming) && Undisturbed(ok, c)
    ensures EndsAlike(ok, c)
    decreases |c.incoming|
  {
    hide Run, ReadMore, EndMarkFrom, Undisturbed, Batch, ZeroLine, FieldsOf, EnterBody;
    var d := Step(ok, c);
    if HeadersEnd(c.buf) < 0 {
      BatchOfRead(c, ReadingHeaders);
      if c.incoming == [] {
        AlikeAtRest(ok, c);
      } else {
        StaysUndisturbed(ok, c, d);
        HeadersCut(ok, d);
        AlikeByStep(ok, c);
      }
    } else {
      BodyEntered(ok, c);
    }
  }

  lemma BodyEntered(ok: string -> bool, c: Client)
    requires c.state == ReadingHeaders && HeadersEnd(c.buf) >= 0 && OnlyBytes(c.incoming) && Undisturbed(ok, c)
    ensures EndsAlike(ok, c)
  {
    hide Run, Undisturbed, Batch, ZeroLine, Step;
    HeadersOfBatch(ok, c);
    RunStep(ok, c);
    RunStep(ok, Batch(c));
    var d := Step(ok, c);
    if d.state == ReadingBody {
      BodyCut(ok, d);
      BodyAtOnce(ok, d);
    } else {
      if d.state == DecipherChonkiness {
        BatchState(c);
        ZeroLineStep(ok, Batch(c));
        StaysUndisturbed(ok, c, d);
        CutDoesNotMatter(ok, d);
      } else {
        AlikeAtRest(ok, d);
      }
      AlikeByStep(ok, c);
    }
  }

  lemma BatchState(c: Client)
    ensures Batch(c).state == c.state && Batch(c).incoming == []
  {}

  lemma BodyAtOnce(ok: string -> bool, d: Client)
    requires d.state == ReadingBody
    ensures var b := Batch(d).(state := if |Left(d)| < d.contentLength then ReadingBody else Returning);
            Run(ok, b) == b
  {}

  /** The client that has read everything with its first read. */
  function AtOnce(ok: string -> bool, c: Client): Client { TakeFirstline(ok, Batch(c)) }

  /** The line that a read can spoil by ending between its CR and LF. */
  predicate LineIsSafe(stream: string, script: seq<ReadEvent>) {
    LineEnd(stream) == 1023 ==> NoStopIn(script, |stream| - 1024, |stream| - 1024)
  }

  /** Still without a line, and not yet too long for one. */
  predicate BeforeLine(c: Client) {
    c.state == ReadingFirstline && LineEnd(c.buf) == -1 && |c.buf| < MAX_FIRSTLINE && OnlyBytes(c.incoming)
  }

  /** What a read that brings bytes leads to, seen from the whole stream. */
  lemma FirstlineOfBatch(ok: string -> bool, r: Client)
    requires r.state == ReadingFirstline
    requires LineIsSafe(Left(r), r.incoming)
    ensures var d := TakeFirstline(ok, r);
            d == r || (AtOnce(ok, r) == Batch(d) && d.incoming == r.incoming && d.state in {ReadingHeaders, Error})
    ensures TakeFirstline(ok, r) == r ==> LineEnd(r.buf) == -1 && |r.buf| < MAX_FIRSTLINE
  {
    hide LineEndFrom;
    assert |Left(r)| == |r.buf| + |Bytes(r.incoming)|;
    LineEndOfPrefix(r.buf, Bytes(r.incoming));
    if LineEnd(r.buf) >= 0 {
      SameLine(r);
    }
  }

  lemma {:induction false} FirstlineCut(ok: string -> bool, c: Client)
    requires BeforeLine(c) && LineIsSafe(Left(c), c.incoming) && Spares(ok, AtOnce(ok, c), c.incoming)
    ensures Batch(Run(ok, c)) == Run(ok, AtOnce(ok, c))
    decreases |c.incoming|
  {
    hide Run, Spares, LineEndFrom, ZeroLine, ReadMore, AtOnce;
    RunStep(ok, c);
    if c.incoming == [] {
      FirstlineAtRest(ok, c);
    } else {
      BatchOfRead(c, ReadingFirstline);
      ReadThenLook(ok, c);
      var r, d := ReadMore(c, ReadingFirstline), Step(ok, c);
      SparesRest(ok, AtOnce(ok, c), c.incoming);
      FirstlineOfBatch(ok, r);
      if d == r {
        FirstlineCut(ok, r);
      } else if d.state == ReadingHeaders {
        HeadersCut(ok, d);
      } else {
        AlikeAtRest(ok, d);
      }
    }
  }

  lemma FirstlineAtRest(ok: string -> bool, c: Client)
    requires BeforeLine(c) && c.incoming == []
    ensures Run(ok, c) == c && Batch(c) == c && AtOnce(ok, c) == c
  {
    assert c.buf + "" == c.buf;
  }

  lemma SparesRest(ok: string -> bool, whole: Client, script: seq<ReadEvent>)
    requires Spares(ok, whole, script) && script != []
    ensures Spares(ok, whole, script[1..])
  {
    hide ZeroLine;
  }

  /** One call reads, and then looks for the line. */
  lemma ReadThenLook(ok: string -> bool, c: Client)
    requires BeforeLine(c) && c.incoming != []
    ensures var r := ReadMore(c, ReadingFirstline);
            Step(ok, c) == TakeFirstline(ok, r) && Left(r) == Left(c) && AtOnce(ok, r) == AtOnce(ok, c)
  {
    hide LineEndFrom;
    BatchOfRead(c, ReadingFirstline);
    var r := ReadMore(c, ReadingFirstline);
    assert Batch(r).buf == Left(r) && Batch(c).buf == Left(c);
    if c.incoming[0].WouldBlock? {
      assert r.buf == c.buf;
    }
  }

  /** One read that brings the whole stream. */
  function OneRead(stream: string): seq<ReadEvent> { if stream == "" then [] else [Data(stream)] }

  /** The first call of the run that gets everything in one read. */
  lemma FirstCall(ok: string -> bool, stream: string)
    ensures Step(ok, Initial(OneRead(stream))) == TakeFirstline(ok, Initial([]).(buf := stream))
  {
    hide LineEndFrom;
    if stream == "" {
    } else {
      assert "" + stream == stream && [Data(stream)][1..] == [];
    }
  }

  lemma FirstRead(ok: string -> bool, script: seq<ReadEvent>)
    ensures var w, a := Initial(OneRead(Bytes(script))), AtOnce(ok, Initial(script));
            Run(ok, w) == Run(ok, a) && Spares(ok, w, script) == Spares(ok, a, script)
  {
    hide Run, ZeroLine, Step, TakeFirstline, OneRead;
    var w := Initial(OneRead(Bytes(script)));
    FirstCall(ok, Bytes(script));
    assert Batch(Initial(script)).buf == Bytes(script);
    RunStep(ok, w);
    ZeroLineStep(ok, w);
  }

  /** Any bytes, well-formed or not, from the first one on, in any cut: state, header fields, decoded body and
      unread bytes at the end are those of the run that gets everything in one read. Two cuts are excepted:
      one between CR and LF of a status line of 1023 bytes, and, in a chunked body, one inside the closing
      section of the first zero-size chunk. */
  lemma OneReadIsEnough(ok: string -> bool, script: seq<ReadEvent>)
    requires OnlyBytes(script) && LineIsSafe(Bytes(script), script)
    requires Spares(ok, Initial(OneRead(Bytes(script))), script)
    ensures Batch(Run(ok, Initial(script))) == Run(ok, Initial(OneRead(Bytes(script))))
  {
    hide Run, Spares, ZeroLine, AtOnce;
    assert "" + Bytes(script) == Bytes(script);
    FirstRead(ok, script);
    FirstlineCut(ok, Initial(script));
  }

  lemma {:induction false} LineIsSplit(ok: string -> bool, c: Client)
    requires BeforeLine(c) && !LineIsSafe(Left(c), c.incoming)
    ensures Run(ok, c).state == Error
    decreases |c.incoming|
  {
    hide Run, LineEndFrom, ReadMore;
    var n := |Left(c)| - 1024;
    assert |Left(c)| == |c.buf| + |Bytes(c.incoming)|;
    RunStep(ok, c);
    BatchOfRead(c, ReadingFirstline);
    ReadThenLook(ok, c);
    var r := ReadMore(c, ReadingFirstline);
    assert |Left(r)| == |r.buf| + |Bytes(r.incoming)|;
    LineEndOfPrefix(r.buf, Bytes(r.incoming));
    if |r.buf| < MAX_FIRSTLINE {
      LineIsSplit(ok, r);
    } else {
      if |r.buf| > MAX_FIRSTLINE {
        NoStopBelow(r.incoming, n, n);
      }
      RunDone(ok, r.(state := Error));
    }
  }

  /** The first exception is one: a read that ends between CR and LF of a line of 1023 bytes makes every response
      an error, whatever the line says. */
  lemma SplitLineFails(ok: string -> bool, script: seq<ReadEvent>)
    requires OnlyBytes(script) && !LineIsSafe(Bytes(script), script)
    ensures Run(ok, Initial(script)).state == Error
  {
    assert "" + Bytes(script) == Bytes(script);
    LineIsSplit(ok, Initial(script));
  }
}

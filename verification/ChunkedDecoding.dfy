/** Chunked framing (section 7.1 of RFC 9112): the decoder of modules/src/http_client.c returns the
    concatenated chunk data for every cut of every well-formed stream, with one exact exception. */
module ChunkedDecoding {
  import opened CText
  import opened Scanners
  import opened ChunkSize
  import opened ResponseMachine
  import opened Delivery

  datatype Chunk = Chunk(digits: string, ext: string, data: string) {
    function Line(): string { digits + ext }
    function Text(): string { Line() + CRLF + (data + CRLF) }
  }

  predicate GoodChunk(k: Chunk) {
    GoodSize(k.digits, k.ext, |k.data|) && k.data != "" && NoCrlf(k.Line())
  }

  /** The zero-size chunk and the trailer fields behind it. */
  datatype Last = Last(zeros: string, ext: string, trailers: seq<string>) {
    function Line(): string { zeros + ext }
    function Closing(): string { ClosingText(trailers) }
    function Text(): string { Line() + CRLF + Closing() }
  }

  predicate GoodLast(l: Last) {
    GoodSize(l.zeros, l.ext, 0) && NoCrlf(l.Line()) && GoodLines(l.trailers)
  }

  predicate GoodChunks(ks: seq<Chunk>) { forall k <- ks :: GoodChunk(k) }

  function BodyText(ks: seq<Chunk>, l: Last): string {
    if ks == [] then l.Text() else ks[0].Text() + BodyText(ks[1..], l)
  }

  function BodyData(ks: seq<Chunk>): string {
    if ks == [] then "" else ks[0].data + BodyData(ks[1..])
  }

  /** A chunked body with `extra` behind it. */
  function Wire(ks: seq<Chunk>, l: Last, extra: string): string {
    if ks == [] then l.Line() + CRLF + (l.Closing() + extra) else ks[0].Text() + Wire(ks[1..], l, extra)
  }

  lemma {:induction false} WireIsBody(ks: seq<Chunk>, l: Last, extra: string)
    ensures Wire(ks, l, extra) == BodyText(ks, l) + extra
  {
    if ks == [] {
      JoinAssoc(l.Line() + CRLF, l.Closing(), extra);
    } else {
      WireIsBody(ks[1..], l, extra);
      JoinAssoc(ks[0].Text(), BodyText(ks[1..], l), extra);
    }
  }

  lemma JoinAssoc(x: string, y: string, z: string)
    ensures x + (y + z) == x + y + z
  {}

  function FirstLine(ks: seq<Chunk>, l: Last): string { if ks == [] then l.Line() else ks[0].Line() }

  function AfterFirstLine(ks: seq<Chunk>, l: Last, extra: string): string {
    if ks == [] then l.Closing() + extra else ks[0].data + CRLF + Wire(ks[1..], l, extra)
  }

  lemma FirstLineSplit(ks: seq<Chunk>, l: Last, extra: string)
    requires GoodChunks(ks) && GoodLast(l)
    ensures Wire(ks, l, extra) == FirstLine(ks, l) + CRLF + AfterFirstLine(ks, l, extra)
    ensures NoCrlf(FirstLine(ks, l))
    ensures ks != [] ==> GoodChunk(ks[0]) && GoodChunks(ks[1..])
    ensures |AfterFirstLine(ks, l, extra)| >= |l.Closing()| + |extra|
  {
    hide GoodSize, GoodLines;
    if ks == [] {
    } else {
      assert GoodChunk(ks[0]);
      ChunkAssoc(ks[0].Line(), ks[0].data, Wire(ks[1..], l, extra));
      ClosingIsLast(ks[1..], l, extra);
    }
  }

  lemma ChunkAssoc(line: string, data: string, rest: string)
    ensures line + CRLF + (data + CRLF) + rest == line + CRLF + (data + CRLF + rest)
  {}

  lemma {:induction false} ClosingIsLast(ks: seq<Chunk>, l: Last, extra: string)
    ensures |Wire(ks, l, extra)| >= |l.Closing()| + |extra|
  {
    if ks == [] {
    } else {
      ClosingIsLast(ks[1..], l, extra);
    }
  }

  // ---------------------------------------------------------------------------------------
  // Single steps

  /** Either the whole line has arrived, or the client is short of it. */
  lemma LineArrival(c: Client, line: string, rest: string)
    requires NoCrlf(line) && Left(c) == line + CRLF + rest
    ensures |c.buf| < |line| + 2 ==> LineEnd(c.buf) == -1 && Bytes(c.incoming) != ""
    ensures |c.buf| >= |line| + 2 ==>
              LineEnd(c.buf) == |line| && c.buf[..|line|] == line && Left(c.(buf := c.buf[|line| + 2..])) == rest
  {
    LineEndAfter(line, rest);
    LineEndOfPrefix(c.buf, Bytes(c.incoming));
    if |c.buf| >= |line| + 2 {
      assert c.buf[..|line|] == Left(c)[..|line|];
      assert c.buf[|line| + 2..] + Bytes(c.incoming) == Left(c)[|line| + 2..];
    }
  }

  /** An incomplete size line is waited for. */
  lemma WaitForLine(ok: string -> bool, c: Client)
    requires c.state == DecipherChonkiness && LineEnd(c.buf) == -1
    ensures Run(ok, c) == Run(ok, ReadMore(c, DecipherChonkiness))
  {}

  /** A complete size line of a data chunk opens the chunk. */
  lemma OpenChunk(ok: string -> bool, c: Client, digits: string, ext: string, val: nat)
    requires c.state == DecipherChonkiness && LineEnd(c.buf) == |digits + ext|
    requires c.buf[..|digits + ext|] == digits + ext && GoodSize(digits, ext, val) && val > 0
    ensures Run(ok, c) == Run(ok, c.(state := ReadingBodyChunked, buf := c.buf[|digits + ext| + 2..],
                                     chunkRemaining := val))
  {
    hide Run, SizeOf, LineEndFrom, HexValue, Remaining;
    RunStep(ok, c);
    GoodSizeIsRead(digits, ext, val);
  }

  /** A complete zero-size line is taken off before the closing section is looked at. */
  lemma OpenClosing(ok: string -> bool, c: Client, digits: string, ext: string)
    requires c.state == DecipherChonkiness && LineEnd(c.buf) == |digits + ext|
    requires c.buf[..|digits + ext|] == digits + ext && GoodSize(digits, ext, 0)
    ensures Run(ok, c) == Run(ok, CloseChunks(c.(buf := c.buf[|digits + ext| + 2..])))
  {
    hide Run, CloseChunks, SizeOf, LineEndFrom, HexValue, Remaining;
    RunStep(ok, c);
    GoodSizeIsRead(digits, ext, 0);
  }

  /** With the whole closing section in the buffer the response is complete. */
  lemma ClosingDone(c: Client, trailers: seq<string>, more: string)
    requires GoodLines(trailers) && c.buf == ClosingText(trailers) + more
    ensures CloseChunks(c) == c.(state := Returning, buf := more)
  {
    if trailers == [] {
      assert c.buf == CRLF + more;
    } else {
      EndMarkAfterLines(trailers, more);
      assert Lines(trailers) + CRLF + more == c.buf;
    }
  }

  lemma WaitForData(ok: string -> bool, c: Client)
    requires c.state == ReadingBodyChunked && |c.buf| < c.chunkRemaining < TWO63
    ensures Run(ok, c) == Run(ok, ReadMore(c, ReadingBodyChunked))
  {}

  function MoveData(c: Client): Client
    requires c.chunkRemaining <= |c.buf|
  {
    c.(decoded := c.decoded + c.buf[..c.chunkRemaining], buf := c.buf[c.chunkRemaining..], chunkRemaining := 0)
  }

  /** With all the data there, it is moved out; the CRLF may still be on its way. */
  lemma TakeData(ok: string -> bool, c: Client)
    requires c.state == ReadingBodyChunked && c.chunkRemaining <= |c.buf| && c.chunkRemaining < TWO63
    ensures |MoveData(c).buf| < 2 ==> Run(ok, c) == Run(ok, ReadMore(MoveData(c), ReadingBodyChunked))
    ensures CrlfAt(MoveData(c).buf, 0) ==>
              Run(ok, c) == Run(ok, MoveData(c).(state := DecipherChonkiness, buf := MoveData(c).buf[2..]))
  {}

  /** The data and the CRLF behind it, seen from the buffer. */
  lemma DataArrival(c: Client, data: string, rest: string)
    requires Left(c) == data + CRLF + rest && |data| <= |c.buf|
    ensures c.buf[..|data|] == data
    ensures |c.buf| < |data| + 2 ==> Left(c.(buf := c.buf[|data|..])) == CRLF + rest && Bytes(c.incoming) != ""
    ensures |c.buf| >= |data| + 2 ==> CrlfAt(c.buf[|data|..], 0) && Left(c.(buf := c.buf[|data|..][2..])) == rest
  {
    assert c.buf[..|data|] == Left(c)[..|data|];
    assert c.buf[|data|..] + Bytes(c.incoming) == Left(c)[|data|..];
    assert Left(c)[|data|..] == CRLF + rest;
    if |c.buf| >= |data| + 2 {
      assert c.buf[|data|..][0] == Left(c)[|data|] && c.buf[|data|..][1] == Left(c)[|data| + 1];
      assert c.buf[|data|..][2..] + Bytes(c.incoming) == Left(c)[|data| + 2..];
    }
  }

  // ---------------------------------------------------------------------------------------
  // Whole runs

  /** What a closing section with trailer lines `ts` looks like on the wire. */
  function ClosingText(ts: seq<string>): string { Lines(ts) + CRLF }

  /** What becomes of a closing section: it survives the cut, or it is lost at the trailer lines `at`,
      of which the first is then read as a chunk-size line. */
  datatype Fate = Survived | Lost(at: seq<string>)

  /** The fate of the closing section with trailer lines `ts` and `extra` bytes behind it under the reads to
      come. While more than the section is outstanding, reads do no harm. If one ends inside it, the
      zero-size line before it is already gone, the next event is taken, and the section is read on as
      size lines: a first line that reads as zero opens another closing section behind it. */
  function FateOf(script: seq<ReadEvent>, ts: seq<string>, extra: nat): Fate
    decreases |script|, 0
  {
    var u := |Bytes(script)|;
    if u <= extra then Survived
    else if u > |ClosingText(ts)| + extra then FateOf(script[1..], ts, extra)
    else FateBehind(script[1..], ts, extra)
  }

  /** The same once the zero-size line of the section is gone. */
  function FateBehind(script: seq<ReadEvent>, ts: seq<string>, extra: nat): Fate
    decreases |script|, 1
  {
    if ts != [] && SizeOf(ts[0]) == Size(0) then FateOf(script, ts[1..], extra) else Lost(ts)
  }

  /** The section comes through the reads. */
  predicate Survives(script: seq<ReadEvent>, ts: seq<string>, extra: nat) { FateOf(script, ts, extra).Survived? }

  /** The first line does not start a number at all. */
  predicate DeadEnd(ts: seq<string>) { ts == [] || SizeOf(ts[0]) == BadSize }

  /** The first line overruns the line buffer, or reads as a size that is negative as an `int`. */
  predicate Overruns(ts: seq<string>) { ts != [] && Spoils(SizeOf(ts[0])) }

  /** The first line reads as a size of which nothing is left in 32 bits. */
  predicate Hollow(ts: seq<string>) { ts != [] && SizeOf(ts[0]).Size? && Remaining(SizeOf(ts[0]).val) == 0 }

  /** A hollow chunk at the very end of a section: its missing CRLF is the end of the section, and the client goes
      on with `extra` as if that were chunked. */
  predicate Leaks(ts: seq<string>, extra: string) { Hollow(ts) && |ts| == 1 && extra != "" }

  /** How a run ends. With the data and with `extra` left over, none of it read exactly if a read ended where the
      response ends. Or, when the section was lost, without a response or with more than was sent as data: in
      an error if its first line starts no number or is a hollow chunk with more lines behind it, in undefined
      behaviour if it overruns. */
  ghost predicate Outcome(e: Client, out: string, f: Fate, extra: string, alone: bool) {
    match f
    case Survived => e.state == Returning && e.decoded == out && Left(e) == extra && (e.buf == "" <==> alone)
    case Lost(at) =>
      && (!Leaks(at, extra) ==> e.state == Returning ==> |e.decoded| > |out|)
      && (DeadEnd(at) || (Hollow(at) && |at| > 1) ==> e.state == Error)
      && (Overruns(at) ==> e.state == Undefined)
  }

  /** Some read ends with exactly `n` bytes to come. */
  ghost predicate StopsAt(script: seq<ReadEvent>, n: nat) { !NoStopIn(script, n, n) }

  ghost predicate Verdict(ok: string -> bool, c: Client, out: string, ts: seq<string>, extra: string) {
    Outcome(Run(ok, c), out, FateOf(c.incoming, ts, |extra|), extra, StopsAt(c.incoming, |extra|))
  }

  lemma VerdictOfLater(ok: string -> bool, c: Client, d: Client, out: string, ts: seq<string>, extra: string)
    requires Run(ok, c) == Run(ok, d) && c.incoming != [] && d.incoming == c.incoming[1..]
    requires |Bytes(c.incoming)| > |ClosingText(ts)| + |extra| && Verdict(ok, d, out, ts, extra)
    ensures Verdict(ok, c, out, ts, extra)
  {
    hide Run, Outcome, FateBehind;
  }

  // ---------------------------------------------------------------------------------------
  // The closing section

  /** A closing section of which bytes are still to come is not recognised. */
  lemma ClosingIncomplete(d: Client, ts: seq<string>, extra: string)
    requires GoodLines(ts) && Left(d) == ClosingText(ts) + extra && |Bytes(d.incoming)| > |extra|
    ensures CloseChunks(d) == ReadMore(d, DecipherChonkiness)
  {
    hide EndMarkFrom;
    HeadersEndOfPrefix(d.buf, Bytes(d.incoming));
    assert |Left(d)| == |d.buf| + |Bytes(d.incoming)|;
    if ts == [] {
      assert |ClosingText(ts)| == 2;
    } else {
      EndMarkAfterLines(ts, extra);
      assert Lines(ts) + CRLF + extra == Left(d);
      assert CrlfAt(d.buf, 0) ==> CrlfAt(Left(d), 0);
    }
  }

  /** The zero-size line is gone and its closing section is next. */
  lemma {:induction false} CloseFromZero(ok: string -> bool, d: Client, ts: seq<string>, extra: string)
    requires d.state == DecipherChonkiness && GoodLines(ts) && Left(d) == ClosingText(ts) + extra
    requires Delivers(d.incoming)
    ensures Outcome(Run(ok, CloseChunks(d)), d.decoded, FateOf(d.incoming, ts, |extra|), extra,
                    StopsAt(d.incoming, |extra|))
    decreases |d.incoming|, |d.buf|, 1
  {
    hide Run, ReadMore, SizeOf, CloseChunks, FateBehind;
    assert |Left(d)| == |d.buf| + |Bytes(d.incoming)|;
    if |Bytes(d.incoming)| <= |extra| {
      var more := extra[..|extra| - |Bytes(d.incoming)|];
      assert d.buf == Left(d)[..|d.buf|] == ClosingText(ts) + more;
      ClosingDone(d, ts, more);
      RunDone(ok, d.(state := Returning, buf := more));
      if |Bytes(d.incoming)| < |extra| {
        NoStopBelow(d.incoming, |extra|, |extra|);
      }
    } else {
      ClosingIncomplete(d, ts, extra);
      ReadDelivers(d, DecipherChonkiness);
      ClosingAsSizes(ok, ReadMore(d, DecipherChonkiness), ts, extra);
    }
  }

  /** A size line that has arrived, whatever it says. */
  lemma SizeLineTaken(ok: string -> bool, c: Client, line: string)
    requires c.state == DecipherChonkiness && LineEnd(c.buf) == |line| && c.buf[..|line|] == line
    ensures var t := c.(buf := c.buf[|line| + 2..]);
            match SizeOf(line)
            case BadSize => Run(ok, c) == c.(state := Error)
            case Overflows => Run(ok, c) == c.(state := Undefined)
            case Size(val) =>
              Run(ok, c) == if val == 0 then Run(ok, CloseChunks(t))
                            else Run(ok, t.(state := ReadingBodyChunked, chunkRemaining := Remaining(val)))
  {
    hide Run, SizeOf, CloseChunks, LineEndFrom, Remaining;
    RunStep(ok, c);
    RunDone(ok, c.(state := Error));
    RunDone(ok, c.(state := Undefined));
  }

  /** Where a size line is due, a line that does not start a number is an error, whatever follows it: the
      CRLF of a lost closing section, or its first trailer field. */
  lemma {:induction false} LostZeroLine(ok: string -> bool, c: Client, line: string, rest: string)
    requires c.state == DecipherChonkiness && NoCrlf(line) && Left(c) == line + CRLF + rest && Delivers(c.incoming)
    requires SizeOf(line) == BadSize
    ensures Run(ok, c).state == Error
    decreases |c.incoming|
  {
    hide Run, ReadMore, SizeOf;
    LineArrival(c, line, rest);
    if |c.buf| < |line| + 2 {
      WaitForLine(ok, c);
      ReadDelivers(c, DecipherChonkiness);
      LostZeroLine(ok, ReadMore(c, DecipherChonkiness), line, rest);
    } else {
      SizeLineTaken(ok, c, line);
    }
  }

  /** A closing section whose zero-size line was lost, read as size lines. */
  lemma {:induction false} ClosingAsSizes(ok: string -> bool, c: Client, ts: seq<string>, extra: string)
    requires c.state == DecipherChonkiness && GoodLines(ts) && Left(c) == ClosingText(ts) + extra
    requires Delivers(c.incoming)
    ensures Outcome(Run(ok, c), c.decoded, FateBehind(c.incoming, ts, |extra|), extra, StopsAt(c.incoming, |extra|))
    decreases |c.incoming|, |c.buf|, 0
  {
    hide Run, ReadMore, SizeOf, CloseChunks, Remaining, Outcome;
    var line := if ts == [] then "" else ts[0];
    var rest := if ts == [] then extra else ClosingText(ts[1..]) + extra;
    ClosingFirstLine(ts, line, rest, extra);
    LineArrival(c, line, rest);
    assert |Left(c)| == |c.buf| + |Bytes(c.incoming)|;
    if |c.buf| < |line| + 2 {
      WaitForLine(ok, c);
      ReadDelivers(c, DecipherChonkiness);
      ClosingAsSizes(ok, ReadMore(c, DecipherChonkiness), ts, extra);
    } else {
      SizeLineTaken(ok, c, line);
      var t := c.(buf := c.buf[|line| + 2..]);
      if ts != [] && SizeOf(line) == Size(0) {
        CloseFromZero(ok, t, ts[1..], extra);
      } else {
        EmptyIsBad();
        if SizeOf(line).Size? {
          LostInChunk(ok, t.(state := ReadingBodyChunked, chunkRemaining := Remaining(SizeOf(line).val)), ts, extra);
        }
        LostAt(Run(ok, c), c.decoded, ts, extra, StopsAt(c.incoming, |extra|));
      }
    }
  }

  /** What the line at which a section is lost says decides the outcome. */
  lemma LostAt(e: Client, out: string, ts: seq<string>, extra: string, alone: bool)
    requires ts == [] || SizeOf(ts[0]) == BadSize ==> e.state == Error
    requires ts != [] && SizeOf(ts[0]) == Overflows ==> e.state == Undefined
    requires ts != [] && SizeOf(ts[0]).Size? ==>
               && (!Leaks(ts, extra) ==> e.state == Returning ==> |e.decoded| > |out|)
               && (Hollow(ts) && |ts| > 1 ==> e.state == Error)
               && (Overruns(ts) ==> e.state == Undefined)
    ensures Outcome(e, out, Lost(ts), extra, alone)
  {
    hide SizeOf, Remaining;
  }

  /** The line was a non-zero size: the chunk it opens is undefined, brings bytes, or is hollow. */
  lemma LostInChunk(ok: string -> bool, d: Client, ts: seq<string>, extra: string)
    requires ts != [] && GoodLines(ts[1..]) && Delivers(d.incoming) && Left(d) == ClosingText(ts[1..]) + extra
    requires SizeOf(ts[0]).Size? && d.state == ReadingBodyChunked && d.chunkRemaining == Remaining(SizeOf(ts[0]).val)
    ensures !Leaks(ts, extra) ==> Run(ok, d).state == Returning ==> |Run(ok, d).decoded| > |d.decoded|
    ensures Hollow(ts) && |ts| > 1 ==> Run(ok, d).state == Error
    ensures Overruns(ts) ==> Run(ok, d).state == Undefined
  {
    hide Run, SizeOf, Remaining, Lines, GoodLines;
    if d.chunkRemaining >= TWO63 {
      HugeChunk(ok, d);
    } else if d.chunkRemaining > 0 {
      RunOwes(ok, d, |d.decoded|);
    } else {
      var e := EmptyChunkInClosing(ok, d, ts[1..], extra);
      if |ts| == 1 && extra == "" {
        NothingToReturn(ok, e);
      }
    }
  }

  lemma EmptyIsBad()
    ensures SizeOf("") == BadSize
  {}

  lemma ClosingFirstLine(ts: seq<string>, line: string, rest: string, extra: string)
    requires GoodLines(ts) && line == (if ts == [] then "" else ts[0])
    requires rest == if ts == [] then extra else ClosingText(ts[1..]) + extra
    ensures ClosingText(ts) + extra == line + CRLF + rest && NoCrlf(line)
    ensures ts != [] ==> GoodLines(ts[1..])
  {
    if ts == [] {
      assert ClosingText(ts) == CRLF;
    } else {
      assert ts[0] in ts && forall l <- ts[1..] :: l in ts;
      TailAssoc(ts[0] + CRLF, Lines(ts[1..]), extra);
    }
  }

  lemma TailAssoc(head: string, tail: string, extra: string)
    ensures head + tail + CRLF + extra == head + (tail + CRLF + extra)
  {}

  /** More than `n` bytes decoded, or a chunk open that will bring some before anything is returned. */
  predicate Owes(c: Client, n: nat) {
    || |c.decoded| > n
    || (c.state == ReadingBodyChunked && c.chunkRemaining > 0)
    || c.state in {Error, Undefined}
  }

  lemma StepOwes(ok: string -> bool, c: Client, n: nat)
    requires Owes(c, n) && |c.decoded| >= n
    ensures Owes(Step(ok, c), n) && |Step(ok, c).decoded| >= n
  {
    hide LineEndFrom, EndMarkFrom, SizeOf;
  }

  lemma {:induction false} RunOwes(ok: string -> bool, c: Client, n: nat)
    requires Owes(c, n) && |c.decoded| >= n
    ensures Run(ok, c).state == Returning ==> |Run(ok, c).decoded| > n
    decreases |c.incoming|, |c.buf|, Rank(c)
  {
    hide Step, Smaller;
    StepProgress(ok, c);
    StepOwes(ok, c, n);
    var d := Step(ok, c);
    if d == c {
    } else {
      SmallerMeans(d, c);
      RunOwes(ok, d, n);
    }
  }

  /** A trailer line that reads as a size with low half zero leaves a CRLF to be missed: another trailer is an
      error in its place, and the end of the section is taken for it. */
  lemma {:induction false} EmptyChunkInClosing(ok: string -> bool, c: Client, ts: seq<string>, extra: string)
    returns (d: Client)
    requires c.state == ReadingBodyChunked && c.chunkRemaining == 0
    requires GoodLines(ts) && Left(c) == ClosingText(ts) + extra && Delivers(c.incoming)
    ensures ts != [] ==> Run(ok, c).state == Error
    ensures ts == [] ==> Run(ok, c) == Run(ok, d) && d.state == DecipherChonkiness && Left(d) == extra
                         && d.decoded == c.decoded && Delivers(d.incoming)
    decreases |c.incoming|
  {
    hide Run, ReadMore, EndChunk, Lines;
    assert |Left(c)| == |c.buf| + |Bytes(c.incoming)|;
    EmptyChunkStep(ok, c);
    d := c;
    if |c.buf| < 2 {
      ReadDelivers(c, ReadingBodyChunked);
      d := EmptyChunkInClosing(ok, ReadMore(c, ReadingBodyChunked), ts, extra);
    } else {
      ClosingStart(c, ts, extra);
      if CrlfAt(c.buf, 0) {
        d := c.(state := DecipherChonkiness, buf := c.buf[2..]);
      } else {
        RunDone(ok, c.(state := Error));
      }
    }
  }

  lemma EmptyChunkStep(ok: string -> bool, c: Client)
    requires c.state == ReadingBodyChunked && c.chunkRemaining == 0
    ensures Run(ok, c) == Run(ok, if |c.buf| < 2 then ReadMore(c, ReadingBodyChunked)
                                  else if CrlfAt(c.buf, 0) then c.(state := DecipherChonkiness, buf := c.buf[2..])
                                  else c.(state := Error))
  {
    hide Run, ReadMore;
    RunStep(ok, c);
    assert c.buf[..0] == "" && c.decoded + "" == c.decoded && c.buf[0..] == c.buf;
  }

  /** Only a closing section without trailers starts with CRLF, and then it is nothing else. */
  lemma ClosingStart(c: Client, ts: seq<string>, extra: string)
    requires GoodLines(ts) && Left(c) == ClosingText(ts) + extra && |c.buf| >= 2
    ensures CrlfAt(c.buf, 0) <==> ts == []
    ensures ts == [] ==> Left(c.(buf := c.buf[2..])) == extra
  {
    hide EndMarkFrom;
    assert CrlfAt(c.buf, 0) <==> CrlfAt(Left(c), 0);
    if ts == [] {
      assert Left(c) == CRLF + extra;
      assert c.buf[2..] + Bytes(c.incoming) == Left(c)[2..];
    } else {
      EndMarkAfterLines(ts, extra);
    }
  }

  /** With no bytes left at all, waiting for a size line never returns. */
  lemma {:induction false} NothingToReturn(ok: string -> bool, c: Client)
    requires c.state == DecipherChonkiness && Left(c) == ""
    ensures Run(ok, c).state != Returning
    decreases |c.incoming|
  {
    assert |Left(c)| == |c.buf| + |Bytes(c.incoming)|;
    var d := ReadMore(c, DecipherChonkiness);
    assert Step(ok, c) == d;
    if c.incoming == [] {
    } else {
      RunStep(ok, c);
      hide Run;
      ReadKeepsLeft(c, DecipherChonkiness);
      if d.state == DecipherChonkiness {
        NothingToReturn(ok, d);
      } else {
        RunDone(ok, d);
      }
    }
  }

  // ---------------------------------------------------------------------------------------
  // The body

  /** From a chunk boundary. */
  lemma {:induction false} DecodeFromSize(ok: string -> bool, c: Client, ks: seq<Chunk>, l: Last, extra: string)
    requires c.state == DecipherChonkiness
    requires GoodChunks(ks) && GoodLast(l) && Left(c) == Wire(ks, l, extra)
    requires Delivers(c.incoming)
    ensures Verdict(ok, c, c.decoded + BodyData(ks), l.trailers, extra)
    decreases |c.incoming|, |c.buf|
  {
    hide Run, ReadMore, CloseChunks, HexValue, FateOf, Outcome;
    var line, rest := FirstLine(ks, l), AfterFirstLine(ks, l, extra);
    FirstLineSplit(ks, l, extra);
    LineArrival(c, line, rest);
    if |c.buf| < |line| + 2 {
      WaitForLine(ok, c);
      ReadDelivers(c, DecipherChonkiness);
      var d := ReadMore(c, DecipherChonkiness);
      DecodeFromSize(ok, d, ks, l, extra);
      assert |Left(c)| == |c.buf| + |Bytes(c.incoming)|;
      VerdictOfLater(ok, c, d, c.decoded + BodyData(ks), l.trailers, extra);
    } else if ks == [] {
      OpenClosing(ok, c, l.zeros, l.ext);
      CloseFromZero(ok, c.(buf := c.buf[|line| + 2..]), l.trailers, extra);
      assert c.decoded + BodyData(ks) == c.decoded;
    } else {
      OpenChunk(ok, c, ks[0].digits, ks[0].ext, |ks[0].data|);
      DecodeFromChunk(ok, c.(state := ReadingBodyChunked, buf := c.buf[|line| + 2..], chunkRemaining := |ks[0].data|),
                      ks[0].data, ks[1..], l, extra);
      assert c.decoded + ks[0].data + BodyData(ks[1..]) == c.decoded + BodyData(ks);
    }
  }

  /** From inside a chunk; no data left means only its CRLF is pending. */
  lemma {:induction false} DecodeFromChunk(ok: string -> bool, c: Client, data: string, ks: seq<Chunk>, l: Last,
                                           extra: string)
    requires c.state == ReadingBodyChunked && c.chunkRemaining == |data| < TWO31
    requires GoodChunks(ks) && GoodLast(l) && Left(c) == data + CRLF + Wire(ks, l, extra)
    requires Delivers(c.incoming)
    ensures Verdict(ok, c, c.decoded + data + BodyData(ks), l.trailers, extra)
    decreases |c.incoming|, |c.buf|
  {
    hide Run, ReadMore, HexValue, FateOf, Outcome;
    ClosingIsLast(ks, l, extra);
    assert |Left(c)| == |c.buf| + |Bytes(c.incoming)|;
    var out := c.decoded + data + BodyData(ks);
    if |c.buf| < |data| {
      WaitForData(ok, c);
      ReadDelivers(c, ReadingBodyChunked);
      DecodeFromChunk(ok, ReadMore(c, ReadingBodyChunked), data, ks, l, extra);
      VerdictOfLater(ok, c, ReadMore(c, ReadingBodyChunked), out, l.trailers, extra);
    } else {
      DataArrival(c, data, Wire(ks, l, extra));
      TakeData(ok, c);
      var d := MoveData(c);
      if |d.buf| < 2 {
        assert Left(d) == "" + CRLF + Wire(ks, l, extra);
        ReadDelivers(d, ReadingBodyChunked);
        DecodeFromChunk(ok, ReadMore(d, ReadingBodyChunked), "", ks, l, extra);
        assert c.decoded + data + "" == c.decoded + data;
        VerdictOfLater(ok, c, ReadMore(d, ReadingBodyChunked), out, l.trailers, extra);
      } else {
        DecodeFromSize(ok, d.(state := DecipherChonkiness, buf := d.buf[2..]), ks, l, extra);
      }
    }
  }

  lemma {:induction false} SkipsKeepsFate(a: seq<ReadEvent>, b: seq<ReadEvent>, n: nat, ts: seq<string>, extra: nat)
    requires Skips(a, b, n) && |ClosingText(ts)| + extra <= n
    ensures FateOf(a, ts, extra) == FateOf(b, ts, extra)
    decreases |a|
  {
    if a == b {
    } else {
      SkipsKeepsFate(a[1..], b, n, ts, extra);
    }
  }

  /** No read ends inside the closing section. */
  ghost predicate Uncut(script: seq<ReadEvent>, ts: seq<string>, extra: nat) {
    NoStopIn(script, extra + 1, extra + |ClosingText(ts)|)
  }

  /** An uncut section survives. Unless its first line reads as zero, a cut one is lost right there. */
  lemma {:induction false} FateOfUncut(script: seq<ReadEvent>, ts: seq<string>, extra: nat)
    ensures Uncut(script, ts, extra) ==> Survives(script, ts, extra)
    ensures (ts == [] || SizeOf(ts[0]) != Size(0)) && !Uncut(script, ts, extra) ==>
              FateOf(script, ts, extra) == Lost(ts)
    decreases |script|
  {
    if |Bytes(script)| <= extra {
      NoStopBelow(script, extra + 1, extra + |ClosingText(ts)|);
    } else {
      FateOfUncut(script[1..], ts, extra);
    }
  }

  /** Split independence: every cut of every well-formed chunked body decodes to the concatenated
      chunk data, provided no read ends inside the closing section. */
  lemma ChunkedBodyDecodes(ok: string -> bool, c: Client, ks: seq<Chunk>, l: Last)
    requires c.state == DecipherChonkiness && Delivers(c.incoming)
    requires GoodChunks(ks) && GoodLast(l) && Left(c) == BodyText(ks, l)
    requires NoStopIn(c.incoming, 1, |l.Closing()|)
    ensures var e := Run(ok, c);
            e.state == Returning && e.decoded == c.decoded + BodyData(ks) && e.buf == ""
  {
    WireIsBody(ks, l, "");
    assert BodyText(ks, l) + "" == BodyText(ks, l);
    DecodeFromSize(ok, c, ks, l, "");
    FateOfUncut(c.incoming, l.trailers, 0);
  }

  /** The exact outcome, for every cut, every trailer section and any bytes behind the response: the data when
      the closing section survives, and what `Outcome` says when it is lost. Unless its first line reads as
      zero, it survives exactly when no read ends inside it, and otherwise it is lost at its first line: in an
      error exactly then if that line starts no number, in undefined behaviour exactly then if it overruns. */
  lemma ChunkedBodyExact(ok: string -> bool, c: Client, ks: seq<Chunk>, l: Last, extra: string)
    requires c.state == DecipherChonkiness && Delivers(c.incoming)
    requires GoodChunks(ks) && GoodLast(l) && Left(c) == BodyText(ks, l) + extra
    ensures Verdict(ok, c, c.decoded + BodyData(ks), l.trailers, extra)
    ensures var e, f := Run(ok, c), FateOf(c.incoming, l.trailers, |extra|);
            f.Survived? || !Leaks(f.at, extra) ==>
              (e.state == Returning && e.decoded == c.decoded + BodyData(ks) <==> f.Survived?)
    ensures l.trailers == [] || SizeOf(l.trailers[0]) != Size(0) ==>
              (Survives(c.incoming, l.trailers, |extra|) <==> Uncut(c.incoming, l.trailers, |extra|))
    ensures DeadEnd(l.trailers) ==> (Run(ok, c).state == Error <==> !Uncut(c.incoming, l.trailers, |extra|))
    ensures Overruns(l.trailers) ==> (Run(ok, c).state == Undefined <==> !Uncut(c.incoming, l.trailers, |extra|))
  {
    hide Run, FateOf, Uncut, SizeOf, Remaining;
    WireIsBody(ks, l, extra);
    DecodeFromSize(ok, c, ks, l, extra);
    FateOfUncut(c.incoming, l.trailers, |extra|);
    ZeroSpoilsNothing();
  }
}

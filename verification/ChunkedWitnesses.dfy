/** Chunked streams on which a read ends inside the closing section: the smallest failing cut, one that happens to
    succeed, one that returns trailer text as the body, and a family that leaves defined behaviour; and what
    becomes of the bytes behind an empty body. */
module ChunkedWitnesses {
  import opened CText
  import opened Scanners
  import opened ChunkSize
  import opened ResponseMachine
  import opened Delivery
  import opened ChunkedDecoding

  /** A client at the start of a chunked body with these reads to come. */
  function AtBody(events: seq<ReadEvent>): Client {
    Initial(events).(state := DecipherChonkiness)
  }

  lemma ZeroIsGood(ext: string)
    requires ext == "" || EndsSize(ext[0])
    ensures GoodSize("0", ext, 0)
  {
    assert "0"[..0] == "";
    assert HexValue("") == 0;
  }

  lemma TwoReads(first: string, second: string)
    ensures Bytes([Data(first), Data(second)]) == first + second
    ensures Bytes([Data(second)]) == second
    ensures [Data(first), Data(second)][1..] == [Data(second)] && [Data(second)][1..] == []
  {
    var both, last := [Data(first), Data(second)], [Data(second)];
    assert both[1..] == last && last[1..] == [];
    assert second + "" == second;
    assert Bytes(last) == second && Bytes(both) == first + Bytes(both[1..]);
  }

  /** The smallest failing cut: an empty chunked body whose two halves arrive in two reads. */
  lemma CutInsideClosingFails(ok: string -> bool)
    ensures Run(ok, AtBody([Data("0\r\n"), Data("\r\n")])).state == Error
    ensures Run(ok, AtBody([Data("0\r\n\r\n")])).state == Returning
  {
    hide Run, SizeOf, GoodSize;
    var l := Last("0", "", []);
    assert l.Line() == "0" && l.Closing() == CRLF && l.Text() == "0\r\n\r\n";
    ZeroIsGood("");
    var split, whole := [Data("0\r\n"), Data("\r\n")], [Data("0\r\n\r\n")];
    TwoReads("0\r\n", "\r\n");
    TwoReads("", "0\r\n\r\n");
    assert !NoStopIn(split[1..], 1, 2) && !NoStopIn(split, 1, 2);
    assert NoStopIn(whole, 1, 2);
    assert BodyText([], l) + "" == BodyText([], l);
    ChunkedBodyExact(ok, AtBody(split), [], l, "");
    ChunkedBodyDecodes(ok, AtBody(whole), [], l);
  }

  /** A trailer line that does not fit the line buffer: when the zero-size line arrives alone, the client takes
      the trailer for a size line and leaves defined behaviour. */
  lemma TrailerOverruns(ok: string -> bool, line: string)
    requires NoCrlf(line) && SizeFieldLength(line) >= 48
    ensures var l := Last("0", "", [line]);
            var events := [Data("0\r\n"), Data(l.Closing())];
            GoodLast(l) && Bytes(events) == BodyText([], l) && Delivers(events)
            && Run(ok, AtBody(events)).state == Undefined
  {
    hide Run, SizeFieldLength, GoodSize;
    var l := Last("0", "", [line]);
    ZeroIsGood("");
    OneTrailer(l.trailers, line);
    TwoReads("0\r\n", l.Closing());
    var events := [Data("0\r\n"), Data(l.Closing())];
    assert events[1..] == [Data(l.Closing())] && |l.Closing()| >= 2;
    assert !NoStopIn(events[1..], 1, |l.Closing()|) && Delivers(events[1..]);
    assert BodyText([], l) + "" == BodyText([], l);
    ChunkedBodyExact(ok, AtBody(events), [], l, "");
  }

  /** What follows an empty response is handed over as its body. */
  lemma NextResponseAsBody(ok: string -> bool, extra: string)
    ensures var e := Run(ok, AtBody([Data("0\r\n\r\n" + extra)])); e.state == Returning && Output(e) == extra
  {
    hide Run, GoodSize;
    var text := "0\r\n\r\n" + extra;
    TwoReads("", text);
    var c := AtBody([Data(text)]);
    WaitForLine(ok, c);
    var c1 := ReadMore(c, DecipherChonkiness);
    assert c1.buf == "0" + CRLF + (CRLF + extra);
    LineEndAfter("0", CRLF + extra);
    ZeroIsGood("");
    assert "0" + "" == "0" && c1.buf[..1] == "0" && c1.buf[3..] == CRLF + extra;
    OpenClosing(ok, c1, "0", "");
    ClosingDone(c1.(buf := CRLF + extra), [], extra);
    RunDone(ok, c1.(state := Returning, buf := extra));
  }

  /** The first call on a zero-size line that arrived alone: the line goes, the next read is taken, and the
      client is back at a size line. */
  lemma LoneZeroLine(ok: string -> bool, text: string)
    requires text != ""
    ensures Run(ok, AtBody([Data("0\r\n"), Data(text)])) == Run(ok, AtBody([]).(buf := text))
  {
    hide Run, SizeOf;
    var c := AtBody([Data("0\r\n"), Data(text)]);
    WaitForLine(ok, c);
    var c1 := ReadMore(c, DecipherChonkiness);
    assert c1.buf == "0" + CRLF + "" && c1.incoming == [Data(text)];
    LineEndAfter("0", "");
    ZeroIsGood("");
    assert "0" + "" == "0" && c1.buf[..1] == "0" && c1.buf[3..] == "";
    OpenClosing(ok, c1, "0", "");
    assert "" + text == text && [Data(text)][1..] == [];
    assert CloseChunks(c1.(buf := "")) == AtBody([]).(buf := text);
  }

  /** Surviving without an uncut section: the trailer line behind the cut reads as a zero-size line. */
  lemma TrailerCanRescue(ok: string -> bool)
    ensures var l := Last("0", "", ["0;a:b"]);
            var events := [Data("0\r\n"), Data("0;a:b\r\n\r\n")];
            Bytes(events) == l.Text() && !NoStopIn(events, 1, |l.Closing()|)
            && Run(ok, AtBody(events)).state == Returning
  {
    hide Run, SizeOf, GoodSize;
    var text := "0;a:b\r\n\r\n";
    var l, m := Last("0", "", ["0;a:b"]), Last("0", ";a:b", []);
    OneTrailer(l.trailers, "0;a:b");
    assert l.Closing() == text && m.Text() == text;
    TwoReads("0\r\n", text);
    assert !NoStopIn([Data(text)], 1, |text|);
    LoneZeroLine(ok, text);
    ZeroIsGood(";a:b");
    var c := AtBody([]).(buf := text);
    assert Left(c) == text;
    ChunkedBodyDecodes(ok, c, [], m);
  }

  lemma OneTrailer(trailers: seq<string>, line: string)
    requires trailers == [line]
    ensures Lines(trailers) == line + CRLF
  {
    assert trailers[1..] == [] && line + CRLF + "" == line + CRLF;
  }

  /** The worst case: a cut inside the closing section of an empty body hands trailer text over as the body. */
  lemma TrailerTextAsBody(ok: string -> bool)
    ensures var l := Last("0", "", ["3: a", "b:c", "0;"]);
            var events := [Data("0\r\n"), Data("3: a\r\nb:c\r\n0;\r\n\r\n")];
            Bytes(events) == BodyText([], l) && GoodLast(l) && BodyData([]) == ""
            && Run(ok, AtBody(events)).state == Returning && Output(Run(ok, AtBody(events))) == "b:c"
  {
    hide Run, SizeOf;
    var text := "3: a\r\nb:c\r\n0;\r\n\r\n";
    var ts := ["3: a", "b:c", "0;"];
    assert ts[1..] == ["b:c", "0;"] && ts[1..][1..] == ["0;"];
    OneTrailer(ts[1..][1..], "0;");
    assert Lines(ts[1..]) == "b:c\r\n0;\r\n";
    assert ClosingText(ts) == text;
    ZeroIsGood("");
    TwoReads("0\r\n", text);
    LoneZeroLine(ok, text);
    SmuggledTail(ok, AtBody([]).(buf := text));
  }

  lemma ThreeIsRead()
    ensures SizeOf("3: a") == Size(3) && Remaining(3) == 3
  {
    hide Strtoull16;
    var line := "3: a";
    assert !EndsSize(line[0]) && !EndsSize(line[1]) && EndsSize(line[2]);
    assert SizeFieldLength(line) == 2 && line[..2] == "" + ("" + ("" + ("" + Hex(3, _ => false, 0) + ":")));
    NumberRead("", "", "", "", 3, _ => false, ":");
  }

  /** A line that reads as a size takes what follows as chunk data, whatever the line was meant to be. */
  lemma LineTakenAsSize(ok: string -> bool, c: Client, line: string, data: string, m: Last)
    requires c.state == DecipherChonkiness && c.incoming == [] && NoCrlf(line) && GoodLast(m) && m.trailers == []
    requires c.buf == line + CRLF + (data + CRLF + m.Text())
    requires SizeOf(line) == Size(|data|) && 0 < |data| < TWO31
    ensures Run(ok, c).state == Returning && Run(ok, c).decoded == c.decoded + data
  {
    hide Run, SizeOf, GoodSize, Last.Text;
    LineEndAfter(line, data + CRLF + m.Text());
    assert c.buf[..|line|] == line && c.buf[|line| + 2..] == data + CRLF + m.Text();
    SizeLineTaken(ok, c, line);
    var d := c.(state := ReadingBodyChunked, buf := c.buf[|line| + 2..], chunkRemaining := |data|);
    assert Left(d) == d.buf;
    WireIsBody([], m, "");
    assert BodyText([], m) + "" == m.Text();
    DecodeFromChunk(ok, d, data, [], m, "");
    assert c.decoded + data + BodyData([]) == c.decoded + data;
  }

  lemma SmuggledTail(ok: string -> bool, c: Client)
    requires c.state == DecipherChonkiness && c.buf == "3: a\r\nb:c\r\n0;\r\n\r\n"
    requires c.incoming == [] && c.decoded == ""
    ensures Run(ok, c).state == Returning && Run(ok, c).decoded == "b:c"
  {
    hide Run, SizeOf, GoodSize;
    var m := Last("0", ";", []);
    ZeroIsGood(";");
    ThreeIsRead();
    assert m.Text() == "0;\r\n\r\n";
    assert c.buf == "3: a" + CRLF + ("b:c" + CRLF + m.Text());
    LineTakenAsSize(ok, c, "3: a", "b:c", m);
    assert "" + "b:c" == "b:c";
  }
}

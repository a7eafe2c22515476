/** Byte conservation in modules/src/http_client.c: over every run, every delivered byte is either
    still buffered or part of exactly one consumed segment, and the decoded body is made of the
    data segments alone. Nothing is assumed about the bytes the peer sends. */
module ByteAccounting {
  import opened CText
  import opened StringUtils
  import opened Scanners
  import opened HeaderParser
  import opened ChunkSize
  import opened ResponseMachine
  import opened Delivery

  /** What a work call can take off the front of the buffer. */
  datatype Segment =
    | StatusLine(line: string)
    | HeaderBlock(block: string)
    | SizeLine(line: string)
    | ChunkData(data: string)
    | ChunkEnd
    | Closing(section: string)
  {
    function Text(): string {
      match this
      case StatusLine(line) => line + CRLF
      case HeaderBlock(block) => block
      case SizeLine(line) => line + CRLF
      case ChunkData(data) => data
      case ChunkEnd => CRLF
      case Closing(section) => section
    }
  }

  function Flat(log: seq<Segment>): string {
    if log == [] then "" else Flat(log[..|log| - 1]) + log[|log| - 1].Text()
  }

  function DataOf(log: seq<Segment>): string {
    if log == [] then ""
    else DataOf(log[..|log| - 1]) + (if log[|log| - 1].ChunkData? then log[|log| - 1].data else "")
  }

  /** The framing grammar the client accepts, as an automaton over segments. It is wider than that of section 7.1
      of RFC 9112 in one place: like the code, it lets a zero-size line be followed by another size line. */
  datatype Expect = AtStatus | AtHeaders | Plain | AtSize | AfterZero | InChunk(remaining: nat) | Complete | Broken

  function Move(e: Expect, s: Segment): Expect {
    match s
    case StatusLine(line) => if e == AtStatus && NoCrlf(line) then AtHeaders else Broken
    case HeaderBlock(block) =>
      if e != AtHeaders || FieldsOf(block) == None then Broken
      else if IsChunked(FieldsOf(block).value) then AtSize else Plain
    case SizeLine(line) =>
      if (e != AtSize && e != AfterZero) || !SizeOf(line).Size? then Broken
      else if SizeOf(line).val == 0 then AfterZero
      else InChunk(Remaining(SizeOf(line).val))
    case ChunkData(data) => if e == InChunk(|data|) && data != "" then InChunk(0) else Broken
    case ChunkEnd => if e == InChunk(0) then AtSize else Broken
    case Closing(section) =>
      if e == AfterZero && (section == CRLF || HeadersEnd(section) + 4 == |section|) then Complete else Broken
  }

  function Moves(e: Expect, log: seq<Segment>): Expect {
    if log == [] then e else Move(Moves(e, log[..|log| - 1]), log[|log| - 1])
  }

  /** Where the grammar stands after a response was consumed as `log`. */
  function Parsed(log: seq<Segment>): Expect { Moves(AtStatus, log) }

  /** The state a client is in is the one the grammar expects after the consumed segments. */
  predicate Agrees(c: Client, e: Expect) {
    match c.state
    case ReadingFirstline => e == AtStatus
    case ReadingHeaders => e == AtHeaders
    case DecipherChonkiness => e == AtSize || e == AfterZero
    case ReadingBodyChunked => e == InChunk(c.chunkRemaining)
    case ReadingBody => e == Plain
    case Returning => e == Plain || e == Complete
    case Error => e != Broken
    case Undefined => e != Broken
    case _ => false
  }

  // ---------------------------------------------------------------------------------------
  // The segments of one step

  /** The closing section behind a zero-size line, when it is all there. */
  function ClosingTaken(c: Client): seq<Segment> {
    if CrlfAt(c.buf, 0) then [Closing(c.buf[..2])]
    else if HeadersEnd(c.buf) >= 0 then [Closing(c.buf[..HeadersEnd(c.buf) + 4])]
    else []
  }

  function SizeTaken(c: Client): seq<Segment> {
    var e := LineEnd(c.buf);
    if e < 0 || !SizeOf(c.buf[..e]).Size? then []
    else [SizeLine(c.buf[..e])] + (if SizeOf(c.buf[..e]).val == 0 then ClosingTaken(c.(buf := c.buf[e + 2..])) else [])
  }

  function EndTaken(c: Client): seq<Segment> {
    if CrlfAt(c.buf, 0) then [ChunkEnd] else []
  }

  function ChunkTaken(c: Client): seq<Segment> {
    var n := c.chunkRemaining;
    if n >= TWO63 || |c.buf| < n then []
    else (if n > 0 then [ChunkData(c.buf[..n])] else []) + EndTaken(c.(buf := c.buf[n..]))
  }

  function FirstlineTaken(ok: string -> bool, c: Client): seq<Segment> {
    var b := ReadMore(c, ReadingFirstline).buf;
    if FirstlineStep(ok, c).state == ReadingHeaders && LineEnd(b) >= 0 then [StatusLine(b[..LineEnd(b)])] else []
  }

  function HeadersTaken(c: Client): seq<Segment> {
    var e := HeadersEnd(c.buf);
    if e >= 0 && FieldsOf(c.buf[..e + 4]).Some? then [HeaderBlock(c.buf[..e + 4])] else []
  }

  function Taken(ok: string -> bool, c: Client): seq<Segment> {
    match c.state
    case ReadingFirstline => FirstlineTaken(ok, c)
    case ReadingHeaders => HeadersTaken(c)
    case DecipherChonkiness => SizeTaken(c)
    case ReadingBodyChunked => ChunkTaken(c)
    case _ => []
  }

  // ---------------------------------------------------------------------------------------
  // Bytes: a step consumes exactly the segments it takes

  /** `after` results from `before` by consuming exactly `taken`. */
  ghost predicate Accounts(before: Client, taken: seq<Segment>, after: Client) {
    Flat(taken) + Left(after) == Left(before) && after.decoded == before.decoded + DataOf(taken)
  }

  lemma FlatSnoc(a: seq<Segment>, s: Segment)
    ensures Flat(a + [s]) == Flat(a) + s.Text() && Flat([]) == "" && DataOf([]) == ""
    ensures DataOf(a + [s]) == DataOf(a) + if s.ChunkData? then s.data else ""
  {}

  /** Appending one segment, for the inductions below. */
  lemma Snoc(a: seq<Segment>, b: seq<Segment>) returns (front: seq<Segment>, s: Segment)
    requires b != []
    ensures b == front + [s] && a + b == (a + front) + [s] && |front| < |b|
  {
    front, s := b[..|b| - 1], b[|b| - 1];
  }

  lemma Assoc(x: string, y: string, z: string)
    ensures x + (y + z) == x + y + z
  {}

  lemma {:induction false} FlatAppend(a: seq<Segment>, b: seq<Segment>)
    ensures Flat(a + b) == Flat(a) + Flat(b) && DataOf(a + b) == DataOf(a) + DataOf(b)
    decreases |b|
  {
    hide Flat, DataOf, Segment.Text;
    if b == [] {
      assert a + b == a;
      FlatSnoc([], ChunkEnd);
      assert Flat(a) + "" == Flat(a) && DataOf(a) + "" == DataOf(a);
    } else {
      var front, s := Snoc(a, b);
      FlatAppend(a, front);
      FlatSnoc(a + front, s);
      FlatSnoc(front, s);
      Assoc(Flat(a), Flat(front), s.Text());
      Assoc(DataOf(a), DataOf(front), if s.ChunkData? then s.data else "");
    }
  }

  lemma AccountsNone(c: Client, d: Client)
    requires Left(d) == Left(c) && d.decoded == c.decoded
    ensures Accounts(c, [], d)
  {}

  lemma AccountsBoth(c: Client, s: seq<Segment>, d: Client, t: seq<Segment>, e: Client)
    requires Accounts(c, s, d) && Accounts(d, t, e)
    ensures Accounts(c, s + t, e)
  {
    hide Flat, DataOf, Left;
    FlatAppend(s, t);
    assert Flat(s) + Flat(t) + Left(e) == Flat(s) + (Flat(t) + Left(e));
    assert c.decoded + DataOf(s) + DataOf(t) == c.decoded + (DataOf(s) + DataOf(t));
  }

  /** Cutting one segment off the front of the buffer. */
  lemma AccountsCut(c: Client, n: nat, s: Segment, d: Client)
    requires n <= |c.buf| && s.Text() == c.buf[..n]
    requires d.buf == c.buf[n..] && d.incoming == c.incoming
    requires d.decoded == c.decoded + if s.ChunkData? then s.data else ""
    ensures Accounts(c, [s], d)
  {}

  lemma ReadAccounts(c: Client, stay: State)
    ensures Accounts(c, [], ReadMore(c, stay))
  {
    ReadKeepsLeft(c, stay);
    AccountsNone(c, ReadMore(c, stay));
  }

  lemma FirstlineAccounts(ok: string -> bool, c: Client)
    ensures Accounts(c, FirstlineTaken(ok, c), FirstlineStep(ok, c))
  {
    hide Accounts, LineEndFrom, ReadMore;
    var r := ReadMore(c, ReadingFirstline);
    var d := FirstlineStep(ok, c);
    ReadAccounts(c, ReadingFirstline);
    if FirstlineTaken(ok, c) == [] {
      FirstlineIdle(ok, c);
    } else {
      var e := LineEnd(r.buf);
      assert r.buf[..e + 2] == r.buf[..e] + CRLF;
      FirstlineCut(ok, c);
      assert r.decoded + "" == r.decoded;
      AccountsCut(r, e + 2, StatusLine(r.buf[..e]), d);
      AccountsBoth(c, [], r, FirstlineTaken(ok, c), d);
      assert [] + FirstlineTaken(ok, c) == FirstlineTaken(ok, c);
    }
  }

  lemma FirstlineIdle(ok: string -> bool, c: Client)
    requires FirstlineTaken(ok, c) == []
    ensures Accounts(c, [], FirstlineStep(ok, c))
  {}

  lemma FirstlineCut(ok: string -> bool, c: Client)
    requires FirstlineTaken(ok, c) != []
    ensures var r := ReadMore(c, ReadingFirstline);
            && LineEnd(r.buf) >= 0
            && FirstlineStep(ok, c) == r.(state := ReadingHeaders, buf := r.buf[LineEnd(r.buf) + 2..])
  {}

  lemma HeadersAccounts(c: Client)
    ensures Accounts(c, HeadersTaken(c), HeadersStep(c))
  {
    ReadAccounts(c, ReadingHeaders);
    AccountsNone(c, c.(state := Error));
    var e := HeadersEnd(c.buf);
    if HeadersTaken(c) != [] {
      assert c.decoded + "" == c.decoded;
      AccountsCut(c, e + 4, HeaderBlock(c.buf[..e + 4]), HeadersStep(c));
    }
  }

  lemma ClosingAccounts(c: Client)
    ensures Accounts(c, ClosingTaken(c), CloseChunks(c))
  {
    ReadAccounts(c, DecipherChonkiness);
    assert c.decoded + "" == c.decoded;
    if CrlfAt(c.buf, 0) {
      AccountsCut(c, 2, Closing(c.buf[..2]), CloseChunks(c));
    } else if HeadersEnd(c.buf) >= 0 {
      AccountsCut(c, HeadersEnd(c.buf) + 4, Closing(c.buf[..HeadersEnd(c.buf) + 4]), CloseChunks(c));
    }
  }

  lemma SizeAccounts(c: Client)
    ensures Accounts(c, SizeTaken(c), SizeStep(c))
  {
    hide Accounts, SizeOf, LineEndFrom;
    ReadAccounts(c, DecipherChonkiness);
    AccountsNone(c, c.(state := Error));
    AccountsNone(c, c.(state := Undefined));
    var e := LineEnd(c.buf);
    if SizeTaken(c) != [] {
      var t := c.(buf := c.buf[e + 2..]);
      assert c.buf[..e + 2] == c.buf[..e] + CRLF;
      assert c.decoded + "" == c.decoded;
      AccountsCut(c, e + 2, SizeLine(c.buf[..e]), t);
      ClosingAccounts(t);
      AccountsNone(t, t.(state := ReadingBodyChunked, chunkRemaining := Remaining(SizeOf(c.buf[..e]).val)));
      AccountsBoth(c, [SizeLine(c.buf[..e])], t, SizeTaken(c)[1..], SizeStep(c));
      assert SizeTaken(c) == [SizeLine(c.buf[..e])] + SizeTaken(c)[1..];
    }
  }

  lemma EndAccounts(c: Client)
    ensures Accounts(c, EndTaken(c), EndChunk(c))
  {}

  lemma ChunkAccounts(c: Client)
    ensures Accounts(c, ChunkTaken(c), ChunkStep(c))
  {
    hide Accounts, EndChunk;
    ReadAccounts(c, ReadingBodyChunked);
    AccountsNone(c, c.(state := Undefined));
    var n := c.chunkRemaining;
    if n < TWO63 && n <= |c.buf| {
      var d := c.(decoded := c.decoded + c.buf[..n], buf := c.buf[n..], chunkRemaining := 0);
      var data := if n > 0 then [ChunkData(c.buf[..n])] else [];
      if n > 0 {
        AccountsCut(c, n, ChunkData(c.buf[..n]), d);
      } else {
        assert c.buf[..0] == "" && c.buf[0..] == c.buf && c.decoded + "" == c.decoded;
        AccountsNone(c, d);
      }
      EndAccounts(d);
      AccountsBoth(c, data, d, EndTaken(d), EndChunk(d));
    }
  }

  lemma StepAccounts(ok: string -> bool, c: Client)
    ensures Accounts(c, Taken(ok, c), Step(ok, c))
  {
    hide Accounts, FirstlineStep, HeadersStep, SizeStep, ChunkStep, FirstlineTaken, HeadersTaken, SizeTaken, ChunkTaken;
    FirstlineAccounts(ok, c);
    HeadersAccounts(c);
    SizeAccounts(c);
    ChunkAccounts(c);
    BodyAccounts(c);
    AccountsNone(c, c);
  }

  lemma BodyAccounts(c: Client)
    ensures Accounts(c, [], BodyStep(c))
  {}

  // ---------------------------------------------------------------------------------------
  // Grammar: a step stays inside it

  /** A complete closing section is recognised as one. */
  lemma ClosingCut(b: string)
    requires HeadersEnd(b) >= 0
    ensures HeadersEnd(b[..HeadersEnd(b) + 4]) + 4 == |b[..HeadersEnd(b) + 4]|
  {
    var n := HeadersEnd(b) + 4;
    assert b[..n] + b[n..] == b;
    HeadersEndOfPrefix(b[..n], b[n..]);
  }

  lemma MovesOne(e: Expect, s: Segment)
    ensures Moves(e, [s]) == Move(e, s)
  {}

  lemma {:induction false} MovesAppend(e: Expect, a: seq<Segment>, b: seq<Segment>)
    ensures Moves(e, a + b) == Moves(Moves(e, a), b)
  {
    hide Move;
    if b == [] {
      assert a + b == a;
    } else {
      assert (a + b)[..|a + b| - 1] == a + b[..|b| - 1];
      MovesAppend(e, a, b[..|b| - 1]);
    }
  }

  lemma ReadState(c: Client, stay: State)
    ensures ReadMore(c, stay).state in {stay, Error} && ReadMore(c, stay).chunkRemaining == c.chunkRemaining
  {}

  lemma FirstlineInGrammar(ok: string -> bool, c: Client)
    ensures Agrees(FirstlineStep(ok, c), Moves(AtStatus, FirstlineTaken(ok, c)))
  {
    hide LineEndFrom;
    ReadState(c, ReadingFirstline);
    if FirstlineTaken(ok, c) != [] {
      var b := ReadMore(c, ReadingFirstline).buf;
      var e := LineEnd(b);
      MovesOne(AtStatus, StatusLine(b[..e]));
      assert forall j :: 0 <= j < e && CrlfAt(b[..e], j) ==> CrlfAt(b, j);
    }
  }

  lemma HeadersInGrammar(c: Client)
    ensures Agrees(HeadersStep(c), Moves(AtHeaders, HeadersTaken(c)))
  {
    hide FieldsFrom, EndMarkFrom, Lookup, ParseInt, ReadMore;
    ReadState(c, ReadingHeaders);
    if HeadersTaken(c) != [] {
      MovesOne(AtHeaders, HeadersTaken(c)[0]);
    }
  }

  lemma ClosingInGrammar(c: Client)
    requires c.state == DecipherChonkiness
    ensures Agrees(CloseChunks(c), Moves(AfterZero, ClosingTaken(c)))
  {
    ReadState(c, DecipherChonkiness);
    if ClosingTaken(c) != [] {
      MovesOne(AfterZero, ClosingTaken(c)[0]);
      if HeadersEnd(c.buf) >= 0 {
        ClosingCut(c.buf);
      }
    }
  }

  lemma SizeInGrammar(c: Client, e: Expect)
    requires c.state == DecipherChonkiness && (e == AtSize || e == AfterZero)
    ensures Agrees(SizeStep(c), Moves(e, SizeTaken(c)))
  {
    hide SizeOf, LineEndFrom, CloseChunks, ClosingTaken;
    ReadState(c, DecipherChonkiness);
    if SizeTaken(c) != [] {
      var n := LineEnd(c.buf);
      var size := [SizeLine(c.buf[..n])];
      var t := c.(buf := c.buf[n + 2..]);
      MovesOne(e, SizeLine(c.buf[..n]));
      MovesAppend(e, size, ClosingTaken(t));
      ClosingInGrammar(t);
      assert size + [] == size;
    }
  }

  lemma EndInGrammar(c: Client)
    requires c.state == ReadingBodyChunked && c.chunkRemaining == 0
    ensures Agrees(EndChunk(c), Moves(InChunk(0), EndTaken(c)))
  {}

  lemma ChunkInGrammar(c: Client)
    requires c.state == ReadingBodyChunked
    ensures Agrees(ChunkStep(c), Moves(InChunk(c.chunkRemaining), ChunkTaken(c)))
  {
    hide EndChunk;
    ReadState(c, ReadingBodyChunked);
    var n := c.chunkRemaining;
    if n < TWO63 && n <= |c.buf| {
      var d := c.(decoded := c.decoded + c.buf[..n], buf := c.buf[n..], chunkRemaining := 0);
      EndInGrammar(d);
      var data := if n > 0 then [ChunkData(c.buf[..n])] else [];
      MovesOne(InChunk(n), ChunkData(c.buf[..n]));
      MovesAppend(InChunk(n), data, EndTaken(d));
    }
  }

  lemma StepInGrammar(ok: string -> bool, c: Client, e: Expect)
    requires Agrees(c, e)
    ensures Agrees(Step(ok, c), Moves(e, Taken(ok, c)))
  {
    match c.state
    case ReadingFirstline => FirstlineInGrammar(ok, c);
    case ReadingHeaders => HeadersInGrammar(c);
    case DecipherChonkiness => SizeInGrammar(c, e);
    case ReadingBodyChunked => ChunkInGrammar(c);
    case _ =>
  }

  // ---------------------------------------------------------------------------------------
  // Whole runs

  /** The client after `n` work calls. */
  function After(ok: string -> bool, c: Client, n: nat): Client {
    if n == 0 then c else Step(ok, After(ok, c, n - 1))
  }

  /** Everything consumed in the first `n` work calls. */
  function Consumed(ok: string -> bool, c: Client, n: nat): seq<Segment> {
    if n == 0 then [] else Consumed(ok, c, n - 1) + Taken(ok, After(ok, c, n - 1))
  }

  /** Byte conservation: in every reachable state, the consumed segments followed by the buffer and
      by what is still to come are the stream; the decoded body is the data segments; and the
      segments form a response framed as the current state says, each chunk's data appended once. */
  lemma {:induction false} EveryByteAccounted(ok: string -> bool, script: seq<ReadEvent>, n: nat)
    ensures var c := After(ok, Initial(script), n);
            var log := Consumed(ok, Initial(script), n);
            Flat(log) + c.buf + Bytes(c.incoming) == Bytes(script)
            && c.decoded == DataOf(log)
            && Agrees(c, Parsed(log))
  {
    hide Agrees, Step, Taken, Flat, DataOf, Moves;
    var c0 := Initial(script);
    if n == 0 {
      FirstAgrees(script);
    } else {
      var c, log := After(ok, c0, n - 1), Consumed(ok, c0, n - 1);
      EveryByteAccounted(ok, script, n - 1);
      StepAccounts(ok, c);
      StepInGrammar(ok, c, Parsed(log));
      MovesAppend(AtStatus, log, Taken(ok, c));
      assert Flat(log) + c.buf + Bytes(c.incoming) == Flat(log) + Left(c);
      assert "" + DataOf(log) == DataOf(log);
      AccountsBoth(c0, log, c, Taken(ok, c), Step(ok, c));
      LeftOf(Flat(Consumed(ok, c0, n)), Step(ok, c));
    }
  }

  lemma LeftOf(consumed: string, c: Client)
    ensures consumed + Left(c) == consumed + c.buf + Bytes(c.incoming)
  {}

  lemma FirstAgrees(script: seq<ReadEvent>)
    ensures Agrees(Initial(script), Parsed([])) && DataOf([]) == ""
    ensures Flat([]) + "" + Bytes(script) == Bytes(script)
  {}

  /** The final state of a run is one of the states it went through. */
  lemma {:induction false} RunIsReached(ok: string -> bool, c: Client, k: nat) returns (n: nat)
    ensures Run(ok, After(ok, c, k)) == After(ok, c, n)
    decreases |After(ok, c, k).incoming|, |After(ok, c, k).buf|, Rank(After(ok, c, k))
  {
    var a := After(ok, c, k);
    StepProgress(ok, a);
    if Step(ok, a) == a {
      n := k;
    } else {
      assert After(ok, c, k + 1) == Step(ok, a);
      n := RunIsReached(ok, c, k + 1);
    }
  }

  /** Soundness: whenever a run ends with a response, well-formed input or not, the stream splits
      into segments of that grammar and the decoded body is exactly their chunk data. */
  lemma ReturnedIsFramed(ok: string -> bool, script: seq<ReadEvent>) returns (log: seq<Segment>)
    requires Run(ok, Initial(script)).state == Returning
    ensures var c := Run(ok, Initial(script));
            Flat(log) + c.buf + Bytes(c.incoming) == Bytes(script) && c.decoded == DataOf(log)
            && (Parsed(log) == Plain || Parsed(log) == Complete)
  {
    assert After(ok, Initial(script), 0) == Initial(script);
    var n := RunIsReached(ok, Initial(script), 0);
    EveryByteAccounted(ok, script, n);
    log := Consumed(ok, Initial(script), n);
  }

  // ---------------------------------------------------------------------------------------
  // No truncated body

  /** A body is being counted against its declared length, and is not returned before it is complete. */
  predicate NotShort(c: Client) {
    && (c.state == ReadingBody ==> c.contentLength == DeclaredLength(c.headers) && !IsChunked(c.headers))
    && (c.state in {DecipherChonkiness, ReadingBodyChunked} ==> IsChunked(c.headers))
    && (c.state == Returning ==> IsChunked(c.headers) || |c.buf| >= DeclaredLength(c.headers))
  }

  lemma ReadKeepsHeaders(c: Client, stay: State)
    ensures ReadMore(c, stay).headers == c.headers && ReadMore(c, stay).state in {stay, Error}
  {}

  lemma StepNotShort(ok: string -> bool, c: Client)
    requires NotShort(c)
    ensures NotShort(Step(ok, c))
  {
    hide LineEndFrom, EndMarkFrom, FieldsFrom, SizeOf, ReadMore, IsChunked, DeclaredLength;
    ReadKeepsHeaders(c, c.state);
    if c.state == DecipherChonkiness && LineEnd(c.buf) >= 0 {
      ReadKeepsHeaders(c.(buf := c.buf[LineEnd(c.buf) + 2..]), c.state);
    } else if c.state == ReadingBodyChunked && c.chunkRemaining <= |c.buf| {
      var n := c.chunkRemaining;
      ReadKeepsHeaders(c.(decoded := c.decoded + c.buf[..n], buf := c.buf[n..], chunkRemaining := 0), c.state);
    }
  }

  lemma {:induction false} NeverShort(ok: string -> bool, script: seq<ReadEvent>, n: nat)
    ensures NotShort(After(ok, Initial(script), n))
  {
    if n == 0 {
    } else {
      NeverShort(ok, script, n - 1);
      StepNotShort(ok, After(ok, Initial(script), n - 1));
    }
  }

  /** Whatever the peer sends and whenever it closes, a response that is not chunked is returned only
      with at least the bytes its Content-Length declares. */
  lemma NoTruncatedBody(ok: string -> bool, script: seq<ReadEvent>)
    requires Run(ok, Initial(script)).state == Returning && !IsChunked(Run(ok, Initial(script)).headers)
    ensures |Run(ok, Initial(script)).buf| >= DeclaredLength(Run(ok, Initial(script)).headers)
  {
    hide Run;
    assert After(ok, Initial(script), 0) == Initial(script);
    var n := RunIsReached(ok, Initial(script), 0);
    NeverShort(ok, script, n);
  }
}

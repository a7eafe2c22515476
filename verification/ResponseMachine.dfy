/** The receive side of modules/src/http_client.c as a step function. A step is one call of the
    work task that belongs to the current state; the transport is a finite script of the results
    its reads return. `HttpClient` refines this module method by method. */
module ResponseMachine {
  import opened CText
  import opened StringUtils
  import opened Scanners
  import opened HeaderParser
  import opened ChunkSize

  /** What one `transport_read` returns; an exhausted script keeps answering WouldBlock. */
  datatype ReadEvent = Data(bytes: string) | WouldBlock | Closed | Fail

  /** HTTPClientState, plus `Undefined` for the places where the C code leaves defined behaviour. */
  datatype State =
    | Connecting | WaitingConnect | BuildingRequest | SendingRequest
    | ReadingFirstline | ReadingHeaders | DecipherChonkiness | ReadingBodyChunked | ReadingBody
    | Returning | Disposing | Error
    | Undefined

  const MAX_FIRSTLINE := 1024

  datatype Client = Client(
    state: State,
    buf: string,
    chunkRemaining: nat,
    decoded: string,
    contentLength: nat,
    headers: seq<KeyValue>,
    incoming: seq<ReadEvent>)

  function Next(incoming: seq<ReadEvent>): ReadEvent {
    if incoming == [] then WouldBlock
    else if incoming[0] == Data("") then Closed
    else incoming[0]
  }

  function Rest(incoming: seq<ReadEvent>): seq<ReadEvent> {
    if incoming == [] then [] else incoming[1..]
  }

  /** Read into the buffer and come back to `stay`. */
  function ReadMore(c: Client, stay: State): Client {
    match Next(c.incoming)
    case Data(d) => c.(state := stay, buf := c.buf + d, incoming := Rest(c.incoming))
    case WouldBlock => c.(state := stay, incoming := Rest(c.incoming))
    case _ => c.(state := Error, incoming := Rest(c.incoming))
  }

  /** After the bytes of a read were appended: look for the status line. */
  function TakeFirstline(ok: string -> bool, c: Client): Client {
    var e := LineEnd(c.buf);
    if e < 0 then (if |c.buf| >= MAX_FIRSTLINE then c.(state := Error) else c)
    else if e == 0 || e >= MAX_FIRSTLINE || !ok(c.buf[..e]) then c.(state := Error)
    else c.(state := ReadingHeaders, buf := c.buf[e + 2..])
  }

  /** `http_client_worktask_read_firstline` */
  function FirstlineStep(ok: string -> bool, c: Client): Client {
    var r := ReadMore(c, ReadingFirstline);
    if Next(c.incoming).Data? then TakeFirstline(ok, r) else r
  }

  /** The value of Content-Length, 0 when absent, unparsable or not positive. */
  function DeclaredLength(headers: seq<KeyValue>): nat {
    match Lookup(headers, "Content-Length")
    case None => 0
    case Some(v) => match ParseInt(v)
      case None => 0
      case Some(n) => if n > 0 then n else 0
  }

  predicate IsChunked(headers: seq<KeyValue>) {
    var te := Lookup(headers, "Transfer-Encoding");
    te.Some? && Contains(te.value, "chunked")
  }

  /** The coding is chunked exactly when the first Transfer-Encoding field mentions "chunked" anywhere. */
  lemma ChunkedExactly(fields: seq<KeyValue>)
    ensures IsChunked(fields) <==>
            exists i: nat, k: nat ::
              FirstNamed(fields, "Transfer-Encoding", i) && OccursAt(fields[i].value, "chunked", k)
  {
    hide Contains, Lookup;
    var te := Lookup(fields, "Transfer-Encoding");
    if i: nat, k: nat :| FirstNamed(fields, "Transfer-Encoding", i) && OccursAt(fields[i].value, "chunked", k) {
      LookupIs(fields, "Transfer-Encoding", i);
      ContainsMeans(fields[i].value, "chunked");
    }
    if IsChunked(fields) {
      ContainsMeans(te.value, "chunked");
      var i: nat :| i < |fields| && fields[i] == KeyValue("Transfer-Encoding", te.value)
                    && forall j :: 0 <= j < i ==> fields[j].key != "Transfer-Encoding";
      assert FirstNamed(fields, "Transfer-Encoding", i);
    }
  }

  /** The declared length: the first Content-Length field when it reads as a positive `int`, else 0. */
  lemma LengthExactly(fields: seq<KeyValue>, n: nat)
    ensures DeclaredLength(fields) == n <==>
            if n > 0
            then exists i: nat :: FirstNamed(fields, "Content-Length", i) && ParseInt(fields[i].value) == Some(n)
            else forall i: nat :: FirstNamed(fields, "Content-Length", i) ==>
                   ParseInt(fields[i].value) == None || ParseInt(fields[i].value).value <= 0
  {
    hide ParseInt, Lookup;
    var length := Lookup(fields, "Content-Length");
    forall i: nat | FirstNamed(fields, "Content-Length", i) ensures length == Some(fields[i].value) {
      LookupIs(fields, "Content-Length", i);
    }
    if length.Some? {
      var i: nat :| i < |fields| && fields[i] == KeyValue("Content-Length", length.value)
                    && forall j :: 0 <= j < i ==> fields[j].key != "Content-Length";
      assert FirstNamed(fields, "Content-Length", i);
    }
  }

  /** The choice of framing once the header section has been taken off the buffer. */
  function EnterBody(c: Client): Client {
    if IsChunked(c.headers) then c.(state := DecipherChonkiness)
    else
      var n := DeclaredLength(c.headers);
      if n == 0 then c.(state := Returning)
      else c.(contentLength := n, state := if |c.buf| >= n then Returning else ReadingBody)
  }

  /** `http_client_worktask_read_headers` */
  function HeadersStep(c: Client): Client {
    var e := HeadersEnd(c.buf);
    if e < 0 then ReadMore(c, ReadingHeaders)
    else match FieldsOf(c.buf[..e + 4])
      case None => c.(state := Error)
      case Some(fields) => EnterBody(c.(headers := fields, buf := c.buf[e + 4..]))
  }

  /** After a zero-size line was consumed: the closing section, if it is all there. */
  function CloseChunks(c: Client): Client {
    if CrlfAt(c.buf, 0) then c.(state := Returning, buf := c.buf[2..])
    else
      var e := HeadersEnd(c.buf);
      if e >= 0 then c.(state := Returning, buf := c.buf[e + 4..])
      else ReadMore(c, DecipherChonkiness)
  }

  /** `http_client_worktask_decipher_chonkiness` */
  function SizeStep(c: Client): Client {
    var e := LineEnd(c.buf);
    if e < 0 then ReadMore(c, DecipherChonkiness)
    else match SizeOf(c.buf[..e])
      case BadSize => c.(state := Error)
      case Overflows => c.(state := Undefined)
      case Size(val) =>
        var taken := c.(buf := c.buf[e + 2..]);
        if val == 0 then CloseChunks(taken)
        else taken.(state := ReadingBodyChunked, chunkRemaining := Remaining(val))
  }

  /** After the chunk data was moved out: the CRLF behind it. */
  function EndChunk(c: Client): Client {
    if |c.buf| < 2 then ReadMore(c, ReadingBodyChunked)
    else if !CrlfAt(c.buf, 0) then c.(state := Error)
    else c.(state := DecipherChonkiness, buf := c.buf[2..])
  }

  /** `http_client_worktask_read_body_chunked` */
  function ChunkStep(c: Client): Client {
    if c.chunkRemaining >= TWO63 then c.(state := Undefined)
    else if |c.buf| < c.chunkRemaining then ReadMore(c, ReadingBodyChunked)
    else EndChunk(c.(decoded := c.decoded + c.buf[..c.chunkRemaining],
                     buf := c.buf[c.chunkRemaining..],
                     chunkRemaining := 0))
  }

  /** `http_client_worktask_read_body` */
  function BodyStep(c: Client): Client {
    match Next(c.incoming)
    case WouldBlock => c.(incoming := Rest(c.incoming))
    case Fail => c.(state := Error, incoming := Rest(c.incoming))
    case Closed => c.(state := if |c.buf| < c.contentLength then Error else Returning, incoming := Rest(c.incoming))
    case Data(d) =>
      var buf := c.buf + d;
      c.(buf := buf, state := if |buf| < c.contentLength then ReadingBody else Returning, incoming := Rest(c.incoming))
  }

  /** One receive-phase work call; other states are left alone. */
  function Step(ok: string -> bool, c: Client): Client {
    match c.state
    case ReadingFirstline => FirstlineStep(ok, c)
    case ReadingHeaders => HeadersStep(c)
    case DecipherChonkiness => SizeStep(c)
    case ReadingBodyChunked => ChunkStep(c)
    case ReadingBody => BodyStep(c)
    case _ => c
  }

  predicate Receiving(s: State) {
    s in {ReadingFirstline, ReadingHeaders, DecipherChonkiness, ReadingBodyChunked, ReadingBody}
  }

  function Rank(c: Client): nat { if Receiving(c.state) then 1 else 0 }

  /** The lexicographic measure (events left, buffered bytes, rank). */
  ghost predicate Smaller(a: Client, b: Client) {
    || |a.incoming| < |b.incoming|
    || (|a.incoming| == |b.incoming| && |a.buf| < |b.buf|)
    || (|a.incoming| == |b.incoming| && |a.buf| == |b.buf| && Rank(a) < Rank(b))
  }

  lemma SmallerMeans(a: Client, b: Client)
    requires Smaller(a, b)
    ensures |a.incoming| < |b.incoming|
            || (|a.incoming| == |b.incoming|
                && (|a.buf| < |b.buf| || (|a.buf| == |b.buf| && Rank(a) < Rank(b))))
  {}

  lemma ReadMoreProgress(c: Client, stay: State)
    ensures c.incoming != [] ==> |ReadMore(c, stay).incoming| == |c.incoming| - 1
    ensures c.incoming == [] ==> ReadMore(c, stay) == c.(state := stay)
  {}

  lemma SizeStepProgress(c: Client)
    requires c.state == DecipherChonkiness
    ensures SizeStep(c) == c || Smaller(SizeStep(c), c)
    ensures SizeStep(c) == c ==> c.incoming == []
  {
    hide SizeOf, LineEndFrom, EndMarkFrom;
    ReadMoreProgress(c, DecipherChonkiness);
    var e := LineEnd(c.buf);
    if e >= 0 {
      ReadMoreProgress(c.(buf := c.buf[e + 2..]), DecipherChonkiness);
    }
  }

  lemma ChunkStepProgress(c: Client)
    requires c.state == ReadingBodyChunked
    ensures ChunkStep(c) == c || Smaller(ChunkStep(c), c)
    ensures ChunkStep(c) == c ==> c.incoming == []
  {}

  /** Every work call either waits for a read that has nothing to give, or makes progress. */
  lemma StepProgress(ok: string -> bool, c: Client)
    ensures Step(ok, c) == c || Smaller(Step(ok, c), c)
    ensures Step(ok, c) == c && Receiving(c.state) ==> c.incoming == []
  {
    match c.state
    case ReadingFirstline => ReadMoreProgress(c, ReadingFirstline);
    case ReadingHeaders => ReadMoreProgress(c, ReadingHeaders);
    case DecipherChonkiness => SizeStepProgress(c);
    case ReadingBodyChunked => ChunkStepProgress(c);
    case _ =>
  }

  /** Work calls repeated until nothing changes any more: the run over the whole script. */
  function Run(ok: string -> bool, c: Client): Client
    decreases |c.incoming|, |c.buf|, Rank(c)
  {
    StepProgress(ok, c);
    var d := Step(ok, c);
    if d == c then c else Run(ok, d)
  }

  lemma RunStep(ok: string -> bool, c: Client)
    ensures Run(ok, c) == Run(ok, Step(ok, c))
  {}

  lemma RunDone(ok: string -> bool, c: Client)
    requires !Receiving(c.state)
    ensures Run(ok, c) == c
  {}

  lemma ClosedEnds(ok: string -> bool, c: Client)
    requires Receiving(c.state) && c.incoming != [] && c.incoming[0] == Closed
    ensures Step(ok, c).incoming == c.incoming || !Receiving(Step(ok, c).state)
  {}

  /** One call in a script that holds the peer's close: progress, and either more to do or the end. */
  lemma StepLeads(ok: string -> bool, c: Client)
    requires Receiving(c.state) && Closed in c.incoming
    ensures var d := Step(ok, c);
            Smaller(d, c) && Run(ok, d) == Run(ok, c)
            && (if Receiving(d.state) then Closed in d.incoming
                else Run(ok, d) == d && d.state in {Returning, Error, Undefined})
  {
    StepProgress(ok, c);
    StepConsumes(ok, c);
    if c.incoming[0] == Closed {
      ClosedEnds(ok, c);
    }
  }

  /** Termination: whatever state a client is in and whatever the script holds, once the peer's
      close is in the script the run ends, with a response, an error, or in one of the
      places where the C code is undefined. */
  lemma {:induction false} RunHalts(ok: string -> bool, c: Client)
    requires Receiving(c.state) && Closed in c.incoming
    ensures Run(ok, c).state in {Returning, Error, Undefined}
    decreases |c.incoming|, |c.buf|, Rank(c)
  {
    StepLeads(ok, c);
    var d := Step(ok, c);
    if Receiving(d.state) {
      RunHalts(ok, d);
    }
  }

  /** A chunk size that is negative as an `int` is where the C code leaves defined behaviour. */
  lemma HugeChunk(ok: string -> bool, c: Client)
    requires c.state == ReadingBodyChunked && c.chunkRemaining >= TWO63
    ensures Run(ok, c).state == Undefined
  {
    RunStep(ok, c);
  }

  /** At a size line that leaves defined behaviour. */
  predicate AtBadLine(c: Client) {
    c.state == DecipherChonkiness && LineEnd(c.buf) >= 0 && Spoils(SizeOf(c.buf[..LineEnd(c.buf)]))
  }

  /** The run comes to such a line. */
  predicate MeetsBadLine(ok: string -> bool, c: Client)
    decreases |c.incoming|, |c.buf|, Rank(c)
  {
    StepProgress(ok, c);
    AtBadLine(c) || (Step(ok, c) != c && MeetsBadLine(ok, Step(ok, c)))
  }

  /** Everywhere before such a line. */
  predicate Defined(c: Client) {
    c.state != Undefined && (c.state == ReadingBodyChunked ==> c.chunkRemaining < TWO63)
  }

  lemma BadLineStep(ok: string -> bool, c: Client)
    requires Defined(c)
    ensures if AtBadLine(c)
            then Step(ok, c).state == Undefined
                 || (Step(ok, c).state == ReadingBodyChunked && Step(ok, c).chunkRemaining >= TWO63)
            else Defined(Step(ok, c))
  {
    hide LineEndFrom, EndMarkFrom, FieldsOf, SizeOf, Remaining;
    ZeroSpoilsNothing();
  }

  /** A run ends in undefined behaviour exactly when it takes a line for a chunk-size line that overruns the
      line buffer or reads as a negative `int`. */
  lemma {:induction false} UndefinedExactly(ok: string -> bool, c: Client)
    requires Defined(c)
    ensures Run(ok, c).state == Undefined <==> MeetsBadLine(ok, c)
    decreases |c.incoming|, |c.buf|, Rank(c)
  {
    hide Step, AtBadLine, Smaller;
    StepProgress(ok, c);
    BadLineStep(ok, c);
    var d := Step(ok, c);
    if AtBadLine(c) {
      RunStep(ok, c);
      if d.state == ReadingBodyChunked {
        HugeChunk(ok, d);
      } else {
        RunDone(ok, d);
      }
    } else if d != c {
      SmallerMeans(d, c);
      UndefinedExactly(ok, d);
    }
  }

  /** How a work call may leave the script and the state it found. */
  ghost predicate TakesOne(before: Client, after: Client) {
    && (after.incoming == before.incoming || after.incoming == Rest(before.incoming))
    && (Receiving(after.state) || after.state in {Returning, Error, Undefined})
  }

  lemma ReadMoreTakesOne(c: Client, stay: State)
    requires Receiving(stay)
    ensures TakesOne(c, ReadMore(c, stay))
  {}

  /** A work call takes at most one event off the script and never leaves the receive phase
      except with a response, an error, or into undefined behaviour. */
  lemma StepConsumes(ok: string -> bool, c: Client)
    requires Receiving(c.state)
    ensures TakesOne(c, Step(ok, c))
  {
    hide LineEndFrom, EndMarkFrom, FieldsOf, SizeOf, ReadMore;
    ReadMoreTakesOne(c, c.state);
    if c.state == DecipherChonkiness && LineEnd(c.buf) >= 0 {
      ReadMoreTakesOne(c.(buf := c.buf[LineEnd(c.buf) + 2..]), c.state);
    } else if c.state == ReadingBodyChunked && c.chunkRemaining <= |c.buf| {
      var n := c.chunkRemaining;
      ReadMoreTakesOne(c.(decoded := c.decoded + c.buf[..n], buf := c.buf[n..], chunkRemaining := 0), c.state);
    }
  }

  /** A failed read, or one that finds the connection closed, is an error in every state; only a body whose
      declared length is there already is returned at the close. */
  lemma BrokenRead(ok: string -> bool, c: Client)
    requires Receiving(c.state) && c.incoming != [] && c.incoming[0] in {Closed, Fail, Data("")}
    ensures var d := Step(ok, c);
            || d.incoming == c.incoming
            || d.state == if c.state == ReadingBody && c.incoming[0] != Fail && |c.buf| >= c.contentLength
                          then Returning else Error
  {
    hide LineEndFrom, EndMarkFrom, FieldsOf, SizeOf;
  }

  /** What `http_client_worktask_returning` hands to the caller. */
  function Output(c: Client): string { if c.decoded != "" then c.decoded else c.buf }

  function Initial(script: seq<ReadEvent>): Client {
    Client(ReadingFirstline, "", 0, "", 0, [], script)
  }
}

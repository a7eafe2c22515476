/** The `HTTP_Client` object of modules/src/http_client.c: its fields on the heap, its work tasks as
    methods. Each work task is proved to perform exactly its step of `ResponseMachine` or `Sending`. */
module HttpClients {
  import opened CText
  import opened StringUtils
  import opened Scanners
  import opened LinkedLists
  import opened HeaderParser
  import opened ChunkSize
  import opened RequestLine
  import opened ResponseMachine
  import opened Sending
  import opened ClientLifecycle

  class HttpClient {
    /** Acceptance of a status line by `http_parser_response_firstline`. */
    const accepts: string -> bool
    const verb: Method
    const host: string
    const path: string
    const body: string
    const blockingMode: bool
    /** Whether there is somewhere to deliver: `blocking_out` in blocking mode, else `on_success`. */
    const hasReceiver: bool

    var state: State
    const recvBuf: GrowBuffer
    var chunkRemaining: nat
    var decodedBody: string
    var contentLength: nat
    var headers: LinkedList<KeyValue>
    var requestBuffer: array<char>
    var requestLength: nat
    var bytesSent: nat
    var retries: nat
    var nextRetryAt: nat
    /** The slot of its scheduler task; NULL in blocking mode and once the task is released. */
    var task: Option<nat>
    /** Responses handed to `on_success`. */
    var delivered: seq<string>
    /** The contents of `*blocking_out`. */
    var blockingOut: Option<string>

    // The transport: results of future reads and writes, and what the peer has been sent.
    var incoming: seq<ReadEvent>
    var outgoing: seq<WriteEvent>
    ghost var accepted: string

    ghost predicate Valid()
      reads this, recvBuf, headers, headers.nodes
    {
      recvBuf.Valid() && headers.Valid() && bytesSent <= requestLength <= requestBuffer.Length
    }

    /** The receive side as a value. */
    ghost function View(): Client
      requires Valid()
      reads this, recvBuf, recvBuf.addr, headers, headers.nodes
    {
      Client(state, recvBuf.Contents(), chunkRemaining, decodedBody, contentLength, headers.Items(), incoming)
    }

    /** The send side as a value. */
    ghost function SendView(): Sender
      requires Valid()
      reads this, recvBuf, requestBuffer, headers, headers.nodes
    {
      Sender(state, requestBuffer[..requestLength], bytesSent, retries, accepted, outgoing)
    }

    /** The life of a client outside blocking mode that has, or has not, been in state Error before. */
    ghost function LifeView(failed: bool): Life
      reads this
    {
      Life(state, task, hasReceiver, |delivered|, failed || state == Error, false)
    }

    /** A client whose connection is up (`http_client_initiate` and the connecting states). */
    constructor (accepts: string -> bool, verb: Method, host: string, path: string, body: string,
                 blockingMode: bool, hasReceiver: bool, task: Option<nat>,
                 incoming: seq<ReadEvent>, outgoing: seq<WriteEvent>)
      ensures Valid() && fresh(recvBuf) && fresh(recvBuf.addr) && fresh(headers) && fresh(headers.nodes)
      ensures View() == Initial(incoming).(state := BuildingRequest)
      ensures this.accepts == accepts && this.verb == verb && this.host == host && this.path == path
      ensures this.body == body && this.blockingMode == blockingMode && this.hasReceiver == hasReceiver
      ensures this.outgoing == outgoing && retries == 0 && accepted == "" && delivered == [] && blockingOut == None
      ensures nextRetryAt == 0 && this.task == task
    {
      this.accepts, this.verb, this.host, this.path, this.body := accepts, verb, host, path, body;
      this.blockingMode, this.hasReceiver := blockingMode, hasReceiver;
      this.incoming, this.outgoing := incoming, outgoing;
      state := BuildingRequest;
      recvBuf := new GrowBuffer();
      headers := new LinkedList<KeyValue>();
      chunkRemaining, decodedBody, contentLength := 0, "", 0;
      requestBuffer := new char[0];
      requestLength, bytesSent, retries, accepted := 0, 0, 0, "";
      this.task := task;
      nextRetryAt, delivered, blockingOut := 0, [], None;
    }

    /** `snprintf` and `memcpy`: writes `text` at `at` and nothing else. */
    static method CopyInto(buf: array<char>, at: nat, text: string)
      requires at + |text| <= buf.Length
      modifies buf
      ensures buf[..at] == old(buf[..at]) && buf[at..at + |text|] == text
    {
      var i := 0;
      while i < |text|
        invariant 0 <= i <= |text|
        invariant forall k :: 0 <= k < at ==> buf[k] == old(buf[k])
        invariant forall k :: 0 <= k < i ==> buf[at + k] == text[k]
      {
        buf[at + i] := text[i];
        i := i + 1;
      }
    }

    /** `http_client_worktask_build_request`: print the head into a buffer of the computed size, copy the
        body behind it. */
    method WorktaskBuildRequest() returns (next: State)
      requires Valid() && |RequestText(verb, host, path, body)| <= INT_MAX
      modifies this`requestBuffer, this`requestLength, this`bytesSent
      ensures Valid() && next == SendingRequest && fresh(requestBuffer)
      ensures requestBuffer.Length ==
              |host| + (if path == "" then 1 else |path|) + 256 + (if body == "" then 0 else 128) + |body|
      ensures requestBuffer[..requestLength] == RequestText(verb, host, path, body) && bytesSent == 0
    {
      hide RequestText, RequestHead, LinkedList.Valid;
      HeadThenBody(verb, host, path, body);
      RequestFits(verb, host, path, body);
      var maxLen := Capacity(host, path, body);
      var buffer := new char[maxLen];
      var head := RequestHead(verb, host, path, body);
      var total := |head| + |body|;
      if total > maxLen { return Error; }
      CopyInto(buffer, 0, head);
      CopyInto(buffer, |head|, body);
      assert buffer[..|head|] == head;
      assert buffer[..total] == buffer[..|head|] + buffer[|head|..total];
      requestBuffer, requestLength, bytesSent := buffer, total, 0;
      return SendingRequest;
    }

    /** `transport_write` of what is left of the request: the number of bytes taken, or -1, and then whether that
        only means would-block, as it does on an exhausted script. */
    method TransportWrite() returns (written: int, again: bool)
      requires bytesSent <= requestLength <= requestBuffer.Length
      modifies this`outgoing, this`accepted
      ensures -1 <= written <= requestLength - bytesSent
      ensures outgoing == if old(outgoing) == [] then [] else old(outgoing)[1..]
      ensures accepted == old(accepted) + if written > 0 then requestBuffer[bytesSent..bytesSent + written] else []
      ensures match if old(outgoing) == [] then Busy else old(outgoing)[0]
              case Took(limit) => written == if limit <= requestLength - bytesSent then limit
                                             else requestLength - bytesSent
              case TookNone => written == 0
              case Busy => written == -1 && again
              case Broke => written == -1 && !again
    {
      assert accepted == accepted + [];
      if outgoing == [] { return -1, true; }
      var event, remaining := outgoing[0], requestLength - bytesSent;
      outgoing := outgoing[1..];
      match event {
        case Took(limit) =>
          written, again := if limit <= remaining then limit else remaining, false;
          accepted := accepted + requestBuffer[bytesSent..bytesSent + written];
          return;
        case TookNone => return 0, false;
        case Busy => return -1, true;
        case Broke => return -1, false;
      }
    }

    /** `http_client_worktask_send_request`; `clock` is what SystemMonotonicMS returns in it. */
    method WorktaskSendRequest(clock: nat) returns (next: State)
      requires Valid() && state == SendingRequest
      modifies this`bytesSent, this`retries, this`outgoing, this`accepted, this`nextRetryAt
      ensures Valid() && SendView().(state := next) == SendStep(old(SendView()))
      ensures nextRetryAt == if next != SendingRequest then old(nextRetryAt)
                             else if bytesSent > old(bytesSent) || old(outgoing) == [] || old(outgoing)[0].Busy?
                             then clock + 100
                             else clock + 1000
    {
      hide LinkedList.Valid, GrowBuffer.Valid;
      var written, again := TransportWrite();
      if written > 0 {
        assert requestBuffer[..requestLength][bytesSent..bytesSent + written]
            == requestBuffer[bytesSent..bytesSent + written];
        bytesSent := bytesSent + written;
        if bytesSent >= requestLength {
          retries := 0;
          return ReadingFirstline;
        }
        nextRetryAt := clock + 100;
      } else if written == 0 {
        assert accepted == old(accepted);
        retries := retries + 1;
        nextRetryAt := clock + 1000;
      } else if again {
        nextRetryAt := clock + 100;
      } else if retries < 3 {
        retries := retries + 1;
        nextRetryAt := clock + 1000;
      } else {
        return Error;
      }
      return SendingRequest;
    }

    /** `transport_read`: takes the next result off the script. */
    method TransportRead() returns (event: ReadEvent)
      modifies this`incoming
      ensures event == Next(old(incoming)) && incoming == Rest(old(incoming))
      ensures event.Data? ==> event.bytes != ""
    {
      if incoming == [] { return WouldBlock; }
      event := if incoming[0] == Data("") then Closed else incoming[0];
      incoming := incoming[1..];
    }

    /** The read-and-append block that the work tasks share: stay on bytes or would-block, else fail. */
    method ReadOrFail(stay: State) returns (next: State)
      requires Valid()
      modifies this`incoming, recvBuf, recvBuf.addr
      ensures Valid() && (recvBuf.addr == old(recvBuf.addr) || fresh(recvBuf.addr))
      ensures View().(state := next) == ReadMore(old(View()), stay) && next in {stay, Error}
    {
      var event := TransportRead();
      match event {
        case Data(d) =>
          recvBuf.Append(d);
          return stay;
        case WouldBlock => return stay;
        case Closed => return Error;
        case Fail => return Error;
      }
    }

    /** `http_client_worktask_read_firstline` */
    method WorktaskReadFirstline() returns (next: State)
      requires Valid() && state == ReadingFirstline
      modifies this`incoming, recvBuf, recvBuf.addr
      ensures Valid() && (recvBuf.addr == old(recvBuf.addr) || fresh(recvBuf.addr))
      ensures View().(state := next) == FirstlineStep(accepts, old(View()))
    {
      hide LineEndFrom, LinkedList.Valid;
      var before := incoming;
      next := ReadOrFail(ReadingFirstline);
      if before == [] || !before[0].Data? || before[0].bytes == "" { return next; }
      var lineEnd := FindLineEnd(recvBuf.addr, recvBuf.size);
      if lineEnd < 0 {
        if recvBuf.size >= 1024 { return Error; }
        return ReadingFirstline;
      }
      if lineEnd == 0 || lineEnd >= 1024 { return Error; }
      var line := recvBuf.addr[..recvBuf.size][..lineEnd];
      if !accepts(line) { return Error; }
      recvBuf.Consume(lineEnd + 2);
      return ReadingHeaders;
    }

    /** The two header look-ups that decide the framing. */
    static method LookUpFraming(headers: LinkedList<KeyValue>) returns (chunked: bool, length: nat)
      requires headers.Valid()
      ensures chunked == IsChunked(headers.Items())
      ensures !chunked ==> length == DeclaredLength(headers.Items())
    {
      hide Lookup, ParseInt, Contains;
      length := 0;
      var coding := GetHeaderValue(headers, "Transfer-Encoding");
      chunked := coding.Some? && Contains(coding.value, "chunked");
      if chunked { return; }
      var text := GetHeaderValue(headers, "Content-Length");
      if text.Some? {
        var parsed := ParseInt(text.value);
        if parsed.Some? && parsed.value > 0 { length := parsed.value; }
      }
    }

    /** The framing decision at the end of `http_client_worktask_read_headers`. */
    method ChooseFraming() returns (next: State)
      requires Valid()
      modifies this`contentLength
      ensures Valid() && View().(state := next) == EnterBody(old(View()))
      ensures next in {DecipherChonkiness, ReadingBody, Returning}
    {
      hide IsChunked, DeclaredLength, LinkedList.Valid;
      var chunked, length := LookUpFraming(headers);
      if chunked { return DecipherChonkiness; }
      if length > 0 {
        contentLength := length;
        if recvBuf.size >= contentLength { return Returning; }
        return ReadingBody;
      }
      return Returning;
    }

    /** `http_client_worktask_read_headers` */
    method WorktaskReadHeaders() returns (next: State)
      requires Valid() && state == ReadingHeaders
      modifies this`incoming, this`headers, this`contentLength, this`retries, recvBuf, recvBuf.addr
      ensures Valid() && (recvBuf.addr == old(recvBuf.addr) || fresh(recvBuf.addr))
      ensures headers == old(headers) || (fresh(headers) && fresh(headers.nodes))
      ensures View().(state := next) == HeadersStep(old(View()))
      ensures retries == if next in {ReadingHeaders, Error} then old(retries) else 0
    {
      hide FieldsOf, EnterBody, EndMarkFrom, LinkedList.Valid;
      var headersEnd := FindHeadersEnd(recvBuf.addr, recvBuf.size);
      if headersEnd < 0 {
        next := ReadOrFail(ReadingHeaders);
        return;
      }
      assert recvBuf.addr[..recvBuf.size][..headersEnd + 4] == recvBuf.addr[..headersEnd + 4];
      var list := ParseHeaders(recvBuf.addr, headersEnd + 4);
      if list == null { return Error; }
      headers := list;
      recvBuf.Consume(headersEnd + 4);
      retries := 0;
      next := ChooseFraming();
    }

    /** The size field of a chunk-size line: scan to the delimiter, then convert. */
    method ReadSize(line: string) returns (r: SizeResult)
      ensures r == SizeOf(line)
    {
      var parseLen := 0;
      while parseLen < |line| && !EndsSize(line[parseLen])
        invariant parseLen <= |line|
        invariant SizeFieldLength(line) == parseLen + SizeFieldLength(line[parseLen..])
      {
        parseLen := parseLen + 1;
      }
      if parseLen == 0 { return BadSize; }
      if parseLen >= LINE_BUFFER { return Overflows; }
      var val := Strtoull16(line[..parseLen]);
      return match val case None => BadSize case Some(v) => Size(v);
    }

    /** The zero-size branch of `http_client_worktask_decipher_chonkiness`. */
    method CloseBody() returns (next: State)
      requires Valid()
      modifies this`incoming, recvBuf, recvBuf.addr
      ensures Valid() && (recvBuf.addr == old(recvBuf.addr) || fresh(recvBuf.addr))
      ensures View().(state := next) == CloseChunks(old(View()))
    {
      hide EndMarkFrom, LinkedList.Valid;
      if recvBuf.size >= 2 && recvBuf.addr[0] == '\r' && recvBuf.addr[1] == '\n' {
        recvBuf.Consume(2);
        return Returning;
      }
      var end := FindHeadersEnd(recvBuf.addr, recvBuf.size);
      if end >= 0 {
        recvBuf.Consume(end + 4);
        return Returning;
      }
      next := ReadOrFail(DecipherChonkiness);
    }

    /** `http_client_worktask_decipher_chonkiness` */
    method WorktaskDecipherChonkiness() returns (next: State)
      requires Valid() && state == DecipherChonkiness
      modifies this`incoming, this`chunkRemaining, recvBuf, recvBuf.addr
      ensures Valid() && (recvBuf.addr == old(recvBuf.addr) || fresh(recvBuf.addr))
      ensures View().(state := next) == SizeStep(old(View()))
    {
      hide SizeOf, CloseChunks, LineEndFrom;
      var lineEnd := FindLineEnd(recvBuf.addr, recvBuf.size);
      if lineEnd < 0 {
        next := ReadOrFail(DecipherChonkiness);
        return;
      }
      var size := ReadSize(recvBuf.addr[..recvBuf.size][..lineEnd]);
      if size.BadSize? { return Error; }
      if size.Overflows? { return Undefined; }
      recvBuf.Consume(lineEnd + 2);
      if size.val == 0 {
        next := CloseBody();
        return;
      }
      chunkRemaining := Remaining(size.val);
      return ReadingBodyChunked;
    }

    /** `http_client_worktask_read_body_chunked` */
    method WorktaskReadBodyChunked() returns (next: State)
      requires Valid() && state == ReadingBodyChunked
      modifies this`incoming, this`chunkRemaining, this`decodedBody, recvBuf, recvBuf.addr
      ensures Valid() && (recvBuf.addr == old(recvBuf.addr) || fresh(recvBuf.addr))
      ensures View().(state := next) == ChunkStep(old(View()))
    {
      hide LinkedList.Valid;
      if chunkRemaining >= TWO63 { return Undefined; }
      if recvBuf.size < chunkRemaining {
        next := ReadOrFail(ReadingBodyChunked);
        return;
      }
      decodedBody := decodedBody + recvBuf.addr[..recvBuf.size][..chunkRemaining];
      recvBuf.Consume(chunkRemaining);
      chunkRemaining := 0;
      next := EndOfChunk();
    }

    /** Its second half: the CRLF behind the data. */
    method EndOfChunk() returns (next: State)
      requires Valid()
      modifies this`incoming, recvBuf, recvBuf.addr
      ensures Valid() && (recvBuf.addr == old(recvBuf.addr) || fresh(recvBuf.addr))
      ensures View().(state := next) == EndChunk(old(View()))
    {
      if recvBuf.size < 2 {
        next := ReadOrFail(ReadingBodyChunked);
        return;
      }
      if recvBuf.addr[0] != '\r' || recvBuf.addr[1] != '\n' { return Error; }
      recvBuf.Consume(2);
      return DecipherChonkiness;
    }

    /** `http_client_worktask_read_body` */
    method WorktaskReadBody() returns (next: State)
      requires Valid() && state == ReadingBody
      modifies this`incoming, this`retries, recvBuf, recvBuf.addr
      ensures Valid() && (recvBuf.addr == old(recvBuf.addr) || fresh(recvBuf.addr))
      ensures View().(state := next) == BodyStep(old(View()))
      ensures retries == if next == Returning then 0 else old(retries)
    {
      hide LinkedList.Valid;
      var event := TransportRead();
      if event.WouldBlock? { return ReadingBody; }
      if event.Fail? { return Error; }
      if event.Closed? && recvBuf.size < contentLength { return Error; }
      if event.Data? {
        recvBuf.Append(event.bytes);
      }
      if recvBuf.size < contentLength { return ReadingBody; }
      retries := 0;
      return Returning;
    }

    /** `http_client_worktask_returning`: the receiver gets the decoded body, or the buffer when nothing was
        decoded. */
    method WorktaskReturning() returns (next: State)
      requires Valid()
      modifies this`delivered, this`blockingOut
      ensures Valid() && next == if hasReceiver then Disposing else Error
      ensures delivered == old(delivered) + if hasReceiver && !blockingMode then [Output(View())] else []
      ensures blockingOut == if hasReceiver && blockingMode then Some(Output(View())) else old(blockingOut)
    {
      assert delivered == delivered + [];
      if !hasReceiver { return Error; }
      var response := if |decodedBody| > 0 then decodedBody else recvBuf.addr[..recvBuf.size];
      if blockingMode {
        blockingOut := Some(response);
      } else {
        delivered := delivered + [response];
      }
      return Disposing;
    }

    /** The receiving cases of `http_client_taskwork`. */
    method ReceiveCall()
      requires Valid() && Receiving(state)
      modifies this`state, this`incoming, this`headers, this`contentLength, this`retries, this`chunkRemaining,
               this`decodedBody, recvBuf, recvBuf.addr
      ensures Valid() && (recvBuf.addr == old(recvBuf.addr) || fresh(recvBuf.addr))
      ensures headers == old(headers) || (fresh(headers) && fresh(headers.nodes))
      ensures View() == Step(accepts, old(View()))
    {
      hide FirstlineStep, HeadersStep, SizeStep, ChunkStep, BodyStep, LinkedList.Valid, GrowBuffer.Valid,
           GrowBuffer.Contents, LinkedList.Items;
      if state == ReadingFirstline {
        state := WorktaskReadFirstline();
      } else if state == ReadingHeaders {
        state := WorktaskReadHeaders();
      } else if state == DecipherChonkiness {
        state := WorktaskDecipherChonkiness();
      } else if state == ReadingBodyChunked {
        state := WorktaskReadBodyChunked();
      } else {
        state := WorktaskReadBody();
      }
    }

    /** The receive part of the loop in `http_blocking_work`, on a connection the peer will close: it
        ends, and where it ends is the run of the machine. */
    method ReceiveAll()
      requires Valid() && Receiving(state) && Closed in incoming
      modifies this`state, this`incoming, this`headers, this`contentLength, this`retries, this`chunkRemaining,
               this`decodedBody, recvBuf, recvBuf.addr
      ensures Valid() && state in {Returning, Error, Undefined}
      ensures View() == Run(accepts, old(View()))
    {
      hide Step, Run, LinkedList.Valid;
      ghost var start := View();
      RunHalts(accepts, start);
      while Receiving(state)
        invariant Valid() && (recvBuf.addr == old(recvBuf.addr) || fresh(recvBuf.addr))
        invariant Run(accepts, View()) == Run(accepts, start)
        invariant if Receiving(state) then Closed in incoming else Run(accepts, View()) == View()
        decreases |incoming|, recvBuf.size, Rank(View())
      {
        ghost var c := View();
        StepLeads(accepts, c);
        ReceiveCall();
      }
    }

    /** The rest of `http_blocking_work`: receive, then hand over what was received, or fail. */
    method BlockingReceive() returns (success: bool)
      requires Valid() && blockingMode && Receiving(state) && Closed in incoming
      modifies this, recvBuf, recvBuf.addr
      ensures Valid()
      ensures var end := Run(accepts, old(View()));
              && success == (end.state == Returning && hasReceiver)
              && blockingOut == if success then Some(Output(end)) else old(blockingOut)
    {
      hide Run, LinkedList.Valid;
      ReceiveAll();
      if state != Returning { return false; }
      state := WorktaskReturning();
      return state == Disposing;
    }

    /** The states whose work task waits for `next_retry_at`. */
    predicate Held(now: nat)
      reads this
    {
      state in {SendingRequest, ReadingFirstline, ReadingHeaders, ReadingBody} && now < nextRetryAt
    }

    /** The switch of `http_client_taskwork`, from the built request to the disposal; `clock` is what
        SystemMonotonicMS returns inside the work task. */
    method WorkCall(clock: nat)
      requires Valid() && |RequestText(verb, host, path, body)| <= INT_MAX
      modifies this, recvBuf, recvBuf.addr
      ensures Valid() && (recvBuf.addr == old(recvBuf.addr) || fresh(recvBuf.addr))
      ensures headers == old(headers) || (fresh(headers) && fresh(headers.nodes))
      ensures match old(state)
              case SendingRequest => SendView() == SendStep(old(SendView()))
              case BuildingRequest =>
                && state == SendingRequest && bytesSent == 0
                && requestBuffer[..requestLength] == RequestText(verb, host, path, body)
              case Returning => state == if hasReceiver then Disposing else Error
              case Error => state == Disposing
              case s => if Receiving(s) then View() == Step(accepts, old(View())) else state == s
      ensures task == if old(state) == Disposing then None else old(task)
      ensures var calls := old(state) == Returning && hasReceiver && !blockingMode;
              delivered == old(delivered) + if calls then [Output(old(View()))] else []
      ensures old(state) in {Returning, Error} || state == old(state) || Follows(old(state), state)
    {
      hide Step, SendStep, RequestText, LinkedList.Valid;
      assert delivered == delivered + [];
      if Receiving(state) {
        StepFollows(accepts, View());
        ReceiveCall();
      } else if state == BuildingRequest {
        state := WorktaskBuildRequest();
      } else if state == SendingRequest {
        SendFollows(SendView());
        state := WorktaskSendRequest(clock);
      } else if state == Returning {
        state := WorktaskReturning();
      } else if state == Error {
        state := Disposing;
      } else if state == Disposing {
        task := None;
      }
    }

    /** `http_client_taskwork`; `now` is what SystemMonotonicMS returns on entry. Outside blocking mode one call is
        one step of the client's life. */
    method Taskwork(now: nat, clock: nat)
      requires Valid() && |RequestText(verb, host, path, body)| <= INT_MAX
      modifies this, recvBuf, recvBuf.addr
      ensures Valid() && (recvBuf.addr == old(recvBuf.addr) || fresh(recvBuf.addr))
      ensures headers == old(headers) || (fresh(headers) && fresh(headers.nodes))
      ensures var held := now < old(nextRetryAt);
              match old(state)
              case SendingRequest => SendView() == if held then old(SendView()) else SendStep(old(SendView()))
              case ReadingFirstline => View() == if held then old(View()) else Step(accepts, old(View()))
              case ReadingHeaders => View() == if held then old(View()) else Step(accepts, old(View()))
              case DecipherChonkiness => View() == Step(accepts, old(View()))
              case ReadingBodyChunked => View() == Step(accepts, old(View()))
              case ReadingBody => View() == if held then old(View()) else Step(accepts, old(View()))
              case _ => true
      ensures old(state) == BuildingRequest ==>
                && state == SendingRequest && bytesSent == 0
                && requestBuffer[..requestLength] == RequestText(verb, host, path, body)
      ensures old(state) == Returning ==> state == if hasReceiver then Disposing else Error
      ensures old(state) == Error ==> state == Disposing
      ensures task == if old(state) == Disposing then None else old(task)
      ensures var calls := old(state) == Returning && hasReceiver && !blockingMode;
              delivered == old(delivered) + if calls then [Output(old(View()))] else []
      ensures !blockingMode ==> forall failed: bool ::
                LifeView(failed || old(state) == Error) == LifeStep(old(LifeView(failed)), Choice(state, []))
    {
      hide Step, SendStep, RequestText, LinkedList.Valid, GrowBuffer.Valid, LifeStep, Output, Follows,
           View, SendView, Valid;
      assert delivered == delivered + [];
      if !Held(now) {
        WorkCall(clock);
      }
      if !blockingMode {
        forall failed: bool
          ensures LifeView(failed || old(state) == Error) == LifeStep(old(LifeView(failed)), Choice(state, []))
        {
          IsLifeStep(old(LifeView(failed)), LifeView(failed || old(state) == Error));
        }
      }
    }
  }
}

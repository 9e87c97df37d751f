/** `HttpClient::readResponse` over a flat byte sequence that ends in the stream's end or in a read
    that throws: the reader the buffered one refines. */
module HttpResponse {
  import opened BufferedReading
  import opened HttpText

  const MAX_BODY: nat := 16 * 1024 * 1024
  const MAX_HEAD: nat := 64 * 1024
  const MAX_INTERIM: nat := 8
  const MAX_SIZE_LINE: nat := 1024
  /** A body without a length is read this many bytes at a time. */
  const PIECE: nat := 4096

  /** A value taken off the front of a byte sequence, and what is left. */
  datatype Step<+T> = Done(value: T, rest: string) | Stop(why: Failure)

  datatype Response = Response(status: nat, reason: string, headers: seq<Header>, body: string)

  /** A parsed head; `http10` records the version the status line named. */
  datatype Head = Head(line: StatusLine, headers: seq<Header>)

  datatype Block = Block(headers: seq<Header>, bytes: nat)

  /** A head, and the bytes all heads have taken up to its end. */
  datatype Preamble = Preamble(head: Head, bytes: nat)

  function TakeLine(s: string, ch: Channel): Step<string> {
    match FirstRecord(s, '\n', ch)
    case TooLong => Stop(LineTooLong)
    case Broke => Stop(StreamFailed)
    case Record(line, _) => Done(line, s[|line|..])
  }

  /** A first line arrives whole, or up to the orderly end of the stream. */
  predicate Seen(s: string, ch: Channel) {
    TakeLine(s, ch).Done? && TakeLine(s, ch).value != ""
  }

  /** Header lines up to the blank one; `bytes` is what the head has taken so far. */
  function HeaderBlock(s: string, ch: Channel, bytes: nat, acc: seq<Header>): (r: Step<Block>)
    ensures r.Done? ==> |r.rest| <= |s|
    decreases |s|
  {
    match TakeLine(s, ch)
    case Stop(why) => Stop(why)
    case Done(line, rest) =>
      if bytes + |line| > MAX_HEAD then Stop(HeadersTooLarge)
      else if line == [] then Stop(ClosedInHeaders)
      else if line == "\r\n" then Done(Block(acc, bytes + 2), rest)
      else if line[|line| - 1] != '\n' then Stop(ClosedInHeaders)
      else match ParseHeaderLine(line)
        case Err(why) => Stop(why)
        case Ok(h) => HeaderBlock(rest, ch, bytes + |line|, acc + [h])
  }

  predicate IsInterim(status: nat) {
    100 <= status < 200 && status != 101
  }

  /** A status line and its header block; `bytes` is what earlier heads have taken. */
  function OneHead(s: string, ch: Channel, bytes: nat): (r: Step<Preamble>)
    ensures r.Done? ==> |r.rest| <= |s|
  {
    match TakeLine(s, ch)
    case Stop(why) => Stop(why)
    case Done(line, rest) =>
      if line == [] then Stop(ClosedBeforeStatus)
      else match ParseStatusLine(line)
        case Err(why) => Stop(why)
        case Ok(st) =>
          match HeaderBlock(rest, ch, bytes + |line|, [])
          case Stop(why) => Stop(why)
          case Done(block, after) => Done(Preamble(Head(st, block.headers), block.bytes), after)
  }

  /** Heads up to the first that is not interim, `interim` of them having gone by. */
  function ReadHead(s: string, ch: Channel, interim: nat, bytes: nat): (r: Step<Head>)
    ensures r.Done? ==> |r.rest| <= |s|
    decreases MAX_INTERIM - interim
  {
    if interim >= MAX_INTERIM then Stop(TooManyInterim)
    else match OneHead(s, ch, bytes)
      case Stop(why) => Stop(why)
      case Done(p, after) =>
        if IsInterim(p.head.line.status) then ReadHead(after, ch, interim + 1, p.bytes)
        else Done(p.head, after)
  }

  // ---- Chunked coding ----------------------------------------------------------------

  predicate IsHex(c: char) {
    '0' <= c <= '9' || 'a' <= c <= 'f' || 'A' <= c <= 'F'
  }

  function HexDigit(c: char): (v: nat)
    requires IsHex(c)
    ensures v < 16
  {
    if '0' <= c <= '9' then c as int - '0' as int
    else if 'a' <= c <= 'f' then c as int - 'a' as int + 10
    else c as int - 'A' as int + 10
  }

  predicate AllHex(s: string) {
    forall i :: 0 <= i < |s| ==> IsHex(s[i])
  }

  function HexValue(s: string): nat
    requires AllHex(s)
  {
    if s == [] then 0 else 16 * HexValue(s[..|s| - 1]) + HexDigit(s[|s| - 1])
  }

  /** End of the run of hex digits of `s` that starts at `i`. */
  function HexRun(s: string, i: nat): (n: nat)
    requires i <= |s|
    ensures i <= n <= |s|
    ensures forall j :: i <= j < n ==> IsHex(s[j])
    ensures n < |s| ==> !IsHex(s[n])
    decreases |s| - i
  {
    if i == |s| || !IsHex(s[i]) then i else HexRun(s, i + 1)
  }

  /** No CR and no NUL. */
  predicate IsExtension(s: string) {
    s == [] || (s[0] == ';' && forall i :: 0 <= i < |s| ==> s[i] != '\r' && s[i] as int != 0)
  }

  function ChunkSize(line: string): Result<nat> {
    if |line| < 3 || |line| > MAX_SIZE_LINE || line[|line| - 2] != '\r' || line[|line| - 1] != '\n' then
      Err(MalformedChunkSize)
    else
      var text := line[..|line| - 2];
      var digits := HexRun(text, 0);
      if digits > 16 then Err(ChunkSizeTooLarge)
      else if digits == 0 || !IsExtension(text[digits..]) then Err(MalformedChunkSize)
      else Ok(HexValue(text[..digits]))
  }

  /** Trailer lines up to the blank one. */
  function Trailers(s: string, ch: Channel, bytes: nat): (r: Step<()>)
    ensures r.Done? ==> |r.rest| <= |s|
    decreases |s|
  {
    match TakeLine(s, ch)
    case Stop(why) => Stop(why)
    case Done(line, rest) =>
      if bytes + |line| > MAX_HEAD then Stop(TrailersTooLarge)
      else if line == [] || line[|line| - 1] != '\n' then Stop(ClosedInTrailers)
      else if line == "\r\n" then Done((), rest)
      else Trailers(rest, ch, bytes + |line|)
  }

  /** One chunk's data and its CRLF. */
  function ChunkData(s: string, n: nat, ch: Channel): (r: Step<string>)
    ensures r.Done? ==> |r.rest| <= |s|
  {
    if |s| < n + 2 && ch.breaks then Stop(StreamFailed)
    else if |s| < n then Stop(Truncated)
    else if |s| < n + 2 || s[n] != '\r' || s[n + 1] != '\n' then Stop(MalformedChunkEnd)
    else Done(s[..n], s[n + 2..])
  }

  function Chunked(s: string, ch: Channel, acc: string): (r: Step<string>)
    ensures r.Done? ==> |r.rest| <= |s|
    decreases |s|
  {
    match TakeLine(s, ch)
    case Stop(why) => Stop(why)
    case Done(line, rest) =>
      match ChunkSize(line)
      case Err(why) => Stop(why)
      case Ok(n) =>
        if n == 0 then
          match Trailers(rest, ch, 0)
          case Stop(why) => Stop(why)
          case Done(_, after) => Done(acc, after)
        else if n > MAX_BODY || |acc| + n > MAX_BODY then Stop(BodyTooLarge)
        else
          match ChunkData(rest, n, ch)
          case Stop(why) => Stop(why)
          case Done(data, after) => Chunked(after, ch, acc + data)
  }

  // ---- The whole response ------------------------------------------------------------

  predicate NamesCoding(h: Header) {
    EqualsIgnoreCase(h.name, "Transfer-Encoding")
  }

  function CodingCount(hs: seq<Header>): nat {
    if hs == [] then 0
    else CodingCount(hs[..|hs| - 1]) + if NamesCoding(hs[|hs| - 1]) then 1 else 0
  }

  /** Exactly one Transfer-Encoding, it says chunked, and no Content-Length is beside it. */
  predicate ChunkedOnly(hs: seq<Header>) {
    && CodingCount(hs) == 1
    && (forall i :: 0 <= i < |hs| && NamesCoding(hs[i]) ==> EqualsIgnoreCase(hs[i].value, "chunked"))
    && !HasLength(hs)
  }

  /** In full: one of the headers, and one only, names the coding. */
  lemma ChunkedOnlyMeaning(hs: seq<Header>)
    ensures CodingCount(hs) != 0 <==>
      exists i :: 0 <= i < |hs| && EqualsIgnoreCase(hs[i].name, "Transfer-Encoding")
    ensures ChunkedOnly(hs) <==>
      exists i :: 0 <= i < |hs| && EqualsIgnoreCase(hs[i].name, "Transfer-Encoding")
        && EqualsIgnoreCase(hs[i].value, "chunked")
        && forall j :: 0 <= j < |hs| ==>
             && !EqualsIgnoreCase(hs[j].name, "Content-Length")
             && (EqualsIgnoreCase(hs[j].name, "Transfer-Encoding") ==> j == i)
  {
    hide EqualsIgnoreCase;
    Codings(hs);
    if CodingCount(hs) == 1 {
      var i :| 0 <= i < |hs| && NamesCoding(hs[i]);
      assert forall j :: 0 <= j < |hs| && NamesCoding(hs[j]) ==> j == i;
    }
    if !HasLength(hs) {
      forall j | 0 <= j < |hs| ensures !EqualsIgnoreCase(hs[j].name, "Content-Length") {
        assert !NamesLength(hs[j]);
      }
    }
  }

  lemma {:induction false} Codings(hs: seq<Header>)
    ensures CodingCount(hs) != 0 <==> exists i :: 0 <= i < |hs| && NamesCoding(hs[i])
    ensures CodingCount(hs) > 1 <==>
      exists i, j :: 0 <= i < j < |hs| && NamesCoding(hs[i]) && NamesCoding(hs[j])
  {
    hide NamesCoding;
    if hs != [] {
      var n := |hs| - 1;
      Codings(hs[..n]);
      assert forall i :: 0 <= i < n ==> hs[..n][i] == hs[i];
      if NamesCoding(hs[n]) && CodingCount(hs[..n]) != 0 {
        var i :| 0 <= i < n && NamesCoding(hs[..n][i]);
        assert NamesCoding(hs[i]);
      }
    }
  }

  /** What `readResponse` reports: the response, whether the stream may be reused, the byte
      count, and the bytes it left. */
  datatype Outcome =
    | Parsed(response: Response, reusable: bool, consumed: nat, rest: string)
    | Failed(why: Failure)

  function WithBody(h: Head, body: string): Response {
    Response(h.line.status, h.line.reason, h.headers, body)
  }

  predicate Bodiless(h: Head, headRequest: bool) {
    headRequest || h.line.status == 204 || h.line.status == 304
  }

  /** The body of a final response that has one; `taken` bytes went into its heads. A stream
      is only reported reusable with every byte taken accounted for. */
  function ReadBody(h: Head, s: string, ch: Channel, taken: nat): (o: Outcome)
    ensures o.Parsed? && o.reusable ==> o.consumed + |o.rest| == taken + |s|
  {
    var keep := KeepAlive(h.headers, h.line.http10);
    if CodingCount(h.headers) != 0 then
      if !ChunkedOnly(h.headers) || h.line.http10 then Failed(UnsupportedTransferEncoding)
      else match Chunked(s, ch, "")
        case Stop(why) => Failed(why)
        case Done(body, rest) => Parsed(WithBody(h, body), keep, taken + |s| - |rest|, rest)
    else match StrictLength(h.headers, MAX_BODY)
      case Err(why) => Failed(why)
      case Ok(None) =>
        if ch.breaks then Failed(if |s| >= MAX_BODY + PIECE then BodyTooLarge else StreamFailed)
        else if |s| > MAX_BODY then Failed(BodyTooLarge)
        else Parsed(WithBody(h, s), false, taken, "")
      case Ok(Some(n)) =>
        if |s| < n then Failed(if ch.breaks then StreamFailed else Truncated)
        else Parsed(WithBody(h, s[..n]), keep, taken + n, s[n..])
  }

  /** A 101 leaves the count at the caller's zero: what follows is another protocol's. */
  function Respond(s: string, ch: Channel, headRequest: bool): (o: Outcome)
    ensures o.Parsed? && o.reusable ==> o.consumed + |o.rest| == |s|
  {
    match ReadHead(s, ch, 0, 0)
    case Stop(why) => Failed(why)
    case Done(h, rest) =>
      var taken := |s| - |rest|;
      if h.line.status == 101 then Parsed(WithBody(h, ""), false, 0, rest)
      else if Bodiless(h, headRequest) then
        Parsed(WithBody(h, ""), KeepAlive(h.headers, h.line.http10), taken, rest)
      else ReadBody(h, rest, ch, taken)
  }
}

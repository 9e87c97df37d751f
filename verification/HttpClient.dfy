/** `HttpClient::readResponse` as it runs: loops over a buffered reader, counting the bytes it
    takes. Every method computes the flat function of the same name in `HttpResponse`. */
module HttpClient {
  import opened Wrappers
  import opened BufferedReading
  import opened HttpText
  import opened HttpResponse

  /** The method's result and the bytes left unread are those of the flat function. */
  ghost predicate Agrees<T>(r: Result<T>, unread: string, s: Step<T>) {
    match s
    case Done(v, rest) => r == Ok(v) && unread == rest
    case Stop(why) => r == Err(why)
  }

  method NextLine(r: BufferedReader) returns (line: Result<string>)
    requires r.Valid()
    modifies r, r.buf, r.stream, r.stream.stream
    ensures r.Valid() && Agrees(line, r.unread, TakeLine(old(r.unread), r.Chan()))
    ensures line.Ok? ==> |old(r.unread)| == |line.value| + |r.unread|
    ensures old(r.unread) != "" ==> r.OnWire() < |old(r.unread)|
  {
    var rec := r.ReadLine();
    line := match rec
      case TooLong => Err(LineTooLong)
      case Broke => Err(StreamFailed)
      case Record(text, _) => Ok(text);
  }

  /** `consumed` counts the bytes taken, like the source's variable of that name. */
  method ReadHeaderBlock(r: BufferedReader, bytes0: nat) returns (res: Result<Block>, consumed: nat)
    requires r.Valid()
    modifies r, r.buf, r.stream, r.stream.stream
    ensures r.Valid() && Agrees(res, r.unread, HeaderBlock(old(r.unread), r.Chan(), bytes0, []))
    ensures res.Ok? ==> consumed + |r.unread| == |old(r.unread)|
  {
    hide BufferedReader.Valid, TakeLine, ParseHeaderLine;
    var headers: seq<Header> := [];
    var bytes: nat := bytes0;
    consumed := 0;
    ghost var goal := HeaderBlock(r.unread, r.Chan(), bytes0, []);
    while true
      invariant r.Valid()
      invariant goal == HeaderBlock(r.unread, r.Chan(), bytes, headers)
      invariant consumed + |r.unread| == |old(r.unread)|
      decreases |r.unread|
    {
      var line := NextLine(r);
      if line.Err? { return Err(line.why), consumed; }
      bytes := bytes + |line.value|;
      consumed := consumed + |line.value|;
      if bytes > MAX_HEAD { return Err(HeadersTooLarge), consumed; }
      if line.value == "" { return Err(ClosedInHeaders), consumed; }
      if line.value == "\r\n" { return Ok(Block(headers, bytes)), consumed; }
      if line.value[|line.value| - 1] != '\n' { return Err(ClosedInHeaders), consumed; }
      var h := ParseHeaderLine(line.value);
      if h.Err? { return Err(h.why), consumed; }
      headers := headers + [h.value];
    }
  }

  /** `saw` is set once a status line has been read, whole. */
  method ReadOneHead(r: BufferedReader, bytes: nat) returns (res: Result<Preamble>, consumed: nat, saw: bool)
    requires r.Valid()
    modifies r, r.buf, r.stream, r.stream.stream
    ensures r.Valid() && Agrees(res, r.unread, OneHead(old(r.unread), r.Chan(), bytes))
    ensures res.Ok? ==> saw && consumed + |r.unread| == |old(r.unread)|
    ensures saw <==> Seen(old(r.unread), r.Chan())
    ensures !saw && old(r.unread) != "" ==> r.OnWire() < |old(r.unread)|
  {
    hide BufferedReader.Valid, HeaderBlock, ParseStatusLine;
    saw, consumed := false, 0;
    var line := NextLine(r);
    if line.Err? { return Err(line.why), consumed, saw; }
    if line.value == "" { return Err(ClosedBeforeStatus), consumed, saw; }
    saw := true;
    var st := ParseStatusLine(line.value);
    if st.Err? { return Err(st.why), consumed, saw; }
    var block, n := ReadHeaderBlock(r, bytes + |line.value|);
    if block.Err? { return Err(block.why), consumed, saw; }
    return Ok(Preamble(Head(st.value, block.value.headers), block.value.bytes)), |line.value| + n, saw;
  }

  /** Past any interim responses to the final head. `saw` is `*sawResponseByte`. */
  method ReadHeads(r: BufferedReader) returns (res: Result<Head>, consumed: nat, saw: bool)
    requires r.Valid()
    modifies r, r.buf, r.stream, r.stream.stream
    ensures r.Valid() && Agrees(res, r.unread, ReadHead(old(r.unread), r.Chan(), 0, 0))
    ensures res.Ok? ==> saw && consumed + |r.unread| == |old(r.unread)|
    ensures saw <==> Seen(old(r.unread), r.Chan())
    ensures !saw && old(r.unread) != "" ==> r.OnWire() < |old(r.unread)|
  {
    hide BufferedReader.Valid, OneHead, Seen;
    var interim: nat := 0;
    var bytes: nat := 0;
    saw, consumed := false, 0;
    ghost var s := r.unread;
    ghost var goal := ReadHead(s, r.Chan(), 0, 0);
    while true
      invariant r.Valid() && interim <= MAX_INTERIM
      invariant goal == ReadHead(r.unread, r.Chan(), interim, bytes)
      invariant consumed + |r.unread| == |s|
      invariant if interim == 0 then !saw && r.unread == s else saw && Seen(s, r.Chan())
      decreases MAX_INTERIM - interim
    {
      if interim >= MAX_INTERIM { return Err(TooManyInterim), consumed, saw; }
      var one, n, got := ReadOneHead(r, bytes);
      saw := saw || got;
      if one.Err? { return Err(one.why), consumed, saw; }
      bytes := one.value.bytes;
      consumed := consumed + n;
      if !IsInterim(one.value.head.line.status) { return Ok(one.value.head), consumed, saw; }
      interim := interim + 1;
    }
  }

  /** The hex digits that open a chunk-size line, with the 64-bit shift written out: at most
      16 digits are taken, so the size never wraps. */
  method ReadHexSize(text: string) returns (digits: nat, size: nat, tooLong: bool)
    ensures tooLong <==> HexRun(text, 0) > 16
    ensures !tooLong ==> digits == HexRun(text, 0) && size == HexValue(text[..digits])
  {
    digits, size, tooLong := 0, 0, false;
    while digits < |text| && IsHex(text[digits])
      invariant digits <= |text| && digits <= 16
      invariant HexRun(text, 0) == HexRun(text, digits)
      invariant AllHex(text[..digits]) && size == HexValue(text[..digits]) && size < Power16(digits)
    {
      if digits >= 16 { return digits, size, true; }
      assert text[..digits + 1][..digits] == text[..digits];
      Power16Bound(digits);
      size := (size * 16) % 0x1_0000_0000_0000_0000 + HexDigit(text[digits]);
      digits := digits + 1;
    }
  }

  ghost function Power16(n: nat): nat {
    if n == 0 then 1 else 16 * Power16(n - 1)
  }

  lemma {:induction false} Power16Bound(n: nat)
    requires n <= 15
    ensures Power16(n) <= 0x1000_0000_0000_0000
    decreases 15 - n
  {
    if n < 15 {
      Power16Bound(n + 1);
    } else {
      Power16Is(15);
    }
  }

  lemma Power16Is(n: nat)
    requires n == 15
    ensures Power16(n) == 0x1000_0000_0000_0000
  {
    assert Power16(3) == 0x1000 by { assert Power16(2) == 0x100; }
    assert Power16(6) == 0x100_0000 by { assert Power16(5) == 16 * Power16(4) && Power16(4) == 16 * Power16(3); }
    assert Power16(9) == 0x10_0000_0000 by { assert Power16(8) == 16 * Power16(7) && Power16(7) == 16 * Power16(6); }
    assert Power16(12) == 0x1_0000_0000_0000 by {
      assert Power16(11) == 16 * Power16(10) && Power16(10) == 16 * Power16(9);
    }
    assert Power16(14) == 16 * Power16(13) && Power16(13) == 16 * Power16(12);
  }

  method ReadChunkSize(line: string) returns (res: Result<nat>)
    ensures res == ChunkSize(line) && (res.Ok? ==> line != "")
  {
    if |line| < 3 || |line| > MAX_SIZE_LINE || line[|line| - 2] != '\r' || line[|line| - 1] != '\n' {
      return Err(MalformedChunkSize);
    }
    var text := line[..|line| - 2];
    var digits, size, tooLong := ReadHexSize(text);
    if tooLong { return Err(ChunkSizeTooLarge); }
    if digits == 0 || !IsExtension(text[digits..]) { return Err(MalformedChunkSize); }
    res := Ok(size);
  }

  method ReadTrailers(r: BufferedReader) returns (res: Result<()>, consumed: nat)
    requires r.Valid()
    modifies r, r.buf, r.stream, r.stream.stream
    ensures r.Valid() && Agrees(res, r.unread, Trailers(old(r.unread), r.Chan(), 0))
    ensures res.Ok? ==> consumed + |r.unread| == |old(r.unread)|
  {
    hide BufferedReader.Valid, TakeLine;
    var bytes: nat := 0;
    consumed := 0;
    ghost var s := r.unread;
    ghost var goal := Trailers(s, r.Chan(), 0);
    while true
      invariant r.Valid()
      invariant goal == Trailers(r.unread, r.Chan(), bytes)
      invariant consumed + |r.unread| == |s|
      decreases |r.unread|
    {
      var line := NextLine(r);
      if line.Err? { return Err(line.why), consumed; }
      consumed := consumed + |line.value|;
      bytes := bytes + |line.value|;
      if bytes > MAX_HEAD { return Err(TrailersTooLarge), consumed; }
      if line.value == "" || line.value[|line.value| - 1] != '\n' { return Err(ClosedInTrailers), consumed; }
      if line.value == "\r\n" { return Ok(()), consumed; }
    }
  }

  /** What comes of one chunk once its data is in, and when the bytes run out before. */
  lemma ChunkDataEnds(s: string, n: nat, data: string, tail: string, ch: Channel)
    requires s == data + tail && |data| <= n
    ensures |data| == n ==>
      ChunkData(s, n, ch) ==
        if |tail| < 2 && ch.breaks then Stop(StreamFailed)
        else if |tail| < 2 || tail[0] != '\r' || tail[1] != '\n' then Stop(MalformedChunkEnd)
        else Done(data, tail[2..])
    ensures |data| + |tail| < n ==> ChunkData(s, n, ch) == Stop(if ch.breaks then StreamFailed else Truncated)
  {
    if |data| == n && |tail| >= 2 {
      assert s[n] == tail[0] && s[n + 1] == tail[1] && s[..n] == data && s[n + 2..] == tail[2..];
    }
  }

  /** One chunk's data, in pieces of at most 64 KiB. */
  method ReadPieces(r: BufferedReader, n: nat) returns (res: Result<string>)
    requires r.Valid()
    modifies r, r.buf, r.stream, r.stream.stream
    ensures r.Valid()
    ensures res.Ok? ==> |res.value| == n && old(r.unread) == res.value + r.unread
    ensures res.Err? ==> |old(r.unread)| < n && res.why == if r.Chan().breaks then StreamFailed else Truncated
  {
    hide BufferedReader.Valid;
    var data := "";
    var left := n;
    ghost var s := r.unread;
    while left != 0
      invariant r.Valid() && |data| + left == n
      invariant data + r.unread == s
      decreases left
    {
      var want := Min(left, 64 * 1024);
      var ok, bytes, broke := r.ReadExact(want, MAX_EXACT);
      if broke { return Err(StreamFailed); }
      if |bytes| != want { return Err(Truncated); }
      Regroup(data, bytes, r.unread);
      data := data + bytes;
      left := left - want;
    }
    res := Ok(data);
  }

  /** One chunk's data and the CRLF after it. */
  method ReadChunkData(r: BufferedReader, n: nat) returns (res: Result<string>, consumed: nat)
    requires r.Valid()
    modifies r, r.buf, r.stream, r.stream.stream
    ensures r.Valid() && Agrees(res, r.unread, ChunkData(old(r.unread), n, r.Chan()))
    ensures res.Ok? ==> consumed + |r.unread| == |old(r.unread)|
  {
    hide BufferedReader.Valid, ChunkData;
    ghost var s := r.unread;
    consumed := 0;
    var data := ReadPieces(r, n);
    if data.Err? {
      ChunkDataEnds(s, n, "", s, r.Chan());
      return Err(data.why), consumed;
    }
    ChunkDataEnds(s, n, data.value, r.unread, r.Chan());
    consumed := n;
    var ok, crlf, broke := r.ReadExact(2, MAX_EXACT);
    if broke { return Err(StreamFailed), consumed; }
    if |crlf| != 2 || crlf[0] != '\r' || crlf[1] != '\n' { return Err(MalformedChunkEnd), consumed; }
    consumed := consumed + 2;
    res := Ok(data.value);
  }

  method ReadChunked(r: BufferedReader) returns (res: Result<string>, consumed: nat)
    requires r.Valid()
    modifies r, r.buf, r.stream, r.stream.stream
    ensures r.Valid() && Agrees(res, r.unread, Chunked(old(r.unread), r.Chan(), ""))
    ensures res.Ok? ==> consumed + |r.unread| == |old(r.unread)|
  {
    hide BufferedReader.Valid, TakeLine, ChunkSize, ChunkData, Trailers;
    var body := "";
    consumed := 0;
    ghost var s := r.unread;
    ghost var goal := Chunked(s, r.Chan(), "");
    while true
      invariant r.Valid()
      invariant goal == Chunked(r.unread, r.Chan(), body)
      invariant consumed + |r.unread| == |s|
      decreases |r.unread|
    {
      var line := NextLine(r);
      if line.Err? { return Err(line.why), consumed; }
      consumed := consumed + |line.value|;
      var size := ReadChunkSize(line.value);
      if size.Err? { return Err(size.why), consumed; }
      if size.value == 0 {
        var end, n := ReadTrailers(r);
        if end.Err? { return Err(end.why), consumed; }
        return Ok(body), consumed + n;
      }
      if size.value > MAX_BODY || |body| + size.value > MAX_BODY { return Err(BodyTooLarge), consumed; }
      var data, n := ReadChunkData(r, size.value);
      if data.Err? { return Err(data.why), consumed; }
      body := body + data.value;
      consumed := consumed + n;
    }
  }

  /** Identity framing: everything up to the end of the stream, 4096 bytes at a time. */
  method ReadToEof(r: BufferedReader) returns (res: Result<string>)
    requires r.Valid()
    modifies r, r.buf, r.stream, r.stream.stream
    ensures r.Valid()
    ensures res ==
      if r.stream.stream.breaks then Err(if |old(r.unread)| >= MAX_BODY + PIECE then BodyTooLarge else StreamFailed)
      else if |old(r.unread)| > MAX_BODY then Err(BodyTooLarge)
      else Ok(old(r.unread))
    ensures res.Ok? ==> r.unread == ""
  {
    hide BufferedReader.Valid;
    var body := "";
    ghost var s, pieces := r.unread, 0;
    while !r.AtEof()
      invariant r.Valid() && body + r.unread == s && |body| <= MAX_BODY
      invariant r.stream.stream.breaks ==> |body| == PIECE * pieces
      decreases |r.unread|
    {
      var ok, chunk, broke := r.ReadExact(PIECE, MAX_EXACT);
      if broke { return Err(StreamFailed); }
      if chunk == "" { break; }
      if |body| + |chunk| > MAX_BODY { return Err(BodyTooLarge); }
      Regroup(body, chunk, r.unread);
      body := body + chunk;
      pieces := pieces + 1;
    }
    if r.AtEof() { r.EofEmpty(); }
    assert body == s;
    res := Ok(body);
  }

  // ---- The response as a whole -------------------------------------------------------

  /** The Connection fields joined into one list. */
  method JoinConnection(hs: seq<Header>) returns (tokens: string)
    ensures tokens == ConnectionTokens(hs, "")
  {
    tokens := "";
    var i := 0;
    while i < |hs|
      invariant i <= |hs|
      invariant ConnectionTokens(hs, "") == ConnectionTokens(hs[i..], tokens)
    {
      assert hs[i..][0] == hs[i] && hs[i..][1..] == hs[i + 1..];
      if EqualsIgnoreCase(hs[i].name, "Connection") {
        assert "" + hs[i].value == hs[i].value;
        if tokens != "" { tokens := tokens + ","; }
        tokens := tokens + hs[i].value;
      }
      i := i + 1;
    }
    assert hs[i..] == [];
  }

  /** `headerListHasToken`: item by item, each stripped of whitespace. */
  method HeaderListHasToken(value: string, token: string) returns (found: bool)
    ensures found <==> HasToken(value, token)
  {
    var pos := 0;
    while pos <= |value|
      invariant pos <= |value| + 1
      invariant HasToken(value, token) <==> ListHasToken(value, token, pos)
    {
      var comma := Find(value, ',', pos);
      var item := value[pos..comma];
      if EqualsIgnoreCase(Trim(item), token) { return true; }
      pos := comma + 1;
    }
    found := false;
  }

  /** The three scans over the headers that look for a usable Transfer-Encoding. */
  method ScanCodings(hs: seq<Header>) returns (any: bool, usable: bool)
    ensures any <==> CodingCount(hs) != 0
    ensures usable <==> ChunkedOnly(hs)
  {
    var count := 0;
    var chunkedOnly := true;
    var hasLength := false;
    var i := 0;
    while i < |hs|
      invariant i <= |hs| && count == CodingCount(hs[..i])
      invariant chunkedOnly <==>
        forall j :: 0 <= j < i && NamesCoding(hs[j]) ==> EqualsIgnoreCase(hs[j].value, "chunked")
      invariant hasLength <==> exists j :: 0 <= j < i && NamesLength(hs[j])
    {
      assert hs[..i + 1][..i] == hs[..i];
      if NamesCoding(hs[i]) {
        count := count + 1;
        if !EqualsIgnoreCase(hs[i].value, "chunked") { chunkedOnly := false; }
      }
      if NamesLength(hs[i]) { hasLength := true; }
      i := i + 1;
    }
    assert hs[..i] == hs;
    any := count != 0;
    usable := count == 1 && chunkedOnly && !hasLength;
  }

  /** What `readResponse` hands back through its result and out-parameters. */
  ghost predicate Reports(res: Result<Response>, reusable: bool, consumed: nat, unread: string, o: Outcome) {
    match o
    case Parsed(response, ru, n, rest) => res == Ok(response) && reusable == ru && consumed == n && unread == rest
    case Failed(why) => res == Err(why) && !reusable
  }

  method ReadTheBody(r: BufferedReader, h: Head, keep: bool, taken: nat)
    returns (res: Result<Response>, reusable: bool, consumed: nat)
    requires r.Valid() && keep == KeepAlive(h.headers, h.line.http10)
    modifies r, r.buf, r.stream, r.stream.stream
    ensures r.Valid()
    ensures Reports(res, reusable, consumed, r.unread, ReadBody(h, old(r.unread), r.Chan(), taken))
  {
    hide BufferedReader.Valid, CodingCount, ChunkedOnly, KeepAlive, Chunked, StrictLength;
    consumed, reusable := taken, false;
    ghost var s := r.unread;
    var any, usable := ScanCodings(h.headers);
    if any {
      if !usable || h.line.http10 { return Err(UnsupportedTransferEncoding), false, consumed; }
      var body, n := ReadChunked(r);
      if body.Err? { return Err(body.why), false, consumed; }
      return Ok(WithBody(h, body.value)), keep, consumed + n;
    }
    var length := StrictContentLength(h.headers, MAX_BODY);
    if length.Err? { return Err(length.why), false, consumed; }
    match length.value {
      case Some(n) =>
        StrictLengthBound(h.headers, n);
        var ok, bytes, broke := r.ReadExact(n, MAX_EXACT);
        if broke { return Err(StreamFailed), false, consumed; }
        if |bytes| != n { return Err(Truncated), false, consumed; }
        return Ok(WithBody(h, bytes)), keep, consumed + |bytes|;
      case None =>
        var body := ReadToEof(r);
        if body.Err? { return Err(body.why), false, consumed; }
        return Ok(WithBody(h, body.value)), false, consumed;
    }
  }

  lemma StrictLengthBound(hs: seq<Header>, n: nat)
    requires StrictLength(hs, MAX_BODY) == Ok(Some(n))
    ensures n <= MAX_BODY
  {
  }

  /** `readResponse`: for every way the stream fragments its bytes, every buffer capacity and
      every line bound, the result is the flat function of the unread bytes. */
  method ReadResponse(r: BufferedReader, headRequest: bool)
    returns (res: Result<Response>, reusable: bool, consumed: nat, saw: bool)
    requires r.Valid()
    modifies r, r.buf, r.stream, r.stream.stream
    ensures r.Valid()
    ensures Reports(res, reusable, consumed, r.unread, Respond(old(r.unread), r.Chan(), headRequest))
    ensures res.Ok? ==> saw
    ensures saw <==> Seen(old(r.unread), r.Chan())
    ensures !saw && old(r.unread) != "" ==> r.OnWire() < |old(r.unread)|
  {
    hide BufferedReader.Valid, ReadHead, ReadBody, ConnectionTokens, HasToken, Seen;
    reusable, consumed := false, 0;
    ghost var s := r.unread;
    var head, taken, got := ReadHeads(r);
    saw := got;
    if head.Err? { return Err(head.why), false, 0, saw; }
    var h := head.value;
    if h.line.status == 101 { return Ok(WithBody(h, "")), false, 0, saw; }
    var tokens := JoinConnection(h.headers);
    var close := HeaderListHasToken(tokens, "close");
    var stay := HeaderListHasToken(tokens, "keep-alive");
    var keep := !close && (!h.line.http10 || stay);
    if headRequest || h.line.status == 204 || h.line.status == 304 {
      return Ok(WithBody(h, "")), keep, taken, saw;
    }
    res, reusable, consumed := ReadTheBody(r, h, keep, taken);
  }

  /** Fragmentation independence: two readers of different capacity over the same bytes cut up
      in different ways, and ending the same way, give the same response, reuse flag and byte
      count, or the same failure, and see a first line alike. */
  method TwoSchedules(sent: string, breaks: bool, sizes1: nat -> nat, sizes2: nat -> nat,
                      capacity1: nat, capacity2: nat, maxLine: nat, headRequest: bool)
    returns (o1: (Result<Response>, bool, nat, bool), o2: (Result<Response>, bool, nat, bool))
    requires capacity1 > 0 && capacity2 > 0
    ensures o1.0 == o2.0 && o1.1 == o2.1 && o1.3 == o2.3
    ensures o1.0.Ok? ==> o1.2 == o2.2
  {
    hide Respond;
    var tcp1 := new TcpStream(sent, breaks, sizes1);
    var counted1 := new CountingStream(tcp1);
    var r1 := new BufferedReader(counted1, capacity1, maxLine);
    var tcp2 := new TcpStream(sent, breaks, sizes2);
    var counted2 := new CountingStream(tcp2);
    var r2 := new BufferedReader(counted2, capacity2, maxLine);
    var res1, reusable1, consumed1, saw1 := ReadResponse(r1, headRequest);
    var res2, reusable2, consumed2, saw2 := ReadResponse(r2, headRequest);
    o1, o2 := (res1, reusable1, consumed1, saw1), (res2, reusable2, consumed2, saw2);
  }
}

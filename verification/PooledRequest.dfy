/** `HttpClient::pooledRequest`: one exchange over a connection, the decision to give the
    connection back, and the single retry. Writing the request, dialling and the clock are the
    environment's; each can fail, and so can a read. */
module PooledRequest {
  import opened BufferedReading
  import opened HttpText
  import opened HttpResponse
  import opened HttpClient
  import Grammar = ResponseGrammar

  const READER_CAPACITY: nat := 8 * 1024
  const MAX_LINE: nat := 64 * 1024

  function ChannelOf(stream: TcpStream): Channel {
    Channel(MAX_LINE, stream.breaks)
  }

  /** What the flat function says about the bytes of `stream` from `from` on. */
  function Reading(stream: TcpStream, from: nat, headRequest: bool): Outcome
    requires from <= |stream.sent|
  {
    Respond(stream.sent[from..], ChannelOf(stream), headRequest)
  }

  /** The connection stands exactly after the response that began at `from`: after its interim
      and final heads and its body, with nothing of it left and nothing beyond it taken. */
  ghost predicate AtBoundary(stream: TcpStream, from: nat, headRequest: bool)
    reads stream
  {
    && from <= stream.pos <= |stream.sent|
    && var o := Reading(stream, from, headRequest);
       o.Parsed? && o.reusable && stream.sent[stream.pos..] == o.rest && stream.pos == from + o.consumed
  }

  /** The first line is over the bound, or the stream breaks after at least one byte and before
      the first LF. */
  predicate Unseen(s: string, ch: Channel) {
    RecordLength(s, '\n') > ch.maxLine || (ch.breaks && s != "" && '\n' !in s)
  }

  /** The flag that stands for "something of a response was seen" is set after the first line
      was read. So bytes arrive without it being set exactly in these two cases. */
  lemma UnseenExactly(s: string, ch: Channel)
    ensures s != "" && !Seen(s, ch) <==> Unseen(s, ch)
    ensures s == "" ==> !Seen(s, ch)
  {
    var n := RecordLength(s, '\n');
    RecordEndIs(s, '\n', 0, n);
  }

  /** An input of each kind. */
  lemma UnseenInputs()
    ensures Unseen(seq(MAX_LINE + 1, _ => 'x'), Channel(MAX_LINE, false))
    ensures Unseen("HTTP/1.1 2", Channel(MAX_LINE, true)) && !Unseen("HTTP/1.1 2", Channel(MAX_LINE, false))
  {
    FreeRecord(seq(MAX_LINE + 1, _ => 'x'), '\n', Channel(MAX_LINE, false));
    FreeRecord("HTTP/1.1 2", '\n', Channel(MAX_LINE, true));
  }

  /** One exchange. The byte counts decide the release exactly: it happens if and only if the
      connection stands at the boundary. */
  method Exchange(stream: TcpStream, headRequest: bool)
    returns (res: Result<Response>, release: bool, saw: bool)
    requires stream.Valid()
    modifies stream
    ensures stream.Valid()
    ensures var o := Reading(stream, old(stream.pos), headRequest);
      if o.Parsed? then res == Ok(o.response) && saw else res == Err(o.why)
    ensures old(stream.pos) <= stream.pos
    ensures var o := Reading(stream, old(stream.pos), headRequest);
      release <==> o.Parsed? && o.reusable && stream.pos == old(stream.pos) + o.consumed
    ensures release <==> AtBoundary(stream, old(stream.pos), headRequest)
    ensures saw <==> Seen(stream.sent[old(stream.pos)..], ChannelOf(stream))
    ensures !saw && stream.pos > old(stream.pos) <==> Unseen(stream.sent[old(stream.pos)..], ChannelOf(stream))
  {
    hide Respond, Seen, Unseen;
    var counted := new CountingStream(stream);
    var r := new BufferedReader(counted, READER_CAPACITY, MAX_LINE);
    ghost var s := r.unread;
    var reusable, consumed;
    res, reusable, consumed, saw := ReadResponse(r, headRequest);
    release := res.Ok? && reusable && counted.total == consumed;
    if release {
      assert r.unread == stream.sent[stream.pos..];
    }
    UnseenExactly(s, ChannelOf(stream));
  }

  /** What the world does to one attempt. */
  datatype Weather = Weather(writeFails: bool, expired: bool)

  datatype Reply =
    | Answer(response: Response)
    | Refused(why: Failure)
    | ConnectFailed
    | WriteFailed
    | TimedOut

  predicate IsIdempotent(m: string) {
    exists i :: 0 <= i < 6 && EqualsIgnoreCase(m, ["GET", "HEAD", "PUT", "DELETE", "OPTIONS", "TRACE"][i])
  }

  /** The six methods; POST and PATCH are not among them, and GET is not HEAD. */
  lemma IdempotentNames(m: string)
    ensures IsIdempotent(m) <==>
      EqualsIgnoreCase(m, "GET") || EqualsIgnoreCase(m, "HEAD") || EqualsIgnoreCase(m, "PUT")
      || EqualsIgnoreCase(m, "DELETE") || EqualsIgnoreCase(m, "OPTIONS") || EqualsIgnoreCase(m, "TRACE")
    ensures EqualsIgnoreCase(m, "POST") || EqualsIgnoreCase(m, "PATCH") ==> !IsIdempotent(m)
    ensures EqualsIgnoreCase(m, "GET") ==> !EqualsIgnoreCase(m, "HEAD")
  {
    var six := ["GET", "HEAD", "PUT", "DELETE", "OPTIONS", "TRACE"];
    assert six[0] == "GET" && six[1] == "HEAD" && six[2] == "PUT";
    assert six[3] == "DELETE" && six[4] == "OPTIONS" && six[5] == "TRACE";
    FirstLetters(m, "HEAD", "POST");
    FirstLetters(m, "TRACE", "PATCH");
  }

  lemma FirstLetters(m: string, a: string, b: string)
    requires a != "" && b != ""
    ensures EqualsIgnoreCase(m, a) && EqualsIgnoreCase(m, b) ==> Lower(a[0]) == Lower(b[0])
  {
  }

  /** What one attempt over a connection comes to. */
  function Attempt(stream: TcpStream, from: nat, headRequest: bool, w: Weather): Reply
    requires from <= |stream.sent|
  {
    var o := Reading(stream, from, headRequest);
    if !w.writeFails && o.Parsed? then Answer(o.response)
    else if w.expired then TimedOut
    else if w.writeFails then WriteFailed
    else Refused(o.why)
  }

  /** An attempt over a connection on which a whole response waits reports that response, status,
      reason, headers and body, even past its deadline. */
  lemma AttemptAnswers(stream: TcpStream, from: nat, headRequest: bool, w: Weather, x: Grammar.Exchange, rest: string)
    requires from <= |stream.sent| && stream.sent[from..] == x.Text() + rest
    requires x.Valid(headRequest, rest, stream.breaks) && !w.writeFails
    ensures var last := x.heads[|x.heads| - 1];
      Attempt(stream, from, headRequest, w) ==
        Answer(Response(Decimal(last.code), if last.phrase == "" then "" else Trim(last.phrase[1..]),
                        Grammar.Headers(last.fields), x.body.Content()))
  {
    hide Respond;
    Grammar.ReadsExchange(x, ChannelOf(stream), headRequest, rest);
  }

  /** A first attempt over a pooled connection is repeated: the request may be sent twice, it did
      not time out, and the write failed or no first line was read. */
  predicate Retries(m: string, stream: TcpStream, from: nat, w: Weather)
    requires from <= |stream.sent|
  {
    IsIdempotent(m) && !w.expired && (w.writeFails || !Seen(stream.sent[from..], ChannelOf(stream)))
  }

  /** `pooled` is what the pool offered (null: nothing), `dialled` what a fresh connect gives
      (null: it throws); `sends` counts the connections the request was written to. The reply is
      that of the one attempt, or of the second exactly if the first is repeated; a connection is
      released exactly if it gave the answer and stands at the boundary. */
  method Request(m: string, pooled: TcpStream?, dialled: TcpStream?, first: Weather, second: Weather)
    returns (reply: Reply, released: TcpStream?, sends: nat)
    requires pooled != null ==> pooled.Valid()
    requires dialled != null ==> dialled.Valid() && dialled != pooled
    modifies pooled, dialled
    ensures pooled != null && !Retries(m, pooled, old(pooled.pos), first) ==>
      && sends == 1 && reply == Attempt(pooled, old(pooled.pos), EqualsIgnoreCase(m, "HEAD"), first)
      && (released == null || released == pooled)
      && (released != null <==> reply.Answer? && AtBoundary(pooled, old(pooled.pos), EqualsIgnoreCase(m, "HEAD")))
    ensures pooled == null || Retries(m, pooled, old(pooled.pos), first) ==>
      var w := if pooled == null then first else second;
      var before := if pooled == null then 0 else 1;
      && (released == null || released == dialled)
      && (dialled == null ==> sends == before && reply == ConnectFailed)
      && (dialled != null ==>
            && sends == before + 1 && reply == Attempt(dialled, old(dialled.pos), EqualsIgnoreCase(m, "HEAD"), w)
            && (released != null <==>
                  reply.Answer? && AtBoundary(dialled, old(dialled.pos), EqualsIgnoreCase(m, "HEAD"))))
    ensures sends <= 2
    ensures sends == 2 <==>
      && pooled != null && dialled != null && !first.expired
      && (first.writeFails || !Seen(pooled.sent[old(pooled.pos)..], ChannelOf(pooled)))
      && (EqualsIgnoreCase(m, "GET") || EqualsIgnoreCase(m, "HEAD") || EqualsIgnoreCase(m, "PUT")
          || EqualsIgnoreCase(m, "DELETE") || EqualsIgnoreCase(m, "OPTIONS") || EqualsIgnoreCase(m, "TRACE"))
    ensures EqualsIgnoreCase(m, "POST") || EqualsIgnoreCase(m, "PATCH") ==> sends <= 1
    ensures EqualsIgnoreCase(m, "GET") && pooled != null && dialled != null && !first.expired
            && old(pooled.pos) == |pooled.sent| ==>
      sends == 2 && reply == Attempt(dialled, old(dialled.pos), false, second)
  {
    hide Respond, Seen, Unseen, EqualsIgnoreCase;
    IdempotentNames(m);
    if pooled != null { UnseenExactly(pooled.sent[pooled.pos..], ChannelOf(pooled)); }
    var headRequest := EqualsIgnoreCase(m, "HEAD");
    var idempotent := IsIdempotent(m);
    sends, released := 0, null;
    var attempt := 0;
    while true
      invariant 0 <= attempt <= 1 && sends == attempt && released == null
      invariant pooled != null ==> pooled.Valid()
      invariant dialled != null ==> dialled.Valid() && dialled.pos == old(dialled.pos)
      invariant attempt == 0 && pooled != null ==> pooled.pos == old(pooled.pos)
      invariant attempt == 1 ==> pooled != null && Retries(m, pooled, old(pooled.pos), first)
      decreases 1 - attempt
    {
      var wasReused := attempt == 0 && pooled != null;
      var conn := if wasReused then pooled else dialled;
      if conn == null { return ConnectFailed, null, sends; }
      var weather := if attempt == 0 then first else second;
      sends := sends + 1;
      var saw := false;
      if weather.writeFails {
        reply := WriteFailed;
      } else {
        var res, release;
        res, release, saw := Exchange(conn, headRequest);
        if res.Ok? {
          released := if release then conn else null;
          return Answer(res.value), released, sends;
        }
        reply := Refused(res.why);
      }
      if weather.expired { return TimedOut, null, sends; }
      if wasReused && idempotent && !saw {
        attempt := attempt + 1;
        continue;
      }
      return reply, null, sends;
    }
  }
}

/** The chunked transfer coding (section 7.1 of RFC 9112) as a sender may spell it, and the
    proof that `readResponse` decodes exactly those spellings. */
module ChunkedCoding {
  import opened BufferedReading
  import opened HttpText
  import opened HttpResponse

  // ---- Lines -------------------------------------------------------------------------

  /** Ends in LF and holds no other. */
  predicate IsLine(l: string) {
    EndsIn(l, '\n') && Free(l[..|l| - 1], '\n')
  }

  lemma TakeLineOf(l: string, rest: string, ch: Channel)
    requires IsLine(l) && |l| <= ch.maxLine
    ensures TakeLine(l + rest, ch) == Done(l, rest)
  {
    var s := l + rest;
    assert forall j :: 0 <= j < |l| - 1 ==> s[j] == l[..|l| - 1][j];
    RecordEndIs(s, '\n', 0, |l|);
    assert s[..|l|] == l && s[|l|..] == rest;
  }

  lemma TakeLineSplits(s: string, ch: Channel)
    requires TakeLine(s, ch).Done? && EndsIn(TakeLine(s, ch).value, '\n')
    ensures var t := TakeLine(s, ch); IsLine(t.value) && |t.value| <= ch.maxLine && s == t.value + t.rest
  {
    var l := TakeLine(s, ch).value;
    RecordEndIs(s, '\n', 0, |l|);
    assert forall j :: 0 <= j < |l| - 1 ==> l[j] == s[j];
  }

  // ---- Chunk sizes -------------------------------------------------------------------

  /** A chunk size in hex, either case, with leading zeros, and its extension. */
  datatype Size = Size(digits: string, extension: string)

  predicate IsSize(z: Size, n: nat) {
    && 0 < |z.digits| <= 16 && AllHex(z.digits) && HexValue(z.digits) == n
    && (z.extension == "" || z.extension[0] == ';')
    && (forall i :: 0 <= i < |z.extension| ==> z.extension[i] !in ['\r', '\n', '\0'])
    && |z.digits| + |z.extension| + 2 <= 1024
  }

  function HexChar(d: nat, upper: bool): char
    requires d < 16
  {
    if upper then "0123456789ABCDEF"[d] else "0123456789abcdef"[d]
  }

  /** Hexadecimal notation: appending a digit multiplies by sixteen and adds it, in either case. */
  lemma HexGrows(s: string, d: nat, upper: bool)
    requires AllHex(s) && d < 16
    ensures var t := s + [HexChar(d, upper)];
      HexValue("") == 0 && AllHex(t) && HexValue(t) == 16 * HexValue(s) + d
  {
    var c := HexChar(d, upper);
    assert IsHex(c) && HexDigit(c) == d;
    assert (s + [c])[..|s|] == s;
  }

  lemma HexCharacters(c: char)
    ensures IsHex(c) <==> c in "0123456789abcdefABCDEF"
  {
  }

  /** A number as a sender writes it. */
  function ToHex(n: nat, upper: bool): string {
    (if n < 16 then "" else ToHex(n / 16, upper)) + [HexChar(n % 16, upper)]
  }

  lemma {:induction false} HexReadsBack(n: nat, upper: bool)
    ensures AllHex(ToHex(n, upper)) && HexValue(ToHex(n, upper)) == n
  {
    hide HexValue, AllHex, HexChar;
    if n < 16 {
      NoHex();
      HexGrows("", n, upper);
    } else {
      HexReadsBack(n / 16, upper);
      HexGrows(ToHex(n / 16, upper), n % 16, upper);
    }
  }

  lemma NoHex()
    ensures AllHex("") && HexValue("") == 0
  {
  }

  function SizeLine(z: Size): string {
    z.digits + z.extension + "\r\n"
  }

  lemma HexRunIs(s: string, i: nat, n: nat)
    requires i <= n <= |s| && (forall j :: i <= j < n ==> IsHex(s[j])) && (n < |s| ==> !IsHex(s[n]))
    ensures HexRun(s, i) == n
  {
  }

  lemma SizeLineParses(z: Size, n: nat)
    requires IsSize(z, n)
    ensures ChunkSize(SizeLine(z)) == Ok(n) && IsLine(SizeLine(z)) && |SizeLine(z)| <= MAX_SIZE_LINE
  {
    var line := SizeLine(z);
    var text := z.digits + z.extension;
    assert line == text + "\r\n" && line[..|line| - 2] == text;
    HexRunIs(text, 0, |z.digits|);
    assert text[..|z.digits|] == z.digits && text[|z.digits|..] == z.extension;
    assert line[..|line| - 1] == text + "\r";
  }

  lemma SizeLineSplits(line: string) returns (z: Size)
    requires ChunkSize(line).Ok? && IsLine(line)
    ensures IsSize(z, ChunkSize(line).value) && line == SizeLine(z)
  {
    var text := line[..|line| - 2];
    var k := HexRun(text, 0);
    z := Size(text[..k], text[k..]);
    assert line == text + "\r\n" && text == z.digits + z.extension;
    forall j | 0 <= j < |z.extension| ensures z.extension[j] != '\n' {
      assert z.extension[j] == line[..|line| - 1][k + j];
    }
  }

  // ---- Trailers ----------------------------------------------------------------------

  predicate AreTrailers(ts: seq<string>) {
    forall i :: 0 <= i < |ts| ==> IsLine(ts[i]) && ts[i] != "\r\n"
  }

  function Concat(ts: seq<string>): string {
    if ts == [] then "" else ts[0] + Concat(ts[1..])
  }

  lemma {:induction false} TrailersOf(ts: seq<string>, tail: string, ch: Channel, bytes: nat)
    requires AreTrailers(ts) && bytes + |Concat(ts)| + 2 <= MAX_HEAD <= ch.maxLine
    ensures Trailers(Concat(ts) + "\r\n" + tail, ch, bytes) == Done((), tail)
    decreases |ts|
  {
    hide TakeLine;
    var s := Concat(ts) + "\r\n" + tail;
    if ts == [] {
      assert s == "\r\n" + tail;
      TakeLineOf("\r\n", tail, ch);
    } else {
      var rest := Concat(ts[1..]) + "\r\n" + tail;
      assert s == ts[0] + rest;
      TakeLineOf(ts[0], rest, ch);
      TrailersOf(ts[1..], tail, ch, bytes + |ts[0]|);
    }
  }

  lemma {:induction false} TrailersSplit(s: string, ch: Channel, bytes: nat) returns (ts: seq<string>)
    requires Trailers(s, ch, bytes).Done?
    ensures AreTrailers(ts) && bytes + |Concat(ts)| + 2 <= MAX_HEAD
    ensures s == Concat(ts) + "\r\n" + Trailers(s, ch, bytes).rest
    decreases |s|
  {
    hide TakeLine, IsLine;
    var t := TakeLine(s, ch);
    TakeLineSplits(s, ch);
    if t.value == "\r\n" {
      ts := [];
      assert s == "" + "\r\n" + t.rest;
    } else {
      var more := TrailersSplit(t.rest, ch, bytes + |t.value|);
      ts := [t.value] + more;
      assert ts[1..] == more;
      Prepend(t.value, Concat(more), "\r\n", Trailers(t.rest, ch, bytes + |t.value|).rest);
    }
  }

  lemma Prepend(a: string, b: string, c: string, d: string)
    ensures a + (b + c + d) == (a + b) + c + d
    ensures a + (b + d) == (a + b) + d
  {
  }

  // ---- The coding --------------------------------------------------------------------

  datatype Chunk = Chunk(size: Size, data: string)

  datatype Coding = Coding(chunks: seq<Chunk>, last: Size, trailers: seq<string>)

  predicate IsChunk(c: Chunk) {
    c.data != "" && IsSize(c.size, |c.data|)
  }

  predicate IsCoding(c: Coding) {
    && (forall i :: 0 <= i < |c.chunks| ==> IsChunk(c.chunks[i]))
    && IsSize(c.last, 0)
    && AreTrailers(c.trailers) && |Concat(c.trailers)| + 2 <= 0x1_0000
  }

  function Data(cs: seq<Chunk>): string {
    if cs == [] then "" else cs[0].data + Data(cs[1..])
  }

  function EncodeChunk(c: Chunk): string {
    SizeLine(c.size) + c.data + "\r\n"
  }

  function Encode(c: Coding): string
    decreases |c.chunks|
  {
    if c.chunks == [] then SizeLine(c.last) + Concat(c.trailers) + "\r\n"
    else EncodeChunk(c.chunks[0]) + Encode(c.(chunks := c.chunks[1..]))
  }

  lemma ChunkOf(c: Chunk, rest: string, ch: Channel, acc: string)
    requires IsChunk(c) && |acc| + |c.data| <= MAX_BODY && MAX_SIZE_LINE <= ch.maxLine
    ensures Chunked(EncodeChunk(c) + rest, ch, acc) == Chunked(rest, ch, acc + c.data)
  {
    hide ChunkSize, IsSize, TakeLine, IsLine, SizeLine;
    var line := SizeLine(c.size);
    var body := c.data + "\r\n" + rest;
    assert EncodeChunk(c) + rest == line + body;
    SizeLineParses(c.size, |c.data|);
    TakeLineOf(line, body, ch);
    assert body[..|c.data|] == c.data && body[|c.data| + 2..] == rest;
    assert ChunkData(body, |c.data|, ch) == Done(c.data, rest);
  }

  lemma LastOf(c: Coding, tail: string, ch: Channel, acc: string)
    requires IsCoding(c) && c.chunks == [] && MAX_HEAD <= ch.maxLine
    ensures Chunked(Encode(c) + tail, ch, acc) == Done(acc, tail)
  {
    hide ChunkSize, IsSize, AreTrailers, Trailers, TakeLine, IsLine;
    var line := SizeLine(c.last);
    var rest := Concat(c.trailers) + "\r\n" + tail;
    assert Encode(c) + tail == line + rest;
    SizeLineParses(c.last, 0);
    TakeLineOf(line, rest, ch);
    TrailersOf(c.trailers, tail, ch, 0);
  }

  /** Every spelling of every body within the cap is decoded to that body, and the bytes after
      the coding are left unread, in order. */
  lemma {:induction false} DecodesEverySpelling(c: Coding, tail: string, ch: Channel, acc: string)
    requires IsCoding(c) && |acc| + |Data(c.chunks)| <= MAX_BODY && MAX_HEAD <= ch.maxLine
    ensures Chunked(Encode(c) + tail, ch, acc) == Done(acc + Data(c.chunks), tail)
    decreases |c.chunks|
  {
    hide Chunked, IsSize, IsChunk, AreTrailers, EncodeChunk, SizeLine;
    if c.chunks == [] {
      LastOf(c, tail, ch, acc);
      assert acc + Data(c.chunks) == acc;
    } else {
      var first, more := c.chunks[0], c.(chunks := c.chunks[1..]);
      Regroup(EncodeChunk(first), Encode(more), tail);
      ChunkOf(first, Encode(more) + tail, ch, acc);
      DecodesEverySpelling(more, tail, ch, acc + first.data);
      Regroup(acc, first.data, Data(more.chunks));
    }
  }

  /** Conversely, whatever is decoded was such a spelling. */
  lemma {:induction false} DecodesOnlySpellings(s: string, ch: Channel, acc: string) returns (c: Coding)
    requires Chunked(s, ch, acc).Done? && |acc| <= MAX_BODY
    ensures IsCoding(c) && |acc| + |Data(c.chunks)| <= MAX_BODY
    ensures s == Encode(c) + Chunked(s, ch, acc).rest
    ensures Chunked(s, ch, acc).value == acc + Data(c.chunks)
    decreases |s|
  {
    hide ChunkSize, IsSize, Trailers, TakeLine, ChunkData, IsLine, AreTrailers;
    var t := TakeLine(s, ch);
    var n := ChunkSize(t.value).value;
    SizeLineEnds(t.value);
    TakeLineSplits(s, ch);
    var z := SizeLineSplits(t.value);
    if n == 0 {
      var ts := TrailersSplit(t.rest, ch, 0);
      c := Coding([], z, ts);
      Prepend(t.value, Concat(ts), "\r\n", Trailers(t.rest, ch, 0).rest);
      assert acc + "" == acc;
    } else {
      var d := ChunkData(t.rest, n, ch);
      ChunkDataSplits(t.rest, n, ch);
      var more := DecodesOnlySpellings(d.rest, ch, acc + d.value);
      c := Push(Chunk(z, d.value), more, Chunked(d.rest, ch, acc + d.value).rest);
      Prepend(t.value, d.value, "\r\n", d.rest);
      Regroup(acc, d.value, Data(more.chunks));
    }
  }

  /** Put one chunk in front of a coding. */
  lemma Push(first: Chunk, more: Coding, tail: string) returns (c: Coding)
    requires IsChunk(first) && IsCoding(more)
    ensures IsCoding(c) && c.chunks == [first] + more.chunks
    ensures Data(c.chunks) == first.data + Data(more.chunks)
    ensures Encode(c) + tail == SizeLine(first.size) + first.data + "\r\n" + (Encode(more) + tail)
  {
    hide IsSize, SizeLine, AreTrailers;
    c := more.(chunks := [first] + more.chunks);
    assert c.chunks[1..] == more.chunks;
    assert c.(chunks := c.chunks[1..]) == more;
    Regroup(EncodeChunk(first), Encode(more), tail);
  }

  lemma ChunkDataSplits(s: string, n: nat, ch: Channel)
    requires ChunkData(s, n, ch).Done?
    ensures var d := ChunkData(s, n, ch); |d.value| == n && s == d.value + "\r\n" + d.rest && |d.rest| < |s|
  {
  }

  lemma SizeLineEnds(line: string)
    requires ChunkSize(line).Ok?
    ensures EndsIn(line, '\n')
  {
  }

  /** The chunked decoder accepts a byte sequence exactly when it begins with a spelling of a
      body within the cap, and then gives that body and leaves what follows. */
  lemma ChunkedExactly(s: string, ch: Channel, body: string, rest: string)
    requires MAX_HEAD <= ch.maxLine
    ensures Chunked(s, ch, "") == Done(body, rest) <==>
      exists c :: IsCoding(c) && |body| <= 0x100_0000 && body == Data(c.chunks) && s == Encode(c) + rest
  {
    hide Chunked, IsCoding;
    if Chunked(s, ch, "") == Done(body, rest) {
      var c := DecodesOnlySpellings(s, ch, "");
      assert "" + Data(c.chunks) == Data(c.chunks);
      assert IsCoding(c) && |body| <= 0x100_0000 && body == Data(c.chunks) && s == Encode(c) + rest;
    }
    forall c | IsCoding(c) && |body| <= 0x100_0000 && body == Data(c.chunks) && s == Encode(c) + rest
      ensures Chunked(s, ch, "") == Done(body, rest)
    {
      DecodesEverySpelling(c, rest, ch, "");
      assert "" + Data(c.chunks) == Data(c.chunks);
    }
  }
}

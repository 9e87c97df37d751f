/** HTTP/1.1 responses as a peer may write them, interim heads included, and the proof that
    `readResponse` reads exactly those, in every framing. */
module ResponseGrammar {
  import opened BufferedReading
  import opened HttpText
  import opened HttpResponse
  import opened ChunkedCoding

  // ---- Header lines ------------------------------------------------------------------

  /** A field with the whitespace its sender put around the value. */
  datatype Field = Field(name: string, before: string, value: string, after: string) {
    predicate Valid() {
      IsToken(name) && AllOws(before) && AllOws(after) && Trimmed(value) && IsFieldValue(value)
    }
    function Line(): string { name + ":" + before + value + after + "\r\n" }
    function Parsed(): Header { Header(name, value) }
  }

  lemma FieldLineParses(f: Field)
    requires f.Valid()
    ensures ParseHeaderLine(f.Line()) == Ok(f.Parsed())
    ensures IsLine(f.Line()) && f.Line() != "\r\n"
  {
    hide ParseHeaderLine;
    HeaderLineRoundTrip(f.name, f.before, f.value, f.after);
    var l := f.Line();
    var text := f.name + ":" + f.before + f.value + f.after;
    assert Free(text, '\n');
    assert l[..|l| - 1] == text + "\r";
  }

  lemma FieldLineSplits(line: string) returns (f: Field)
    requires ParseHeaderLine(line).Ok?
    ensures f.Valid() && line == f.Line() && ParseHeaderLine(line).value == f.Parsed()
  {
    hide Trim, IsToken, IsFieldValue, Trimmed, AllOws;
    var text := line[..|line| - 2];
    var colon := Find(text, ':', 0);
    var name, raw := text[..colon], text[colon + 1..];
    var a, b := TrimSplits(raw);
    f := Field(name, a, Trim(raw), b);
    assert line == name + ":" + raw + "\r\n";
    SpreadOut(name + ":", a, Trim(raw), b, "\r\n");
  }

  lemma SpreadOut(n: string, a: string, v: string, b: string, e: string)
    ensures n + (a + v + b) + e == n + a + v + b + e
  {
  }

  function Lines(fs: seq<Field>): string {
    if fs == [] then "" else fs[0].Line() + Lines(fs[1..])
  }

  predicate AreFields(fs: seq<Field>) {
    forall i :: 0 <= i < |fs| ==> fs[i].Valid()
  }

  function Headers(fs: seq<Field>): seq<Header> {
    if fs == [] then [] else [fs[0].Parsed()] + Headers(fs[1..])
  }

  lemma {:induction false} HeaderBlockOf(fs: seq<Field>, tail: string, ch: Channel, bytes: nat, acc: seq<Header>)
    requires AreFields(fs) && bytes + |Lines(fs)| + 2 <= MAX_HEAD <= ch.maxLine
    ensures HeaderBlock(Lines(fs) + "\r\n" + tail, ch, bytes, acc) ==
            Done(Block(acc + Headers(fs), bytes + |Lines(fs)| + 2), tail)
    decreases |fs|
  {
    hide TakeLine, ParseHeaderLine, Field.Valid, Field.Line, IsLine;
    var s := Lines(fs) + "\r\n" + tail;
    if fs == [] {
      BlankLine(tail, ch);
      assert s == "\r\n" + tail;
      assert acc + Headers(fs) == acc;
    } else {
      var rest := Lines(fs[1..]) + "\r\n" + tail;
      var l := fs[0].Line();
      Prepend(l, Lines(fs[1..]), "\r\n", tail);
      FieldLineParses(fs[0]);
      LineEnds(l);
      TakeLineOf(l, rest, ch);
      HeaderBlockOf(fs[1..], tail, ch, bytes + |l|, acc + [fs[0].Parsed()]);
      assert (acc + [fs[0].Parsed()]) + Headers(fs[1..]) == acc + Headers(fs);
    }
  }

  lemma LineEnds(l: string)
    requires IsLine(l)
    ensures l != "" && l[|l| - 1] == '\n'
  {
  }

  lemma BlankLine(tail: string, ch: Channel)
    requires ch.maxLine >= 2
    ensures TakeLine("\r\n" + tail, ch) == Done("\r\n", tail)
  {
    assert "\r\n"[..1] == "\r";
    TakeLineOf("\r\n", tail, ch);
  }

  lemma {:induction false} HeaderBlockSplits(s: string, ch: Channel, bytes: nat, acc: seq<Header>)
    returns (fs: seq<Field>)
    requires HeaderBlock(s, ch, bytes, acc).Done?
    ensures AreFields(fs) && bytes + |Lines(fs)| + 2 <= MAX_HEAD
    ensures var r := HeaderBlock(s, ch, bytes, acc);
      s == Lines(fs) + "\r\n" + r.rest && r.value == Block(acc + Headers(fs), bytes + |Lines(fs)| + 2)
    decreases |s|
  {
    hide TakeLine, ParseHeaderLine, Field.Valid, Field.Line, IsLine;
    var t := TakeLine(s, ch);
    TakeLineSplits(s, ch);
    if t.value == "\r\n" {
      fs := [];
      assert acc + Headers(fs) == acc;
      assert s == "" + "\r\n" + t.rest;
    } else {
      var f := FieldLineSplits(t.value);
      var more := HeaderBlockSplits(t.rest, ch, bytes + |t.value|, acc + [f.Parsed()]);
      fs := [f] + more;
      assert fs[1..] == more;
      Prepend(t.value, Lines(more), "\r\n", HeaderBlock(s, ch, bytes, acc).rest);
      assert (acc + [f.Parsed()]) + Headers(more) == acc + Headers(fs);
    }
  }

  // ---- Heads -------------------------------------------------------------------------

  /** A head; `phrase` is empty or a space and whatever the peer writes after it. */
  datatype HeadText = HeadText(version: string, code: string, phrase: string, fields: seq<Field>) {
    predicate Valid() {
      && |version| == 8 && version[..5] == "HTTP/" && IsDigit(version[5]) && version[6] == '.' && IsDigit(version[7])
      && |code| == 3 && AllDigits(code)
      && (phrase == "" || phrase[0] == ' ') && Free(phrase, '\n')
      && AreFields(fields)
    }
    function StatusText(): string { version + " " + code + phrase + "\r\n" }
    function Text(): string { StatusText() + (Lines(fields) + "\r\n") }
    function Status(): StatusLine
      requires AllDigits(code)
    {
      StatusLine(Decimal(code), if phrase == "" then "" else Trim(phrase[1..]), version == "HTTP/1.0")
    }
    function Parsed(): Head
      requires AllDigits(code)
    {
      Head(Status(), Headers(fields))
    }
  }

  lemma StatusLineParses(h: HeadText)
    requires h.Valid()
    ensures ParseStatusLine(h.StatusText()) == Ok(h.Status()) && IsLine(h.StatusText())
  {
    var raw := h.StatusText();
    var line := h.version + " " + h.code + h.phrase;
    assert raw == line + "\r\n" && raw[..|raw| - 2] == line;
    assert line[..8] == h.version && line[9..12] == h.code && line[12..] == h.phrase;
    assert line[..5] == h.version[..5] && line[8] == ' ';
    FindSkip(line, ' ', 9, 12);
    if h.phrase != "" { assert line[13..] == h.phrase[1..]; }
    assert raw[..|raw| - 1] == line + "\r";
    VersionFree(h.version);
  }

  lemma VersionFree(v: string)
    requires |v| == 8 && v[..5] == "HTTP/" && IsDigit(v[5]) && v[6] == '.' && IsDigit(v[7])
    ensures Free(v, '\n')
  {
  }

  lemma StatusLineSplits(raw: string, fs: seq<Field>) returns (h: HeadText)
    requires ParseStatusLine(raw).Ok? && IsLine(raw) && AreFields(fs)
    ensures h.Valid() && h.fields == fs && raw == h.StatusText() && ParseStatusLine(raw).value == h.Status()
  {
    var line := raw[..|raw| - 2];
    var sp := Find(line, ' ', 9);
    assert sp == 12;
    h := HeadText(line[..8], line[9..12], line[12..], fs);
    assert raw == line + "\r\n" && line == h.version + " " + h.code + h.phrase;
    assert h.version[..5] == line[..5];
    forall j | 0 <= j < |h.phrase| ensures h.phrase[j] != '\n' {
      assert h.phrase[j] == raw[..|raw| - 1][12 + j];
    }
    if sp < |line| { assert h.phrase[1..] == line[sp + 1..]; }
  }

  lemma OneHeadOf(h: HeadText, tail: string, ch: Channel, bytes: nat)
    requires h.Valid() && bytes + |h.Text()| <= MAX_HEAD <= ch.maxLine
    ensures OneHead(h.Text() + tail, ch, bytes) == Done(Preamble(h.Parsed(), bytes + |h.Text()|), tail)
  {
    hide TakeLine, ParseStatusLine, HeaderBlock, HeadText.StatusText, HeadText.Status, IsLine;
    StatusLineParses(h);
    LineEnds(h.StatusText());
    var rest := Lines(h.fields) + "\r\n" + tail;
    Regroup(h.StatusText(), Lines(h.fields) + "\r\n", tail);
    TakeLineOf(h.StatusText(), rest, ch);
    HeaderBlockOf(h.fields, tail, ch, bytes + |h.StatusText()|, []);
    assert [] + Headers(h.fields) == Headers(h.fields);
  }

  lemma OneHeadSplits(s: string, ch: Channel, bytes: nat) returns (h: HeadText)
    requires OneHead(s, ch, bytes).Done?
    ensures h.Valid() && bytes + |h.Text()| <= MAX_HEAD
    ensures var r := OneHead(s, ch, bytes);
      s == h.Text() + r.rest && r.value == Preamble(h.Parsed(), bytes + |h.Text()|)
  {
    hide TakeLine, ParseStatusLine, HeaderBlock, HeadText.StatusText, HeadText.Status, IsLine;
    var t := TakeLine(s, ch);
    StatusLineEnds(t.value);
    TakeLineSplits(s, ch);
    var fs := HeaderBlockSplits(t.rest, ch, bytes + |t.value|, []);
    h := StatusLineSplits(t.value, fs);
    Regroup(t.value, Lines(fs) + "\r\n", OneHead(s, ch, bytes).rest);
    assert [] + Headers(fs) == Headers(fs);
  }

  lemma StatusLineEnds(raw: string)
    requires ParseStatusLine(raw).Ok?
    ensures EndsIn(raw, '\n')
  {
  }

  function Heads(hs: seq<HeadText>): string {
    if hs == [] then "" else hs[0].Text() + Heads(hs[1..])
  }

  /** Heads of which the last is final and the ones before it are interim: 1xx, but not 101. */
  predicate IsPreamble(hs: seq<HeadText>) {
    && hs != []
    && (forall i :: 0 <= i < |hs| ==> hs[i].Valid())
    && (forall i :: 0 <= i < |hs| ==> (hs[i].code[0] == '1' && hs[i].code != "101" <==> i < |hs| - 1))
  }

  /** Three digits, as text and as a number. */
  lemma CodeDigits(code: string)
    requires |code| == 3 && AllDigits(code)
    ensures Decimal(code) == 101 <==> code == "101"
    ensures IsInterim(Decimal(code)) <==> code[0] == '1' && code != "101"
  {
    hide Decimal;
    CodeValue(code);
  }

  lemma CodeValue(code: string)
    requires |code| == 3 && AllDigits(code)
    ensures Decimal(code) == 100 * (code[0] as int - 48) + 10 * (code[1] as int - 48) + code[2] as int - 48
  {
    var two, one := code[..2], code[..1];
    assert two[..1] == one && one[..0] == "";
    assert Decimal(one) == code[0] as int - 48;
    assert Decimal(two) == 10 * Decimal(one) + code[1] as int - 48;
  }

  lemma {:induction false} ReadHeadOf(hs: seq<HeadText>, tail: string, ch: Channel, interim: nat, bytes: nat)
    requires IsPreamble(hs) && interim + |hs| <= MAX_INTERIM && bytes + |Heads(hs)| <= MAX_HEAD <= ch.maxLine
    ensures ReadHead(Heads(hs) + tail, ch, interim, bytes) == Done(hs[|hs| - 1].Parsed(), tail)
    decreases |hs|
  {
    hide OneHead, HeadText.Text, HeadText.Valid;
    var h, more := hs[0], hs[1..];
    Regroup(h.Text(), Heads(more), tail);
    OneHeadOf(h, Heads(more) + tail, ch, bytes);
    HasDigits(h);
    if more != [] {
      ReadHeadOf(more, tail, ch, interim + 1, bytes + |h.Text()|);
    } else {
      assert Heads(more) + tail == tail;
    }
  }

  lemma {:induction false} ReadHeadSplits(s: string, ch: Channel, interim: nat, bytes: nat) returns (hs: seq<HeadText>)
    requires ReadHead(s, ch, interim, bytes).Done?
    ensures IsPreamble(hs) && interim + |hs| <= MAX_INTERIM && bytes + |Heads(hs)| <= MAX_HEAD
    ensures var r := ReadHead(s, ch, interim, bytes);
      s == Heads(hs) + r.rest && r.value == hs[|hs| - 1].Parsed()
    decreases MAX_INTERIM - interim
  {
    hide OneHead, HeadText.Text, HeadText.Valid, Decimal;
    var t := OneHead(s, ch, bytes);
    var h := OneHeadSplits(s, ch, bytes);
    HasDigits(h);
    if IsInterim(t.value.head.line.status) {
      var more := ReadHeadSplits(t.rest, ch, interim + 1, t.value.bytes);
      hs := [h] + more;
      assert hs[1..] == more;
      Regroup(h.Text(), Heads(more), ReadHead(s, ch, interim, bytes).rest);
    } else {
      hs := [h];
      assert Heads(hs) == h.Text() + "";
    }
  }

  lemma HasDigits(h: HeadText)
    requires h.Valid()
    ensures |h.code| == 3 && AllDigits(h.code)
    ensures IsInterim(Decimal(h.code)) <==> h.code[0] == '1' && h.code != "101"
  {
    CodeDigits(h.code);
  }

  // ---- Responses ---------------------------------------------------------------------

  /** How the body is written. */
  datatype Body =
    | NoBody
    | Coded(coding: Coding)
    | Sized(text: string)
    | UntilClose(text: string)
  {
    function Text(): string {
      match this
      case NoBody => ""
      case Coded(c) => Encode(c)
      case Sized(t) => t
      case UntilClose(t) => t
    }
    function Content(): string {
      match this
      case NoBody => ""
      case Coded(c) => Data(c.chunks)
      case Sized(t) => t
      case UntilClose(t) => t
    }
  }

  /** Whether a body so written is what the head announces; `rest` is what follows it, and `breaks`
      says whether the stream ends in a failing read. */
  predicate Announced(h: Head, body: Body, headRequest: bool, rest: string, breaks: bool) {
    var none := headRequest || h.line.status in {101, 204, 304};
    && |body.Content()| <= 0x100_0000
    && match body
       case NoBody => none
       case Coded(c) => !none && ChunkedOnly(h.headers) && !h.line.http10 && IsCoding(c)
       case Sized(t) => !none && CodingCount(h.headers) == 0 && HasLength(h.headers) && LengthsSay(h.headers, |t|)
       case UntilClose(t) => !none && CodingCount(h.headers) == 0 && !HasLength(h.headers) && rest == "" && !breaks
  }

  /** Everything one exchange puts on the wire: heads and body. */
  datatype Exchange = Exchange(heads: seq<HeadText>, body: Body) {
    function Text(): string { Heads(heads) + body.Text() }

    ghost predicate Valid(headRequest: bool, rest: string, breaks: bool) {
      && IsPreamble(heads) && |heads| <= 8 && |Heads(heads)| <= 0x1_0000
      && Announced(heads[|heads| - 1].Parsed(), body, headRequest, rest, breaks)
    }

    /** What the client should report for it. */
    ghost function Meaning(headRequest: bool, rest: string, breaks: bool): Outcome
      requires Valid(headRequest, rest, breaks)
    {
      var last := heads[|heads| - 1];
      var headers := Headers(last.fields);
      Parsed(Response(Decimal(last.code), if last.phrase == "" then "" else Trim(last.phrase[1..]), headers,
                      body.Content()),
             last.code != "101" && !body.UntilClose? && KeepAlive(headers, last.version == "HTTP/1.0"),
             if last.code == "101" then 0 else if body.UntilClose? then |Heads(heads)| else |Text()|,
             rest)
    }
  }

  lemma CodingCounted(hs: seq<Header>)
    ensures ChunkedOnly(hs) ==> CodingCount(hs) != 0
  {
  }

  lemma ReadsBody(h: Head, body: Body, headRequest: bool, rest: string, ch: Channel, taken: nat)
    requires !body.NoBody? && Announced(h, body, headRequest, rest, ch.breaks) && MAX_HEAD <= ch.maxLine
    ensures ReadBody(h, body.Text() + rest, ch, taken) ==
      Parsed(WithBody(h, body.Content()), !body.UntilClose? && KeepAlive(h.headers, h.line.http10),
             if body.UntilClose? then taken else taken + |body.Text()|, rest)
  {
    hide Chunked, StrictLength, KeepAlive, IsCoding, Encode, CodingCount, ChunkedOnly, HasLength, LengthsSay;
    var s := body.Text() + rest;
    match body {
      case Coded(c) =>
        DecodesEverySpelling(c, rest, ch, "");
        assert "" + Data(c.chunks) == Data(c.chunks);
        CodingCounted(h.headers);
      case Sized(t) =>
        StrictLengthMeaning(h.headers, MAX_BODY, |t|);
        assert s[..|t|] == t && s[|t|..] == rest;
      case UntilClose(t) =>
        StrictLengthMeaning(h.headers, MAX_BODY, 0);
        assert s == t;
    }
  }

  lemma BodySplits(h: Head, s: string, ch: Channel, taken: nat) returns (body: Body)
    requires ReadBody(h, s, ch, taken).Parsed? && h.line.status != 101 && !Bodiless(h, false)
    ensures var o := ReadBody(h, s, ch, taken);
      !body.NoBody? && Announced(h, body, false, o.rest, ch.breaks) && s == body.Text() + o.rest
  {
    hide Chunked, StrictLength, KeepAlive, IsCoding, Encode, CodingCount, ChunkedOnly, HasLength, LengthsSay;
    var o := ReadBody(h, s, ch, taken);
    if CodingCount(h.headers) != 0 {
      var c := DecodesOnlySpellings(s, ch, "");
      body := Coded(c);
    } else {
      match StrictLength(h.headers, MAX_BODY) {
        case Ok(Some(n)) =>
          StrictLengthMeaning(h.headers, MAX_BODY, n);
          body := Sized(s[..n]);
          assert s == s[..n] + s[n..];
        case Ok(None) =>
          StrictLengthMeaning(h.headers, MAX_BODY, 0);
          body := UntilClose(s);
          assert s + "" == s;
      }
    }
  }

  /** `readResponse` reports `o` for a byte sequence exactly when the sequence begins with an
      exchange that means `o`: at most seven interim heads, a final one, and a body in the framing
      the final head announces; `o.rest` is what follows. */
  lemma RespondExactly(s: string, ch: Channel, headRequest: bool, o: Outcome)
    requires MAX_HEAD <= ch.maxLine && o.Parsed?
    ensures Respond(s, ch, headRequest) == o <==>
      exists x: Exchange ::
        x.Valid(headRequest, o.rest, ch.breaks) && s == x.Text() + o.rest
        && o == x.Meaning(headRequest, o.rest, ch.breaks)
  {
    if Respond(s, ch, headRequest) == o {
      var x := ExchangeOf(s, ch, headRequest);
      assert x.Valid(headRequest, o.rest, ch.breaks) && s == x.Text() + o.rest
             && o == x.Meaning(headRequest, o.rest, ch.breaks);
    }
    forall x: Exchange | x.Valid(headRequest, o.rest, ch.breaks) && s == x.Text() + o.rest
                         && o == x.Meaning(headRequest, o.rest, ch.breaks)
      ensures Respond(s, ch, headRequest) == o
    {
      ReadsExchange(x, ch, headRequest, o.rest);
    }
  }

  /** Every exchange is read as what it means. */
  lemma ReadsExchange(x: Exchange, ch: Channel, headRequest: bool, rest: string)
    requires x.Valid(headRequest, rest, ch.breaks) && MAX_HEAD <= ch.maxLine
    ensures Respond(x.Text() + rest, ch, headRequest) == x.Meaning(headRequest, rest, ch.breaks)
  {
    hide ReadHead, ReadBody, KeepAlive, IsPreamble, Heads, Body.Text, Body.Content;
    var h := LastHead(x.heads);
    var s := x.Text() + rest;
    Regroup(Heads(x.heads), x.body.Text(), rest);
    ReadHeadOf(x.heads, x.body.Text() + rest, ch, 0, 0);
    if x.body.NoBody? {
      NoText(rest);
    } else {
      ReadsBody(h, x.body, headRequest, rest, ch, |Heads(x.heads)|);
    }
  }

  /** No byte sequence can be read as two exchanges that mean different things or end in
      different places. */
  lemma Unambiguous(x: Exchange, restX: string, y: Exchange, restY: string, headRequest: bool, breaks: bool)
    requires x.Valid(headRequest, restX, breaks) && y.Valid(headRequest, restY, breaks)
    requires x.Text() + restX == y.Text() + restY
    ensures x.Meaning(headRequest, restX, breaks) == y.Meaning(headRequest, restY, breaks) && restX == restY
  {
    hide Respond;
    ReadsExchange(x, Channel(MAX_HEAD, breaks), headRequest, restX);
    ReadsExchange(y, Channel(MAX_HEAD, breaks), headRequest, restY);
  }

  /** A response whose end is known from its own bytes, cut short anywhere, is never taken for a
      whole one, whether the stream then ends or breaks. */
  lemma CutIsNoticed(x: Exchange, k: nat, ch: Channel, headRequest: bool)
    requires x.Valid(headRequest, "", ch.breaks) && !x.body.UntilClose? && MAX_HEAD <= ch.maxLine
    requires k < |x.Text()|
    ensures Respond(x.Text()[..k], ch, headRequest).Failed?
  {
    hide Respond, IsPreamble, Heads, Body.Text, Exchange.Text;
    var s, tail := x.Text()[..k], x.Text()[k..];
    var o := Respond(s, ch, headRequest);
    if o.Parsed? {
      var y := ExchangeOf(s, ch, headRequest);
      Regroup(y.Text(), o.rest, tail);
      assert x.Text() + "" == y.Text() + (o.rest + tail);
      if y.body.UntilClose? {
        SameHead(x, "", y, o.rest + tail);
      } else {
        Unambiguous(x, "", y, o.rest + tail, headRequest, ch.breaks);
      }
    }
  }

  /** Bytes that begin with two exchanges begin with one final head. */
  lemma SameHead(x: Exchange, restX: string, y: Exchange, restY: string)
    requires IsPreamble(x.heads) && |x.heads| <= MAX_INTERIM && |Heads(x.heads)| <= MAX_HEAD
    requires IsPreamble(y.heads) && |y.heads| <= MAX_INTERIM && |Heads(y.heads)| <= MAX_HEAD
    requires x.Text() + restX == y.Text() + restY
    ensures x.heads[|x.heads| - 1].Parsed() == y.heads[|y.heads| - 1].Parsed()
  {
    hide ReadHead, IsPreamble, Heads;
    var ch := Channel(MAX_HEAD, false);
    var _ := LastHead(x.heads);
    var _ := LastHead(y.heads);
    Regroup(Heads(x.heads), x.body.Text(), restX);
    Regroup(Heads(y.heads), y.body.Text(), restY);
    ReadHeadOf(x.heads, x.body.Text() + restX, ch, 0, 0);
    ReadHeadOf(y.heads, y.body.Text() + restY, ch, 0, 0);
  }

  lemma LastHead(hs: seq<HeadText>) returns (h: Head)
    requires IsPreamble(hs)
    ensures hs != [] && AllDigits(hs[|hs| - 1].code) && h == hs[|hs| - 1].Parsed()
    ensures h.line.status == 101 <==> hs[|hs| - 1].code == "101"
  {
    h := hs[|hs| - 1].Parsed();
    CodeDigits(hs[|hs| - 1].code);
  }

  lemma NoText(rest: string)
    ensures NoBody.Text() == "" && NoBody.Content() == "" && "" + rest == rest
  {
  }

  /** Every response read is an exchange. */
  lemma ExchangeOf(s: string, ch: Channel, headRequest: bool) returns (x: Exchange)
    requires Respond(s, ch, headRequest).Parsed? && MAX_HEAD <= ch.maxLine
    ensures var o := Respond(s, ch, headRequest);
      x.Valid(headRequest, o.rest, ch.breaks) && s == x.Text() + o.rest
      && o == x.Meaning(headRequest, o.rest, ch.breaks)
  {
    hide ReadHead, ReadBody, KeepAlive, IsPreamble, Heads, Body.Text, Body.Content;
    var o := Respond(s, ch, headRequest);
    var t := ReadHead(s, ch, 0, 0);
    var hs := ReadHeadSplits(s, ch, 0, 0);
    var h := LastHead(hs);
    if h.line.status == 101 || Bodiless(h, headRequest) {
      x := Exchange(hs, NoBody);
      NoText(o.rest);
    } else {
      var body := BodySplits(h, t.rest, ch, |s| - |t.rest|);
      x := Exchange(hs, body);
      AnnouncedForGet(h, body, headRequest, o.rest, ch.breaks);
    }
    Regroup(Heads(hs), x.body.Text(), o.rest);
    ReadsExchange(x, ch, headRequest, o.rest);
  }

  lemma AnnouncedForGet(h: Head, body: Body, headRequest: bool, rest: string, breaks: bool)
    requires Announced(h, body, false, rest, breaks) && !Bodiless(h, headRequest)
    ensures Announced(h, body, headRequest, rest, breaks)
  {
  }
}

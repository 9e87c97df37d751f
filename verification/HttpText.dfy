/** Text-level helpers of Soccer/includes/HttpClient.h: tokens, whitespace trimming, list
    fields, line ends, status and header lines, Content-Length. */
module HttpText {
  import opened Wrappers

  /** The ways a response can be refused, one per throw site family. */
  datatype Failure =
    | StreamFailed
    | LineTooLong
    | ClosedBeforeStatus
    | ClosedInHeaders
    | ClosedInTrailers
    | TooManyInterim
    | NotCrlf
    | MalformedStatus
    | MalformedHeader
    | ControlInHeader
    | HeadersTooLarge
    | TrailersTooLarge
    | UnsupportedTransferEncoding
    | MalformedChunkSize
    | ChunkSizeTooLarge
    | MalformedChunkEnd
    | BodyTooLarge
    | Truncated
    | InvalidLength
    | ConflictingLengths

  datatype Result<+T> = Ok(value: T) | Err(why: Failure) {
    predicate IsFailure() { Err? }
    function PropagateFailure<U>(): Result<U>
      requires Err?
    {
      Err(why)
    }
    function Extract(): T
      requires Ok?
    {
      value
    }
  }

  datatype Header = Header(name: string, value: string)

  // ---- Characters --------------------------------------------------------------------

  function Lower(c: char): char {
    if 'A' <= c <= 'Z' then (c as int + 32) as char else c
  }

  predicate EqualsIgnoreCase(a: string, b: string) {
    |a| == |b| && forall i :: 0 <= i < |a| ==> Lower(a[i]) == Lower(b[i])
  }

  predicate IsTokenChar(c: char) {
    '0' <= c <= '9' || 'a' <= c <= 'z' || 'A' <= c <= 'Z' || c in "!#$%&'*+-.^_`|~"
  }

  predicate IsToken(s: string) {
    s != [] && forall i :: 0 <= i < |s| ==> IsTokenChar(s[i])
  }

  predicate IsFieldChar(c: char) {
    (c >= ' ' || c == '\t') && c as int != 0x7f
  }

  /** No control character that a field value may not carry. */
  predicate IsFieldValue(s: string) {
    forall i :: 0 <= i < |s| ==> IsFieldChar(s[i])
  }

  /** No space, control character or DEL. */
  predicate IsTarget(s: string) {
    forall i :: 0 <= i < |s| ==> s[i] > ' ' && s[i] as int != 0x7f
  }

  predicate IsDigit(c: char) {
    '0' <= c <= '9'
  }

  predicate AllDigits(s: string) {
    forall i :: 0 <= i < |s| ==> IsDigit(s[i])
  }

  function Decimal(s: string): nat
    requires AllDigits(s)
  {
    if s == [] then 0 else 10 * Decimal(s[..|s| - 1]) + (s[|s| - 1] as int - '0' as int)
  }

  /** A token character is a visible ASCII character that is no delimiter: section 5.6.2 of RFC 9110. */
  lemma TokenCharacters(c: char)
    ensures IsTokenChar(c) <==> '!' <= c <= '~' && c !in "\"(),/:;<=>?@[\\]{}"
  {
  }

  /** A field value carries tab, space, visible and non-ASCII characters; a target no white space. */
  lemma CharacterClasses(c: char)
    ensures IsFieldChar(c) <==> c == '\t' || ' ' <= c <= '~' || c as int >= 0x80
    ensures IsTarget([c]) <==> '!' <= c <= '~' || c as int >= 0x80
    ensures IsOws(c) <==> c in " \t"
    ensures IsDigit(c) <==> c in "0123456789"
  {
    assert [c][0] == c;
  }

  /** Two strings are equal ignoring case exactly if they differ at most in the case of letters. */
  lemma IgnoresCaseOnly(a: string, b: string)
    ensures EqualsIgnoreCase(a, b) <==>
      |a| == |b| && forall i :: 0 <= i < |a| ==>
        a[i] == b[i]
        || ('A' <= a[i] <= 'Z' && b[i] as int == a[i] as int + 32)
        || ('A' <= b[i] <= 'Z' && a[i] as int == b[i] as int + 32)
  {
  }

  /** Decimal notation: appending a digit multiplies by ten and adds it. */
  lemma DecimalGrows(s: string, d: nat)
    requires AllDigits(s) && d < 10
    ensures var t := s + ["0123456789"[d]];
      Decimal("") == 0 && AllDigits(t) && Decimal(t) == 10 * Decimal(s) + d
  {
    var c := "0123456789"[d];
    assert c as int == '0' as int + d;
    assert (s + [c])[..|s|] == s;
  }

  /** Index of the first `c` at or after `i`, or the length of `s`. */
  function Find(s: string, c: char, i: nat): (n: nat)
    requires i <= |s|
    ensures i <= n <= |s|
    ensures n < |s| ==> s[n] == c
    ensures forall j :: i <= j < n ==> s[j] != c
    decreases |s| - i
  {
    if i == |s| || s[i] == c then i else Find(s, c, i + 1)
  }

  // ---- Optional whitespace -----------------------------------------------------------

  predicate IsOws(c: char) {
    c == ' ' || c == '\t'
  }

  predicate AllOws(s: string) {
    forall i :: 0 <= i < |s| ==> IsOws(s[i])
  }

  function TrimStart(s: string): string {
    if s != [] && IsOws(s[0]) then TrimStart(s[1..]) else s
  }

  function TrimEnd(s: string): string {
    if s != [] && IsOws(s[|s| - 1]) then TrimEnd(s[..|s| - 1]) else s
  }

  function Trim(s: string): string {
    TrimEnd(TrimStart(s))
  }

  predicate Trimmed(s: string) {
    s == [] || (!IsOws(s[0]) && !IsOws(s[|s| - 1]))
  }

  lemma {:induction false} TrimStartOf(a: string, v: string)
    requires AllOws(a) && (v == [] || !IsOws(v[0]))
    ensures TrimStart(a + v) == v
  {
    if a != [] {
      assert (a + v)[1..] == a[1..] + v;
      TrimStartOf(a[1..], v);
    } else {
      assert a + v == v;
    }
  }

  lemma {:induction false} TrimEndOf(v: string, b: string)
    requires AllOws(b) && (v == [] || !IsOws(v[|v| - 1]))
    ensures TrimEnd(v + b) == v
  {
    if b != [] {
      assert (v + b)[..|v + b| - 1] == v + b[..|b| - 1];
      TrimEndOf(v, b[..|b| - 1]);
    } else {
      assert v + b == v;
    }
  }

  /** Trimming removes exactly the whitespace around a value. */
  lemma TrimOf(a: string, v: string, b: string)
    requires AllOws(a) && AllOws(b) && Trimmed(v)
    ensures Trim(a + v + b) == v
  {
    if v == [] {
      assert a + v + b == (a + b) + [];
      TrimStartOf(a + b, []);
    } else {
      assert a + v + b == a + (v + b);
      TrimStartOf(a, v + b);
      TrimEndOf(v, b);
    }
  }

  lemma {:induction false} TrimStartSplits(s: string) returns (a: string)
    ensures AllOws(a) && s == a + TrimStart(s)
    ensures TrimStart(s) == [] || !IsOws(TrimStart(s)[0])
  {
    if s != [] && IsOws(s[0]) {
      var b := TrimStartSplits(s[1..]);
      a := [s[0]] + b;
      assert s == a + TrimStart(s);
    } else {
      a := [];
    }
  }

  lemma {:induction false} TrimEndSplits(s: string) returns (b: string)
    ensures AllOws(b) && s == TrimEnd(s) + b
    ensures TrimEnd(s) == [] || !IsOws(TrimEnd(s)[|TrimEnd(s)| - 1])
  {
    if s != [] && IsOws(s[|s| - 1]) {
      var c := TrimEndSplits(s[..|s| - 1]);
      b := c + [s[|s| - 1]];
      assert s == TrimEnd(s) + b;
    } else {
      b := [];
    }
  }

  /** Conversely, what is left is the value and what was removed is whitespace. */
  lemma TrimSplits(s: string) returns (a: string, b: string)
    ensures AllOws(a) && AllOws(b) && s == a + Trim(s) + b && Trimmed(Trim(s))
  {
    a := TrimStartSplits(s);
    b := TrimEndSplits(TrimStart(s));
    assert s == a + Trim(s) + b;
  }

  /** `trimAscii`: two cursors closing in on the value. */
  method TrimAscii(s: string) returns (r: string)
    ensures r == Trim(s)
  {
    var b, e := 0, |s|;
    while b < |s| && IsOws(s[b])
      invariant b <= |s| && AllOws(s[..b])
    {
      assert s[..b + 1] == s[..b] + [s[b]];
      b := b + 1;
    }
    while e > b && IsOws(s[e - 1])
      invariant b <= e <= |s| && AllOws(s[e..])
    {
      assert s[e - 1..] == [s[e - 1]] + s[e..];
      e := e - 1;
    }
    r := s[b..e];
    assert s == s[..b] + r + s[e..];
    TrimOf(s[..b], r, s[e..]);
  }

  // ---- List fields -------------------------------------------------------------------

  /** Whether the comma-separated list `value`, from `pos` on, holds `token`. */
  predicate ListHasToken(value: string, token: string, pos: nat)
    requires pos <= |value| + 1
    decreases |value| + 1 - pos
  {
    pos <= |value| &&
    var comma := Find(value, ',', pos);
    EqualsIgnoreCase(Trim(value[pos..comma]), token) || ListHasToken(value, token, comma + 1)
  }

  predicate HasToken(value: string, token: string) {
    ListHasToken(value, token, 0)
  }

  /** The text between two commas, or a comma and an end. */
  predicate IsItem(v: string, i: nat, j: nat) {
    && i <= j <= |v| && (i == 0 || v[i - 1] == ',') && (j == |v| || v[j] == ',')
    && forall k :: i <= k < j ==> v[k] != ','
  }

  /** A list holds a token exactly if one of its items, without the white space around it, equals
      the token ignoring case. */
  lemma HasTokenMeaning(v: string, token: string)
    ensures HasToken(v, token) <==> exists i: nat, j: nat :: IsItem(v, i, j) && EqualsIgnoreCase(Trim(v[i..j]), token)
  {
    ListHasTokenMeaning(v, token, 0);
    if ListHasToken(v, token, 0) {
      var i: nat, j: nat :| IsItem(v, i, j) && EqualsIgnoreCase(Trim(v[i..j]), token);
    }
  }

  lemma {:induction false} ListHasTokenMeaning(v: string, token: string, pos: nat)
    requires pos <= |v| + 1 && (0 < pos <= |v| ==> v[pos - 1] == ',')
    ensures ListHasToken(v, token, pos) <==>
      exists i: nat, j: nat :: pos <= i && IsItem(v, i, j) && EqualsIgnoreCase(Trim(v[i..j]), token)
    decreases |v| + 1 - pos
  {
    hide EqualsIgnoreCase, Trim, Find;
    if pos <= |v| {
      var comma := Find(v, ',', pos);
      assert IsItem(v, pos, comma);
      ListHasTokenMeaning(v, token, comma + 1);
      forall i: nat, j: nat | pos <= i && IsItem(v, i, j) ensures (i == pos && j == comma) || comma + 1 <= i {
        if i <= comma { ItemAt(v, pos, comma, i, j); }
      }
    }
  }

  /** Items do not overlap. */
  lemma ItemAt(v: string, p: nat, c: nat, i: nat, j: nat)
    requires IsItem(v, p, c) && IsItem(v, i, j) && p <= i <= c
    ensures i == p && j == c
  {
  }

  lemma {:induction false} FindShift(p: string, s: string, c: char, i: nat)
    requires i <= |s|
    ensures Find(p + s, c, |p| + i) == |p| + Find(s, c, i)
    decreases |s| - i
  {
    if i < |s| && s[i] != c { FindShift(p, s, c, i + 1); }
  }

  lemma {:induction false} ListShift(p: string, v: string, token: string, i: nat)
    requires i <= |v| + 1
    ensures ListHasToken(p + v, token, |p| + i) <==> ListHasToken(v, token, i)
    decreases |v| + 1 - i
  {
    if i <= |v| {
      FindShift(p, v, ',', i);
      var comma := Find(v, ',', i);
      assert (p + v)[|p| + i..|p| + comma] == v[i..comma];
      ListShift(p, v, token, comma + 1);
    }
  }

  /** A list field split over two field lines holds what either line holds. */
  lemma {:induction false} ListJoin(a: string, b: string, token: string, i: nat)
    requires i <= |a|
    ensures ListHasToken(a + "," + b, token, i) <==> ListHasToken(a, token, i) || HasToken(b, token)
    decreases |a| - i
  {
    hide EqualsIgnoreCase, Trim, Find;
    var v := a + "," + b;
    var comma := Find(a, ',', i);
    FindIn(a, ',', i, "," + b);
    assert v == a + ("," + b);
    assert v[i..comma] == a[i..comma];
    if comma == |a| {
      assert v == (a + ",") + b;
      ListShift(a + ",", b, token, 0);
      assert !ListHasToken(a, token, comma + 1);
    } else {
      ListJoin(a, b, token, comma + 1);
    }
  }

  lemma {:induction false} FindIn(a: string, c: char, i: nat, rest: string)
    requires i <= |a| && rest != [] && rest[0] == c
    ensures Find(a + rest, c, i) == Find(a, c, i)
    decreases |a| - i
  {
    if i < |a| && a[i] != c { FindIn(a, c, i + 1, rest); }
  }

  /** The Connection fields of a head, joined as `readResponse` joins them. */
  function ConnectionTokens(hs: seq<Header>, acc: string): string {
    if hs == [] then acc
    else
      var more := if EqualsIgnoreCase(hs[0].name, "Connection") then JoinToken(acc, hs[0].value) else acc;
      ConnectionTokens(hs[1..], more)
  }

  function JoinToken(acc: string, v: string): string {
    if acc == [] then v else acc + "," + v
  }

  predicate SaysInConnection(hs: seq<Header>, token: string) {
    exists i :: 0 <= i < |hs| && EqualsIgnoreCase(hs[i].name, "Connection") && HasToken(hs[i].value, token)
  }

  /** The joined list holds a token exactly when one of the Connection fields does. */
  lemma {:induction false} ConnectionTokensMeaning(hs: seq<Header>, acc: string, token: string)
    requires token != []
    ensures HasToken(ConnectionTokens(hs, acc), token) <==> HasToken(acc, token) || SaysInConnection(hs, token)
    decreases |hs|
  {
    if hs != [] {
      var h := hs[0];
      var more := if EqualsIgnoreCase(h.name, "Connection") then JoinToken(acc, h.value) else acc;
      ConnectionTokensMeaning(hs[1..], more, token);
      if acc == [] {
        EmptyList(token);
      } else {
        ListJoin(acc, h.value, token, 0);
      }
      assert hs == [h] + hs[1..];
      assert SaysInConnection(hs, token) <==>
             (EqualsIgnoreCase(h.name, "Connection") && HasToken(h.value, token))
             || SaysInConnection(hs[1..], token) by {
        SaysCons(h, hs[1..], token);
      }
    }
  }

  lemma EmptyList(token: string)
    requires token != []
    ensures !HasToken("", token)
  {
  }

  lemma SaysCons(h: Header, hs: seq<Header>, token: string)
    ensures SaysInConnection([h] + hs, token) <==>
            (EqualsIgnoreCase(h.name, "Connection") && HasToken(h.value, token)) || SaysInConnection(hs, token)
  {
    var all := [h] + hs;
    forall i | 0 <= i < |hs| ensures all[i + 1] == hs[i] {}
    if SaysInConnection(hs, token) {
      var i :| 0 <= i < |hs| && EqualsIgnoreCase(hs[i].name, "Connection") && HasToken(hs[i].value, token);
      assert EqualsIgnoreCase(all[i + 1].name, "Connection") && HasToken(all[i + 1].value, token);
    }
    if EqualsIgnoreCase(h.name, "Connection") && HasToken(h.value, token) {
      assert EqualsIgnoreCase(all[0].name, "Connection") && HasToken(all[0].value, token);
    }
  }

  /** Whether the connection may carry another exchange. */
  predicate KeepAlive(hs: seq<Header>, http10: bool) {
    var tokens := ConnectionTokens(hs, "");
    !HasToken(tokens, "close") && (!http10 || HasToken(tokens, "keep-alive"))
  }

  /** No Connection field says close, and an HTTP/1.0 peer says keep-alive in one of them. */
  lemma KeepAliveMeaning(hs: seq<Header>, http10: bool)
    ensures KeepAlive(hs, http10) <==>
      && !(exists i :: 0 <= i < |hs| && EqualsIgnoreCase(hs[i].name, "Connection") && HasToken(hs[i].value, "close"))
      && (http10 ==>
            exists i :: 0 <= i < |hs| && EqualsIgnoreCase(hs[i].name, "Connection")
                        && HasToken(hs[i].value, "keep-alive"))
  {
    ConnectionTokensMeaning(hs, "", "close");
    ConnectionTokensMeaning(hs, "", "keep-alive");
    EmptyList("close");
    EmptyList("keep-alive");
  }

  // ---- Lines -------------------------------------------------------------------------

  /** Drop the CRLF; a line ended otherwise is refused. */
  function StripLineEnd(line: string): Result<string> {
    if |line| < 2 || line[|line| - 2] != '\r' || line[|line| - 1] != '\n' then Err(NotCrlf)
    else Ok(line[..|line| - 2])
  }

  datatype StatusLine = StatusLine(status: nat, reason: string, http10: bool)

  predicate IsVersion(line: string)
    requires |line| >= 9
  {
    line[..5] == "HTTP/" && IsDigit(line[5]) && line[6] == '.' && IsDigit(line[7]) && line[8] == ' '
  }

  function ParseStatusLine(raw: string): Result<StatusLine> {
    var line :- StripLineEnd(raw);
    if |line| < 12 || !IsVersion(line) then Err(MalformedStatus)
    else
      var sp := Find(line, ' ', 9);
      var code := line[9..sp];
      if |code| != 3 || !AllDigits(code) then Err(MalformedStatus)
      else Ok(StatusLine(Decimal(code), if sp < |line| then Trim(line[sp + 1..]) else "", line[..8] == "HTTP/1.0"))
  }

  function ParseHeaderLine(raw: string): Result<Header> {
    var line :- StripLineEnd(raw);
    var colon := Find(line, ':', 0);
    if colon == |line| || !IsToken(line[..colon]) then Err(MalformedHeader)
    else
      var value := Trim(line[colon + 1..]);
      if !IsFieldValue(value) then Err(ControlInHeader) else Ok(Header(line[..colon], value))
  }

  lemma FindSkip(s: string, c: char, i: nat, j: nat)
    requires i <= j <= |s| && forall k :: i <= k < j ==> s[k] != c
    ensures Find(s, c, i) == Find(s, c, j)
  {
  }

  /** A header line, with any whitespace around its value, parses back to name and value. */
  lemma HeaderLineRoundTrip(name: string, a: string, value: string, b: string)
    requires IsToken(name) && AllOws(a) && AllOws(b) && Trimmed(value) && IsFieldValue(value)
    ensures ParseHeaderLine(name + ":" + a + value + b + "\r\n") == Ok(Header(name, value))
  {
    var line := name + ":" + (a + value + b);
    var raw := name + ":" + a + value + b + "\r\n";
    assert raw == line + "\r\n";
    assert raw[..|raw| - 2] == line;
    FindSkip(line, ':', 0, |name|);
    assert line[..|name|] == name && line[|name| + 1..] == a + value + b;
    TrimOf(a, value, b);
  }

  // ---- Content-Length ----------------------------------------------------------------

  predicate IsLength(v: string) {
    0 < |v| <= 12 && AllDigits(v)
  }

  predicate NamesLength(h: Header) {
    EqualsIgnoreCase(h.name, "Content-Length")
  }

  /** The scan of `strictContentLength`, `seen` being the value found so far. */
  function ScanLength(hs: seq<Header>, seen: Option<nat>): Result<Option<nat>> {
    if hs == [] then Ok(seen)
    else if !NamesLength(hs[0]) then ScanLength(hs[1..], seen)
    else if !IsLength(hs[0].value) then Err(InvalidLength)
    else if seen.Some? && Decimal(hs[0].value) != seen.value then Err(ConflictingLengths)
    else ScanLength(hs[1..], Some(Decimal(hs[0].value)))
  }

  function StrictLength(hs: seq<Header>, limit: nat): Result<Option<nat>> {
    var found :- ScanLength(hs, None);
    if found.Some? && limit != 0 && found.value > limit then Err(InvalidLength) else Ok(found)
  }

  predicate LengthsSay(hs: seq<Header>, n: nat) {
    forall i :: 0 <= i < |hs| && NamesLength(hs[i]) ==> IsLength(hs[i].value) && Decimal(hs[i].value) == n
  }

  predicate HasLength(hs: seq<Header>) {
    exists i :: 0 <= i < |hs| && NamesLength(hs[i])
  }

  lemma {:induction false} ScanLengthMeaning(hs: seq<Header>, seen: Option<nat>, n: nat)
    ensures ScanLength(hs, seen) == Ok(Some(n)) <==>
            LengthsSay(hs, n) && (HasLength(hs) || seen.Some?) && (seen.Some? ==> seen.value == n)
    ensures ScanLength(hs, seen) == Ok(None) <==> !HasLength(hs) && seen.None?
    decreases |hs|
  {
    if hs != [] {
      var t := hs[1..];
      ScanLengthMeaning(t, if NamesLength(hs[0]) && IsLength(hs[0].value) then Some(Decimal(hs[0].value)) else seen, n);
      assert forall i :: 0 <= i < |t| ==> t[i] == hs[i + 1];
      assert HasLength(hs) <==> NamesLength(hs[0]) || HasLength(t) by {
        if HasLength(t) {
          var i :| 0 <= i < |t| && NamesLength(t[i]);
          assert NamesLength(hs[i + 1]);
        }
        if HasLength(hs) && !NamesLength(hs[0]) {
          var i :| 0 <= i < |hs| && NamesLength(hs[i]);
          assert NamesLength(t[i - 1]);
        }
      }
      assert LengthsSay(hs, n) <==>
             (NamesLength(hs[0]) ==> IsLength(hs[0].value) && Decimal(hs[0].value) == n) && LengthsSay(t, n) by {
        if LengthsSay(hs, n) {
          forall i | 0 <= i < |t| && NamesLength(t[i]) ensures IsLength(t[i].value) && Decimal(t[i].value) == n {
            assert NamesLength(hs[i + 1]);
          }
        }
        if LengthsSay(t, n) {
          forall i | 0 < i < |hs| && NamesLength(hs[i]) ensures IsLength(hs[i].value) && Decimal(hs[i].value) == n {
            assert NamesLength(t[i - 1]);
          }
        }
      }
    }
  }

  /** A length is accepted exactly when there is a Content-Length field, every one is a plain
      decimal of at most 12 digits, all agree, and the value is within the limit. */
  lemma StrictLengthMeaning(hs: seq<Header>, limit: nat, n: nat)
    ensures StrictLength(hs, limit) == Ok(Some(n)) <==>
            HasLength(hs) && LengthsSay(hs, n) && (limit == 0 || n <= limit)
    ensures StrictLength(hs, limit) == Ok(None) <==> !HasLength(hs)
  {
    ScanLengthMeaning(hs, None, n);
  }

  /** The two conditions in full. */
  lemma LengthFields(hs: seq<Header>, n: nat)
    ensures HasLength(hs) <==> exists i :: 0 <= i < |hs| && EqualsIgnoreCase(hs[i].name, "Content-Length")
    ensures LengthsSay(hs, n) <==>
      forall i :: 0 <= i < |hs| && EqualsIgnoreCase(hs[i].name, "Content-Length") ==>
        var v := hs[i].value;
        1 <= |v| <= 12 && (forall k :: 0 <= k < |v| ==> v[k] in "0123456789") && AllDigits(v) && Decimal(v) == n
  {
    forall c: char ensures IsDigit(c) <==> c in "0123456789" {}
    if HasLength(hs) {
      var i :| 0 <= i < |hs| && NamesLength(hs[i]);
      assert EqualsIgnoreCase(hs[i].name, "Content-Length");
    }
    if exists i :: 0 <= i < |hs| && EqualsIgnoreCase(hs[i].name, "Content-Length") {
      var i :| 0 <= i < |hs| && EqualsIgnoreCase(hs[i].name, "Content-Length");
      assert NamesLength(hs[i]);
    }
  }

  /** `strictContentLength` as the loop it is; `stoull` wraps at 64 bits and never does here. */
  method StrictContentLength(hs: seq<Header>, limit: nat) returns (r: Result<Option<nat>>)
    ensures r == StrictLength(hs, limit)
  {
    var found: Option<nat> := None;
    var i := 0;
    while i < |hs|
      invariant i <= |hs|
      invariant ScanLength(hs, None) == ScanLength(hs[i..], found)
    {
      assert hs[i..][0] == hs[i] && hs[i..][1..] == hs[i + 1..];
      if NamesLength(hs[i]) {
        var v := hs[i].value;
        if v == [] || |v| > 12 || !AllDigits(v) { return Err(InvalidLength); }
        var n := StringToUnsigned(v);
        if found.Some? && n != found.value { return Err(ConflictingLengths); }
        found := Some(n);
      }
      i := i + 1;
    }
    assert hs[i..] == [];
    if found.Some? && limit != 0 && found.value > limit { return Err(InvalidLength); }
    r := Ok(found);
  }

  /** `std::stoull` on at most 12 digits, with the 64-bit wrap written out. */
  method StringToUnsigned(v: string) returns (n: nat)
    requires AllDigits(v) && |v| <= 12
    ensures n == Decimal(v)
  {
    n := 0;
    var i := 0;
    ghost var bound := 1;
    while i < |v|
      invariant i <= |v| && n == Decimal(v[..i]) && n < bound && bound == Power10(i)
    {
      assert v[..i + 1][..i] == v[..i];
      Power10Bound(i);
      n := (n * 10 + (v[i] as int - '0' as int)) % 0x1_0000_0000_0000_0000;
      bound := bound * 10;
      i := i + 1;
    }
    assert v[..i] == v;
  }

  ghost function Power10(n: nat): nat {
    if n == 0 then 1 else 10 * Power10(n - 1)
  }

  lemma {:induction false} Power10Bound(n: nat)
    requires n < 12
    ensures Power10(n) <= 100_000_000_000
    decreases 12 - n
  {
    if n < 11 {
      Power10Bound(n + 1);
      assert Power10(n + 1) == 10 * Power10(n);
    } else {
      assert Power10(11) == 10 * Power10(10);
      assert Power10(10) == 10 * Power10(9) && Power10(9) == 10 * Power10(8) && Power10(8) == 10 * Power10(7);
      assert Power10(7) == 10 * Power10(6) && Power10(6) == 10 * Power10(5) && Power10(5) == 10 * Power10(4);
      assert Power10(4) == 10 * Power10(3) && Power10(3) == 10 * Power10(2) && Power10(2) == 10 * Power10(1);
    }
  }
}

/** Checking and serialising a request head, and the proof that it reads back as intended. */
module RequestHead {
  import opened BufferedReading
  import opened HttpText
  import opened Wrappers

  // ---- What is accepted --------------------------------------------------------------

  predicate HeaderOk(h: Header) {
    IsToken(h.name) && IsFieldValue(h.value) && !EqualsIgnoreCase(h.name, "Transfer-Encoding")
  }

  predicate PartsOk(m: string, host: string, path: string, extra: seq<Header>) {
    && IsToken(m) && host != "" && IsTarget(host) && IsTarget(path)
    && forall i :: 0 <= i < |extra| ==> HeaderOk(extra[i])
  }

  method CheckRequestParts(m: string, host: string, path: string, extra: seq<Header>) returns (ok: bool)
    ensures ok <==> PartsOk(m, host, path, extra)
    ensures ok <==>
      && IsToken(m) && host != "" && IsTarget(host) && IsTarget(path)
      && forall i :: 0 <= i < |extra| ==>
           && IsToken(extra[i].name) && IsFieldValue(extra[i].value)
           && !EqualsIgnoreCase(extra[i].name, "Transfer-Encoding")
  {
    var bad := !IsToken(m) || host == "" || !IsTarget(host) || !IsTarget(path);
    var i := 0;
    while i < |extra|
      invariant i <= |extra|
      invariant bad <==> !(IsToken(m) && host != "" && IsTarget(host) && IsTarget(path)
                           && forall j :: 0 <= j < i ==> HeaderOk(extra[j]))
    {
      if !IsToken(extra[i].name) || !IsFieldValue(extra[i].value)
         || EqualsIgnoreCase(extra[i].name, "Transfer-Encoding") {
        bad := true;
      }
      i := i + 1;
    }
    ok := !bad;
  }

  // ---- What is written ---------------------------------------------------------------

  function Digit(n: nat): char
    requires n < 10
  {
    (n + '0' as int) as char
  }

  function ToString(n: nat): string {
    if n < 10 then [Digit(n)] else ToString(n / 10) + [Digit(n % 10)]
  }

  /** An IPv6 literal is bracketed; the port is left off when it is 0 or 80. */
  function HostValue(host: string, port: nat): string {
    (if ':' in host && host[0] != '[' then "[" + host + "]" else host)
    + (if port != 0 && port != 80 then ":" + ToString(port) else "")
  }

  predicate Names(hs: seq<Header>, name: string) {
    exists i :: 0 <= i < |hs| && EqualsIgnoreCase(hs[i].name, name)
  }

  predicate ExpectsBody(m: string) {
    EqualsIgnoreCase(m, "POST") || EqualsIgnoreCase(m, "PUT") || EqualsIgnoreCase(m, "PATCH")
  }

  /** The caller's headers without any Content-Length. */
  function Kept(extra: seq<Header>): seq<Header> {
    if extra == [] then []
    else Kept(extra[..|extra| - 1]) + if NamesLength(extra[|extra| - 1]) then [] else [extra[|extra| - 1]]
  }

  /** The headers a request carries, in order. */
  function Carried(m: string, host: string, port: nat, extra: seq<Header>, bodySize: nat, connection: string)
    : seq<Header>
  {
    (if Names(extra, "Host") then [] else [Header("Host", HostValue(host, port))])
    + [Header("Connection", connection)]
    + (if Names(extra, "User-Agent") then [] else [Header("User-Agent", "manwe-soccer-http/0.3")])
    + Kept(extra)
    + (if bodySize != 0 || ExpectsBody(m) then [Header("Content-Length", ToString(bodySize))] else [])
  }

  function HeaderText(h: Header): string {
    h.name + ": " + h.value + "\r\n"
  }

  function HeaderTexts(hs: seq<Header>): string {
    if hs == [] then "" else HeaderTexts(hs[..|hs| - 1]) + HeaderText(hs[|hs| - 1])
  }

  function RequestLine(m: string, path: string): string {
    m + " " + path + " HTTP/1.1"
  }

  /** The head: request line, headers, blank line. */
  function HeadOf(m: string, path: string, hs: seq<Header>): string {
    RequestLine(m, path) + "\r\n" + HeaderTexts(hs) + "\r\n"
  }

  lemma {:induction false} TextsAppend(a: seq<Header>, b: seq<Header>)
    ensures HeaderTexts(a + b) == HeaderTexts(a) + HeaderTexts(b)
    decreases |b|
  {
    if b == [] {
      assert a + b == a;
    } else {
      assert (a + b)[..|a + b| - 1] == a + b[..|b| - 1];
      TextsAppend(a, b[..|b| - 1]);
    }
  }

  lemma TextOfOne(h: Header)
    ensures HeaderTexts([h]) == HeaderText(h)
  {
  }

  /** Append one header to a head under construction. */
  method Append(req: string, name: string, value: string, ghost start: string, ghost hs: seq<Header>)
    returns (more: string)
    requires req == start + HeaderTexts(hs)
    ensures more == start + HeaderTexts(hs + [Header(name, value)])
  {
    hide HeaderTexts;
    more := req + (name + ": " + value + "\r\n");
    TextsAppend(hs, [Header(name, value)]);
    TextOfOne(Header(name, value));
    Regroup(start, HeaderTexts(hs), HeaderText(Header(name, value)));
  }

  /** Append the caller's headers, all but any Content-Length. */
  method AppendExtras(req: string, extra: seq<Header>, ghost start: string, ghost hs: seq<Header>)
    returns (more: string)
    requires req == start + HeaderTexts(hs)
    ensures more == start + HeaderTexts(hs + Kept(extra))
  {
    hide HeaderTexts, NamesLength;
    more := req;
    ghost var all := hs;
    for i := 0 to |extra|
      invariant all == hs + Kept(extra[..i]) && more == start + HeaderTexts(all)
    {
      assert extra[..i + 1][..i] == extra[..i];
      if !NamesLength(extra[i]) {
        more := Append(more, extra[i].name, extra[i].value, start, all);
        all := all + [extra[i]];
      }
    }
    assert extra[..|extra|] == extra;
  }

  /** Whether the caller supplies a Host and a User-Agent of its own. */
  method FindNames(extra: seq<Header>) returns (haveHost: bool, haveAgent: bool)
    ensures haveHost <==> Names(extra, "Host")
    ensures haveAgent <==> Names(extra, "User-Agent")
  {
    hide EqualsIgnoreCase;
    haveHost, haveAgent := false, false;
    var i := 0;
    while i < |extra|
      invariant i <= |extra|
      invariant haveHost <==> exists j :: 0 <= j < i && EqualsIgnoreCase(extra[j].name, "Host")
      invariant haveAgent <==> exists j :: 0 <= j < i && EqualsIgnoreCase(extra[j].name, "User-Agent")
    {
      OneName(extra[i].name);
      if EqualsIgnoreCase(extra[i].name, "Host") { haveHost := true; }
      else if EqualsIgnoreCase(extra[i].name, "User-Agent") { haveAgent := true; }
      i := i + 1;
    }
  }

  method BuildRequestHead(m: string, host: string, port: nat, path: string, extra: seq<Header>,
                          bodySize: nat, connection: string) returns (req: string)
    ensures req == HeadOf(m, path, Carried(m, host, port, extra, bodySize, connection))
  {
    hide HeaderTexts, EqualsIgnoreCase, HostValue, Names, ToString, Kept;
    var haveHost, haveAgent := FindNames(extra);
    ghost var start := RequestLine(m, path) + "\r\n";
    ghost var hs: seq<Header> := [];
    req := m + " " + path + " HTTP/1.1" + "\r\n";
    assert req == start + HeaderTexts(hs) by { NoTexts(); }
    if !haveHost {
      req := Append(req, "Host", HostValue(host, port), start, hs);
      hs := hs + [Header("Host", HostValue(host, port))];
    }
    req := Append(req, "Connection", connection, start, hs);
    hs := hs + [Header("Connection", connection)];
    if !haveAgent {
      req := Append(req, "User-Agent", "manwe-soccer-http/0.3", start, hs);
      hs := hs + [Header("User-Agent", "manwe-soccer-http/0.3")];
    }
    req := AppendExtras(req, extra, start, hs);
    hs := hs + Kept(extra);
    if bodySize != 0 || ExpectsBody(m) {
      req := Append(req, "Content-Length", ToString(bodySize), start, hs);
      hs := hs + [Header("Content-Length", ToString(bodySize))];
    }
    assert hs == Carried(m, host, port, extra, bodySize, connection);
    req := req + "\r\n";
  }

  lemma NoTexts()
    ensures HeaderTexts([]) == ""
  {
  }

  /** The two names are of different length, so the `else if` hides nothing. */
  lemma OneName(name: string)
    ensures !(EqualsIgnoreCase(name, "Host") && EqualsIgnoreCase(name, "User-Agent"))
  {
  }

  // ---- Exactly which headers, and where ----------------------------------------------

  /** The positions before `n` of caller headers that are no Content-Length. */
  ghost function Others(extra: seq<Header>, n: nat): set<nat>
    requires n <= |extra|
  {
    set j: nat | j < n && !EqualsIgnoreCase(extra[j].name, "Content-Length")
  }

  lemma OthersNext(extra: seq<Header>, n: nat)
    requires n < |extra|
    ensures |Others(extra, n + 1)| == |Others(extra, n)| + if NamesLength(extra[n]) then 0 else 1
    ensures Others(extra[..|extra| - 1], n) == Others(extra, n)
  {
    hide EqualsIgnoreCase;
    if NamesLength(extra[n]) {
      assert Others(extra, n + 1) == Others(extra, n);
    } else {
      assert Others(extra, n + 1) == Others(extra, n) + {n};
    }
  }

  /** Every caller header that is no Content-Length is kept, behind those of its kind before it. */
  lemma {:induction false} KeptExactly(extra: seq<Header>)
    ensures |Kept(extra)| == |Others(extra, |extra|)|
    ensures forall i :: 0 <= i < |extra| && !NamesLength(extra[i]) ==>
      |Others(extra, i)| < |Kept(extra)| && Kept(extra)[|Others(extra, i)|] == extra[i]
  {
    hide NamesLength;
    if extra == [] {
      assert Others(extra, 0) == {};
    } else {
      var n := |extra| - 1;
      var less := extra[..n];
      KeptExactly(less);
      OthersNext(extra, n);
      forall i | 0 <= i < n && !NamesLength(extra[i])
        ensures |Others(extra, i)| < |Kept(less)| && Kept(less)[|Others(extra, i)|] == extra[i]
      {
        assert less[i] == extra[i];
        OthersNext(extra, i);
      }
    }
  }

  /** The whole list of headers, position by position: the automatic ones in front, each unless the
      caller gives its own; the caller's, in order and as often as given, all but Content-Length;
      and the true Content-Length behind. */
  lemma CarriedExactly(m: string, host: string, port: nat, extra: seq<Header>, bodySize: nat, connection: string)
    ensures var hs := Carried(m, host, port, extra, bodySize, connection);
      var a := if exists i :: 0 <= i < |extra| && EqualsIgnoreCase(extra[i].name, "Host") then 0 else 1;
      var b := if exists i :: 0 <= i < |extra| && EqualsIgnoreCase(extra[i].name, "User-Agent") then 0 else 1;
      var c := if bodySize != 0 || EqualsIgnoreCase(m, "POST") || EqualsIgnoreCase(m, "PUT")
                  || EqualsIgnoreCase(m, "PATCH") then 1 else 0;
      && |hs| == a + 1 + b + |Others(extra, |extra|)| + c
      && (a == 1 ==> hs[0] == Header("Host", HostValue(host, port)))
      && hs[a] == Header("Connection", connection)
      && (b == 1 ==> hs[a + 1] == Header("User-Agent", "manwe-soccer-http/0.3"))
      && (forall i :: 0 <= i < |extra| && !EqualsIgnoreCase(extra[i].name, "Content-Length") ==>
            && a + 1 + b + |Others(extra, i)| < |hs|
            && hs[a + 1 + b + |Others(extra, i)|] == extra[i])
      && (c == 1 ==> hs[|hs| - 1] == Header("Content-Length", ToString(bodySize)))
  {
    hide EqualsIgnoreCase, HostValue, ToString, Kept, Others;
    KeptExactly(extra);
  }

  // ---- The automatic Host ------------------------------------------------------------

  /** Index of the last `c`, or the length. */
  function FindLast(s: string, c: char): (n: nat)
    ensures n <= |s|
  {
    if s == "" then 0
    else if s[|s| - 1] == c then |s| - 1
    else
      var n := FindLast(s[..|s| - 1], c);
      if n == |s| - 1 then |s| else n
  }

  lemma {:induction false} FindLastBefore(a: string, c: char, b: string)
    requires c !in b
    ensures FindLast(a + [c] + b, c) == |a|
    decreases |b|
  {
    var s := a + [c] + b;
    if b != "" {
      assert s[|s| - 1] == b[|b| - 1];
      assert s[..|s| - 1] == a + [c] + b[..|b| - 1];
      FindLastBefore(a, c, b[..|b| - 1]);
    }
  }

  /** Where the host ends in the value of a Host field (section 7.2 of RFC 9110): after the closing
      bracket of an IP literal, otherwise at the colon. */
  function HostEnd(v: string): (n: nat)
    ensures n <= |v|
  {
    if v != "" && v[0] == '[' then
      var k := FindLast(v, ']');
      if k == |v| then k else k + 1
    else Find(v, ':', 0)
  }

  /** A host without the brackets of an IP literal. */
  function Bare(host: string): string {
    if |host| >= 2 && host[0] == '[' && host[|host| - 1] == ']' then host[1..|host| - 1] else host
  }

  function HostNamed(v: string): string {
    Bare(v[..HostEnd(v)])
  }

  function PortNamed(v: string): Option<nat> {
    var p := v[HostEnd(v)..];
    if p == "" then Some(80)
    else if p[0] == ':' && AllDigits(p[1..]) then Some(Decimal(p[1..]))
    else None
  }

  /** The automatic Host names the caller's host and port. */
  lemma HostNamesBoth(host: string, port: nat)
    requires host != "" && (host[0] == '[' ==> host[|host| - 1] == ']')
    ensures var v := HostValue(host, port);
      && HostNamed(v) == Bare(host) && PortNamed(v) == Some(if port == 0 then 80 else port)
      && (v[HostEnd(v)..] == "" <==> port in {0, 80})
  {
    hide FindLast, ToString, Decimal, AllDigits;
    var h := if ':' in host && host[0] != '[' then "[" + host + "]" else host;
    var p := if port != 0 && port != 80 then ":" + ToString(port) else "";
    var v := HostValue(host, port);
    assert v == h + p;
    ToStringDigits(port);
    assert HostEnd(v) == |h| by {
      if h[0] == '[' {
        assert ']' !in p by { DigitsOnly(ToString(port), ']'); }
        assert v == h[..|h| - 1] + [']'] + p;
        FindLastBefore(h[..|h| - 1], ']', p);
      } else {
        FindSkip(v, ':', 0, |h|);
      }
    }
    assert v[..|h|] == h && v[|h|..] == p;
    if port != 0 && port != 80 {
      assert p[1..] == ToString(port);
    }
  }

  lemma DigitsOnly(s: string, c: char)
    requires AllDigits(s) && !IsDigit(c)
    ensures c !in s
  {
  }

  /** A host that opens a bracket and does not close it is taken as it is, so its value can be that
      of another host: exactly here the port is not told apart. */
  lemma OpenBracketHides(host: string, port: nat)
    requires host != "" && host[0] == '[' && host[|host| - 1] != ']' && port != 0 && port != 80
    ensures HostValue(host, port) == HostValue(host + ":" + ToString(port), 80)
  {
    var other := host + ":" + ToString(port);
    assert other[|host|] == ':' && other[0] == '[';
  }

  // ---- How it reads back -------------------------------------------------------------

  function Split(s: string, c: char): seq<string>
    decreases |s|
  {
    var k := Find(s, c, 0);
    if k == |s| then [s] else [s[..k]] + Split(s[k + 1..], c)
  }

  /** Index of the first CRLF at or after `i`, or the length. */
  function FindCrlf(s: string, i: nat): (n: nat)
    requires i <= |s|
    ensures i <= n <= |s| && (n < |s| ==> n + 1 < |s|)
    decreases |s| - i
  {
    if i + 1 >= |s| then |s| else if s[i] == '\r' && s[i + 1] == '\n' then i else FindCrlf(s, i + 1)
  }

  function SplitCrlf(s: string): seq<string>
    decreases |s|
  {
    var k := FindCrlf(s, 0);
    if k == |s| then [s] else [s[..k]] + SplitCrlf(s[k + 2..])
  }

  predicate NoCr(s: string) {
    forall i :: 0 <= i < |s| ==> s[i] != '\r'
  }

  lemma {:induction false} FindCrlfAfter(l: string, rest: string, i: nat)
    requires NoCr(l) && i <= |l|
    ensures FindCrlf(l + "\r\n" + rest, i) == |l|
    decreases |l| - i
  {
    if i < |l| { FindCrlfAfter(l, rest, i + 1); }
  }

  lemma SplitCrlfOf(l: string, rest: string)
    requires NoCr(l)
    ensures SplitCrlf(l + "\r\n" + rest) == [l] + SplitCrlf(rest)
  {
    var s := l + "\r\n" + rest;
    FindCrlfAfter(l, rest, 0);
    assert s[..|l|] == l && s[|l| + 2..] == rest;
  }

  function HeaderLines(hs: seq<Header>): seq<string> {
    if hs == [] then [] else [hs[0].name + ": " + hs[0].value] + HeaderLines(hs[1..])
  }

  predicate Clean(hs: seq<Header>) {
    forall i :: 0 <= i < |hs| ==> IsToken(hs[i].name) && IsFieldValue(hs[i].value)
  }

  lemma {:induction false} SplitTexts(hs: seq<Header>)
    requires Clean(hs)
    ensures SplitCrlf(HeaderTexts(hs) + "\r\n") == HeaderLines(hs) + ["", ""]
    decreases |hs|
  {
    if hs == [] {
      assert HeaderTexts(hs) + "\r\n" == "" + "\r\n" + "";
      SplitCrlfOf("", "");
    } else {
      var h, more := hs[0], hs[1..];
      assert hs == [h] + more;
      TextsAppend([h], more);
      TextOfOne(h);
      var l := h.name + ": " + h.value;
      LineClean(h);
      assert HeaderTexts(hs) + "\r\n" == l + "\r\n" + (HeaderTexts(more) + "\r\n");
      SplitCrlfOf(l, HeaderTexts(more) + "\r\n");
      SplitTexts(more);
    }
  }

  lemma LineClean(h: Header)
    requires IsToken(h.name) && IsFieldValue(h.value)
    ensures NoCr(h.name + ": " + h.value)
  {
  }

  lemma {:induction false} ToStringDigits(n: nat)
    ensures AllDigits(ToString(n)) && ToString(n) != "" && Decimal(ToString(n)) == n
    ensures n != 0 ==> ToString(n)[0] != '0'
  {
    if n >= 10 {
      ToStringDigits(n / 10);
      assert ToString(n)[..|ToString(n)| - 1] == ToString(n / 10);
    }
  }

  lemma HostValueClean(host: string, port: nat)
    requires IsTarget(host) && host != ""
    ensures IsFieldValue(HostValue(host, port))
  {
    ToStringDigits(port);
  }

  lemma {:induction false} KeptClean(extra: seq<Header>)
    requires forall i :: 0 <= i < |extra| ==> HeaderOk(extra[i])
    ensures forall i :: 0 <= i < |Kept(extra)| ==> HeaderOk(Kept(extra)[i]) && !NamesLength(Kept(extra)[i])
  {
    hide HeaderOk, NamesLength;
    if extra != [] { KeptClean(extra[..|extra| - 1]); }
  }

  lemma CarriedClean(m: string, host: string, port: nat, path: string, extra: seq<Header>,
                     bodySize: nat, connection: string)
    requires PartsOk(m, host, path, extra) && IsFieldValue(connection)
    ensures Clean(Carried(m, host, port, extra, bodySize, connection))
  {
    hide HostValue, ToString, EqualsIgnoreCase, Kept, IsTokenChar, IsFieldChar;
    KeptClean(extra);
    HostValueClean(host, port);
    ToStringDigits(bodySize);
    DigitsAreFieldText(ToString(bodySize));
    FixedNames();
  }

  lemma DigitsAreFieldText(s: string)
    requires AllDigits(s)
    ensures IsFieldValue(s)
  {
  }

  lemma FixedNames()
    ensures IsToken("Host") && IsToken("Connection") && IsToken("User-Agent") && IsToken("Content-Length")
    ensures IsFieldValue("manwe-soccer-http/0.3")
  {
  }

  /** Every header line parses back to its name and its value without outer whitespace. */
  lemma HeaderParsesBack(h: Header)
    requires IsToken(h.name) && IsFieldValue(h.value)
    ensures ParseHeaderLine(HeaderText(h)) == Ok(Header(h.name, Trim(h.value)))
  {
    hide ParseHeaderLine, Trim, Trimmed;
    var a, b := TrimSplits(h.value);
    var v := Trim(h.value);
    assert forall i :: 0 <= i < |v| ==> v[i] == h.value[|a| + i];
    HeaderLineRoundTrip(h.name, " " + a, v, b);
    assert HeaderText(h) == h.name + ":" + (" " + a) + v + b + "\r\n";
  }

  lemma SplitOf(a: string, c: char, rest: string)
    requires c !in a
    ensures Split(a + [c] + rest, c) == [a] + Split(rest, c)
  {
    var s := a + [c] + rest;
    FindSkip(s, c, 0, |a|);
    assert s[..|a|] == a && s[|a| + 1..] == rest;
  }

  /** An empty path is sent as "/". */
  function Target(path: string): string {
    if path == "" then "/" else path
  }

  /** Every accepted request reads back as intended: the head is the intended lines and a blank
      one and nothing else, the request line is method, target and version, and every header line
      parses to what was asked for. */
  lemma RequestReadsBack(m: string, host: string, port: nat, path: string, extra: seq<Header>,
                         bodySize: nat, connection: string)
    requires PartsOk(m, host, path, extra) && connection in {"keep-alive", "close"}
    ensures var hs := Carried(m, host, port, extra, bodySize, connection);
      && SplitCrlf(HeadOf(m, Target(path), hs)) == [RequestLine(m, Target(path))] + HeaderLines(hs) + ["", ""]
      && (forall i :: 0 <= i < |hs| ==> ParseHeaderLine(HeaderText(hs[i])) == Ok(Header(hs[i].name, Trim(hs[i].value))))
    ensures Split(RequestLine(m, Target(path)), ' ') == [m, Target(path), "HTTP/1.1"] && Target(path) != ""
  {
    hide Carried, HeaderTexts, SplitCrlf, ParseHeaderLine, HeaderText;
    var hs, target := Carried(m, host, port, extra, bodySize, connection), Target(path);
    CarriedClean(m, host, port, path, extra, bodySize, connection);
    var line := RequestLine(m, target);
    var rest := HeaderTexts(hs) + "\r\n";
    assert NoCr(line);
    assert HeadOf(m, target, hs) == line + "\r\n" + rest;
    SplitCrlfOf(line, rest);
    SplitTexts(hs);
    assert [line] + (HeaderLines(hs) + ["", ""]) == [line] + HeaderLines(hs) + ["", ""];
    forall i | 0 <= i < |hs| ensures ParseHeaderLine(HeaderText(hs[i])) == Ok(Header(hs[i].name, Trim(hs[i].value))) {
      HeaderParsesBack(hs[i]);
    }
    RequestLineSplits(m, target);
  }

  lemma SplitLast(s: string, c: char)
    requires c !in s
    ensures Split(s, c) == [s]
  {
  }

  lemma RequestLineSplits(m: string, path: string)
    requires IsToken(m) && IsTarget(path)
    ensures Split(RequestLine(m, path), ' ') == [m, path, "HTTP/1.1"]
  {
    hide Split, IsTokenChar;
    assert ' ' !in m by { TokenHasNoSpace(m); }
    var tail := path + [' '] + "HTTP/1.1";
    assert RequestLine(m, path) == m + [' '] + tail;
    SplitOf(m, ' ', tail);
    SplitOf(path, ' ', "HTTP/1.1");
    SplitLast("HTTP/1.1", ' ');
    assert [m] + ([path] + ["HTTP/1.1"]) == [m, path, "HTTP/1.1"];
  }

  lemma TokenHasNoSpace(m: string)
    requires IsToken(m)
    ensures ' ' !in m
  {
  }

  /** Content-Length appears once, with the true size, when there is a body or the method
      expects one, and otherwise not at all, whatever the caller supplied; and there is never a
      Transfer-Encoding beside it. */
  lemma LengthIsTrue(m: string, host: string, port: nat, path: string, extra: seq<Header>,
                     bodySize: nat, connection: string)
    requires PartsOk(m, host, path, extra)
    ensures var hs := Carried(m, host, port, extra, bodySize, connection);
      var expected := EqualsIgnoreCase(m, "POST") || EqualsIgnoreCase(m, "PUT") || EqualsIgnoreCase(m, "PATCH");
      && (forall i :: 0 <= i < |hs| ==> !EqualsIgnoreCase(hs[i].name, "Transfer-Encoding"))
      && (bodySize == 0 && !expected ==> !HasLength(hs))
      && (bodySize != 0 || expected ==>
            && hs != [] && NamesLength(hs[|hs| - 1]) && !HasLength(hs[..|hs| - 1])
            && AllDigits(hs[|hs| - 1].value) && Decimal(hs[|hs| - 1].value) == bodySize)
  {
    hide HostValue, ToString, Kept, Names;
    KeptClean(extra);
    ToStringDigits(bodySize);
    var hs := Carried(m, host, port, extra, bodySize, connection);
    if bodySize != 0 || ExpectsBody(m) {
      assert hs[|hs| - 1] == Header("Content-Length", ToString(bodySize));
    }
  }
}

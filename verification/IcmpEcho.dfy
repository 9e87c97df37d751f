/** The internet checksum (RFC 1071) and the ICMPv4 echo codec (RFC 792) of
    Soccer/includes/IcmpEcho.h. */
module IcmpEcho {
  import opened Wrappers

  type Byte = x: int | 0 <= x < 0x100
  type Word = x: int | 0 <= x < 0x1_0000

  const WRAP: nat := 0x1_0000_0000_0000_0000
  const MAX_PAYLOAD: nat := 65507

  /** A big-endian 16-bit word. */
  function Big(a: Byte, b: Byte): Word {
    a as int * 256 + b as int
  }

  // ---- The checksum ------------------------------------------------------------------

  /** The sum of the big-endian 16-bit words, an odd last byte padded with zero. */
  function WordSum(d: seq<Byte>): nat {
    if d == [] then 0 else if |d| == 1 then Big(d[0], 0) else Big(d[0], d[1]) + WordSum(d[2..])
  }

  /** The largest word sum of `n` bytes. */
  function MaxSum(n: nat): nat {
    0xFFFF * (n / 2) + if n % 2 == 1 then 0xFF00 else 0
  }

  lemma {:induction false} WordSumBound(d: seq<Byte>)
    ensures WordSum(d) <= MaxSum(|d|)
  {
    if |d| >= 2 { WordSumBound(d[2..]); }
  }

  lemma {:induction false} MaxAttained(n: nat)
    ensures WordSum(seq(n, _ => 0xFF)) == MaxSum(n)
  {
    if n >= 2 {
      MaxAttained(n - 2);
      assert seq<Byte>(n, _ => 0xFF)[2..] == seq<Byte>(n - 2, _ => 0xFF);
    }
  }

  /** No content of length `n` wraps the 64-bit sum exactly if the largest sum fits. */
  lemma NeverWrapsExactly(n: nat)
    ensures (forall d: seq<Byte> :: |d| == n ==> WordSum(d) < WRAP) <==> MaxSum(n) < WRAP
  {
    forall d: seq<Byte> | |d| == n ensures WordSum(d) <= MaxSum(n) {
      WordSumBound(d);
    }
    MaxAttained(n);
    var worst: seq<Byte> := seq(n, _ => 0xFF);
    assert |worst| == n;
  }

  /** `accumulate`, with the 64-bit addition written out. */
  method Accumulate(sum0: nat, d: seq<Byte>) returns (sum: nat)
    requires sum0 < WRAP
    ensures sum == (sum0 + WordSum(d)) % WRAP
  {
    sum := sum0;
    var p := 0;
    while |d| - p >= 2
      invariant p <= |d| && sum < WRAP
      invariant (sum0 + WordSum(d)) % WRAP == (sum + WordSum(d[p..])) % WRAP
    {
      assert d[p..][2..] == d[p + 2..];
      Carried(sum, Big(d[p], d[p + 1]), WordSum(d[p + 2..]));
      sum := (sum + Big(d[p], d[p + 1])) % WRAP;
      p := p + 2;
    }
    if |d| - p == 1 {
      Carried(sum, Big(d[p], 0), 0);
      sum := (sum + Big(d[p], 0)) % WRAP;
    }
  }

  lemma Carried(sum: nat, w: nat, rest: nat)
    ensures (sum + w + rest) % WRAP == ((sum + w) % WRAP + rest) % WRAP
  {
  }

  /** The value a sum has once its carries are folded back: its residue modulo 65535, written
      as 65535 rather than 0 for every non-zero sum. */
  function Fold(s: nat): (f: Word)
    ensures f == 0 <==> s == 0
  {
    if s == 0 then 0 else (s - 1) % 0xFFFF + 1
  }

  lemma FoldStep(s: nat)
    ensures Fold(s % 0x1_0000 + s / 0x1_0000) == Fold(s)
    ensures s / 0x1_0000 != 0 ==> s % 0x1_0000 + s / 0x1_0000 < s
  {
  }

  /** `finish`: the fold loop ends, and gives the complement of the folded sum. */
  method Finish(sum0: nat) returns (r: Word)
    ensures r == 0xFFFF - Fold(sum0)
  {
    var sum := sum0;
    while sum / 0x1_0000 != 0
      invariant Fold(sum) == Fold(sum0)
      decreases sum
    {
      FoldStep(sum);
      sum := sum % 0x1_0000 + sum / 0x1_0000;
    }
    r := 0xFFFF - sum;
  }

  /** Whether a wrap of the 64-bit sum leaves the checksum right: 2^64 is 1 modulo 65535, so the
      number of wraps must be a multiple of 65535 and the sum must not wrap to zero. */
  predicate Harmless(s: nat) {
    (s / WRAP) % 0xFFFF == 0 && (s % WRAP != 0 || s == 0)
  }

  lemma ModShift(x: int, k: int)
    ensures (x + k * 0xFFFF) % 0xFFFF == x % 0xFFFF
  {
  }

  lemma WrapMattersExactly(s: nat)
    ensures Fold(s % WRAP) == Fold(s) <==> Harmless(s)
  {
    var q, m := s / WRAP, s % WRAP;
    assert s == q * WRAP + m;
    assert s - 1 == (q + m - 1) + (q * 0x1_0001_0001_0001) * 0xFFFF;
    ModShift(q + m - 1, q * 0x1_0001_0001_0001);
    if m > 0 { SameResidue(m - 1, q); }
  }

  lemma SameResidue(x: nat, q: nat)
    ensures (x + q) % 0xFFFF == x % 0xFFFF <==> q % 0xFFFF == 0
  {
  }

  /** The checksum of any bytes: right exactly if the 64-bit sum does not wrap in a way that
      matters, so of any length whose largest sum fits. */
  method Checksum(d: seq<Byte>) returns (r: Word)
    ensures r == 0xFFFF - Fold(WordSum(d) % WRAP)
    ensures r == ChecksumOf(d) <==> Harmless(WordSum(d))
    ensures MaxSum(|d|) < WRAP ==> r == ChecksumOf(d)
  {
    var sum := Accumulate(0, d);
    r := Finish(sum);
    WrapMattersExactly(WordSum(d));
    WordSumBound(d);
  }

  function ChecksumOf(d: seq<Byte>): Word {
    0xFFFF - Fold(WordSum(d))
  }

  /** One's-complement addition: the carry out of bit 15 comes back in at bit 0. */
  function OnesAdd(a: Word, b: Word): Word {
    if a + b < 0x1_0000 then a + b else a + b - 0xFFFF
  }

  function OnesSum(d: seq<Byte>): Word {
    if d == [] then 0
    else if |d| == 1 then Big(d[0], 0)
    else OnesAdd(Big(d[0], d[1]), OnesSum(d[2..]))
  }

  lemma FoldWord(w: Word)
    ensures Fold(w) == w
  {
  }

  lemma FoldAdd(a: nat, b: nat)
    ensures Fold(a + b) == OnesAdd(Fold(a), Fold(b))
  {
  }

  /** The deferred carries of the source compute the checksum RFC 1071 defines: the complement
      of the one's-complement sum of the words. */
  lemma {:induction false} ChecksumIsOnesComplement(d: seq<Byte>)
    ensures ChecksumOf(d) == 0xFFFF - OnesSum(d)
  {
    hide Fold, OnesAdd;
    if |d| >= 2 {
      ChecksumIsOnesComplement(d[2..]);
      FoldWord(Big(d[0], d[1]));
      FoldAdd(Big(d[0], d[1]), WordSum(d[2..]));
    } else {
      FoldWord(WordSum(d));
    }
  }

  // ---- Building ----------------------------------------------------------------------

  function HighByte(w: Word): Byte { w / 256 }
  function LowByte(w: Word): Byte { w % 256 }

  /** `htons_u16` and `ntohs_u16`: a swap on a little-endian host, else the identity. */
  function Htons(w: Word, little: bool): Word {
    if little then Big(LowByte(w), HighByte(w)) else w
  }

  /** The bytes a host stores for a 16-bit value. */
  function Stored(w: Word, little: bool): seq<Byte> {
    if little then [LowByte(w), HighByte(w)] else [HighByte(w), LowByte(w)]
  }

  function Loaded(a: Byte, b: Byte, little: bool): Word {
    if little then Big(b, a) else Big(a, b)
  }

  /** On either kind of host, what is swapped and stored is big-endian on the wire, and what is
      loaded and swapped is the big-endian value. */
  lemma WireOrder(w: Word, a: Byte, b: Byte, little: bool)
    ensures Stored(Htons(w, little), little) == [HighByte(w), LowByte(w)]
    ensures Htons(Loaded(a, b, little), little) == Big(a, b)
  {
  }

  /** An echo packet, a request or an answer, with its checksum field zero. */
  function Unsigned(kind: Byte, id: Word, sequence: Word, payload: seq<Byte>): seq<Byte> {
    [kind, 0, 0, 0, HighByte(id), LowByte(id), HighByte(sequence), LowByte(sequence)] + payload
  }

  function Packet(kind: Byte, id: Word, sequence: Word, payload: seq<Byte>): seq<Byte> {
    var cs := ChecksumOf(Unsigned(kind, id, sequence, payload));
    [kind, 0, HighByte(cs), LowByte(cs), HighByte(id), LowByte(id), HighByte(sequence), LowByte(sequence)] + payload
  }

  /** The layout of RFC 792, with the checksum RFC 1071 defines. */
  lemma PacketLayout(kind: Byte, id: Word, sequence: Word, payload: seq<Byte>)
    ensures var p := Packet(kind, id, sequence, payload);
      && |p| == 8 + |payload| && p[0] == kind && p[1] == 0
      && p[4] as int * 256 + p[5] == id && p[6] as int * 256 + p[7] == sequence && p[8..] == payload
      && p[2] as int * 256 + p[3] == 0xFFFF - OnesSum(p[2 := 0][3 := 0])
  {
    hide ChecksumOf, OnesSum;
    var p, u := Packet(kind, id, sequence, payload), Unsigned(kind, id, sequence, payload);
    assert p[2 := 0][3 := 0] == u;
    ChecksumIsOnesComplement(u);
    Halves(ChecksumOf(u));
    Halves(id);
    Halves(sequence);
  }

  lemma Halves(w: Word)
    ensures HighByte(w) as int * 256 + LowByte(w) == w
  {
  }

  const REQUEST: Byte := 8
  const ANSWER: Byte := 0

  function Request(id: Word, sequence: Word, payload: seq<Byte>): seq<Byte> {
    Packet(REQUEST, id, sequence, payload)
  }

  /** What a host sends back (RFC 792): the request with its type changed to 0 and the checksum
      recomputed. */
  function Answered(request: seq<Byte>): seq<Byte>
    requires |request| >= 8
  {
    var zeroed := request[0 := 0][2 := 0][3 := 0];
    var cs := ChecksumOf(zeroed);
    zeroed[2 := HighByte(cs)][3 := LowByte(cs)]
  }

  lemma AnsweredIs(id: Word, sequence: Word, payload: seq<Byte>)
    ensures Answered(Request(id, sequence, payload)) == Packet(ANSWER, id, sequence, payload)
  {
    hide ChecksumOf;
    var r := Request(id, sequence, payload);
    assert r[0 := 0][2 := 0][3 := 0] == Unsigned(ANSWER, id, sequence, payload);
  }

  /** Header with a zero checksum field, and the payload copied behind it. */
  method Fill(p: array<Byte>, id: Word, sequence: Word, payload: seq<Byte>, little: bool)
    requires p.Length == 8 + |payload|
    modifies p
    ensures p[..] == Unsigned(8, id, sequence, payload)
  {
    hide Htons, Stored, HighByte, LowByte;
    WireOrder(id, 0, 0, little);
    WireOrder(sequence, 0, 0, little);
    var i, s := Stored(Htons(id, little), little), Stored(Htons(sequence, little), little);
    p[0], p[1] := 8, 0;
    p[2], p[3] := 0, 0;
    p[4], p[5] := i[0], i[1];
    p[6], p[7] := s[0], s[1];
    forall k | 0 <= k < |payload| {
      p[8 + k] := payload[k];
    }
  }

  /** `buildRequest`: fills the packet in place, sums it with the field still zero, then writes
      the field. */
  method BuildRequest(id: Word, sequence: Word, payload: seq<Byte>, little: bool) returns (packet: array?<Byte>)
    ensures packet == null <==> |payload| > 65507
    ensures packet != null ==> fresh(packet) && packet[..] == Request(id, sequence, payload)
  {
    hide ChecksumOf, Htons, Stored, HighByte, LowByte;
    if |payload| > MAX_PAYLOAD { return null; }
    var p := new Byte[8 + |payload|](_ => 0);
    Fill(p, id, sequence, payload, little);
    var cs := Checksum(p[..]);
    WireOrder(cs, 0, 0, little);
    var c := Stored(Htons(cs, little), little);
    p[2], p[3] := c[0], c[1];
    assert p[..] == Request(id, sequence, payload);
    packet := p;
  }

  // ---- Parsing -----------------------------------------------------------------------

  datatype Reply = Reply(kind: Byte, code: Byte, id: Word, sequence: Word, payload: seq<Byte>, valid: bool)

  /** The ICMP part of a datagram: all of it, or what follows a well-formed IPv4 header. */
  function Strip(d: seq<Byte>, skipIp: bool): Option<seq<Byte>> {
    if !skipIp then Some(d)
    else if d == [] then None
    else
      var ihl := (d[0] as int % 16) * 4;
      if d[0] / 16 != 4 || ihl < 20 || |d| < ihl || d[9] != 1 then None else Some(d[ihl..])
  }

  /** The sum that `parse` compares with the field: around bytes 2 and 3. */
  function SumAround(d: seq<Byte>): nat
    requires |d| >= 4
  {
    WordSum(d[..2]) + WordSum(d[4..])
  }

  function ParseEcho(d: seq<Byte>): Option<Reply> {
    if |d| < 8 || (d[0] != 0 && d[0] != 8) then None
    else Some(Reply(d[0], d[1], Big(d[4], d[5]), Big(d[6], d[7]), d[8..],
                    Big(d[2], d[3]) == 0xFFFF - Fold(SumAround(d))))
  }

  function ParsePacket(d: seq<Byte>, skipIp: bool): Option<Reply> {
    match Strip(d, skipIp)
    case None => None
    case Some(e) => ParseEcho(e)
  }

  method Parse(d0: seq<Byte>, skipIp: bool, little: bool) returns (r: Option<Reply>)
    ensures r.Some? <==> ParsePacket(d0, skipIp).Some?
    ensures r.Some? ==>
      var e := Strip(d0, skipIp).value;
      r.value == ParsePacket(d0, skipIp).value.(valid := Big(e[2], e[3]) == 0xFFFF - Fold(SumAround(e) % WRAP))
    ensures MaxSum(|d0|) < WRAP ==> r == ParsePacket(d0, skipIp)
  {
    hide WordSum, Fold, Htons, Loaded, Big, MaxSum;
    var d := d0;
    if skipIp {
      if d == [] { return None; }
      var ihl := (d[0] as int % 16) * 4;
      if d[0] / 16 != 4 { return None; }
      if ihl < 20 || |d| < ihl { return None; }
      if d[9] != 1 { return None; }
      d := d[ihl..];
    }
    if |d| < 8 { return None; }
    if d[0] != 0 && d[0] != 8 { return None; }
    WireOrder(0, d[2], d[3], little);
    WireOrder(0, d[4], d[5], little);
    WireOrder(0, d[6], d[7], little);
    var wire := Htons(Loaded(d[2], d[3], little), little);
    var sum := Accumulate(0, d[..2]);
    sum := Accumulate(sum, d[4..]);
    SumSplits(d);
    MaxSumGrows(|d|, |d0|);
    var cs := Finish(sum);
    r := Some(Reply(d[0], d[1], Htons(Loaded(d[4], d[5], little), little),
                    Htons(Loaded(d[6], d[7], little), little), d[8..], wire == cs));
  }

  lemma MaxSumGrows(m: nat, n: nat)
    requires m <= n
    ensures MaxSum(m) <= MaxSum(n)
  {
  }

  /** The two halves stay within what a packet of that length can sum to. */
  lemma SumSplits(d: seq<Byte>)
    requires |d| >= 4
    ensures WordSum(d[..2]) < WRAP && SumAround(d) <= MaxSum(|d|)
  {
    WordSumBound(d[..2]);
    WordSumBound(d[4..]);
  }

  /** Skipping the field is the same as counting it as zero. */
  lemma SplitSum(d: seq<Byte>, zeroed: seq<Byte>)
    requires |d| >= 4 && |zeroed| == |d| && zeroed[..2] == d[..2] && zeroed[4..] == d[4..]
    requires zeroed[2] == 0 && zeroed[3] == 0
    ensures SumAround(d) == WordSum(zeroed)
  {
    var w, rest := d[..2], zeroed[2..];
    assert zeroed[0] == zeroed[..2][0] == w[0] && zeroed[1] == zeroed[..2][1] == w[1];
    assert rest[0] == 0 && rest[1] == 0 && rest[2..] == zeroed[4..];
    assert WordSum(zeroed) == Big(zeroed[0], zeroed[1]) + WordSum(rest);
    assert WordSum(rest) == Big(rest[0], rest[1]) + WordSum(rest[2..]);
    assert w[2..] == [] && WordSum(w) == Big(w[0], w[1]) + WordSum(w[2..]);
  }

  lemma PacketSum(kind: Byte, id: Word, sequence: Word, payload: seq<Byte>)
    ensures SumAround(Packet(kind, id, sequence, payload)) == WordSum(Unsigned(kind, id, sequence, payload))
  {
    SplitSum(Packet(kind, id, sequence, payload), Unsigned(kind, id, sequence, payload));
  }

  /** What is accepted, and as what: eight bytes or more of type 0 or 8, whatever code and fields;
      valid exactly if the checksum field is the RFC 1071 checksum of the rest. */
  lemma ParsesExactly(d: seq<Byte>)
    ensures ParsePacket(d, false).Some? <==> |d| >= 8 && (d[0] == 0 || d[0] == 8)
    ensures |d| >= 8 && (d[0] == 0 || d[0] == 8) ==>
      var valid := d[2] as int * 256 + d[3] == 0xFFFF - OnesSum(d[2 := 0][3 := 0]);
      ParsePacket(d, false) ==
        Some(Reply(d[0], d[1], d[4] as int * 256 + d[5], d[6] as int * 256 + d[7], d[8..], valid))
  {
    hide WordSum, Fold, OnesSum;
    if |d| >= 8 {
      var zeroed := d[2 := 0][3 := 0];
      SplitSum(d, zeroed);
      ChecksumIsOnesComplement(zeroed);
    }
  }

  /** Every request and every answer parses back to its fields and payload with a valid checksum. */
  lemma RoundTrip(kind: Byte, id: Word, sequence: Word, payload: seq<Byte>)
    requires kind == 0 || kind == 8
    ensures ParsePacket(Packet(kind, id, sequence, payload), false) ==
            Some(Reply(kind, 0, id, sequence, payload, true))
  {
    hide ParsePacket, Packet, OnesSum;
    PacketLayout(kind, id, sequence, payload);
    ParsesExactly(Packet(kind, id, sequence, payload));
  }

  /** A well-formed IPv4 header of 20 to 60 bytes that announces ICMP. */
  predicate IsIpHeader(h: seq<Byte>) {
    20 <= |h| <= 60 && h[0] == 0x40 + |h| / 4 && |h| % 4 == 0 && h[9] == 1
  }

  /** Behind such a header everything parses as it does alone. */
  lemma BehindIp(header: seq<Byte>, p: seq<Byte>)
    requires IsIpHeader(header)
    ensures ParsePacket(header + p, true) == ParsePacket(p, false)
  {
    hide ParseEcho;
    var d := header + p;
    assert d[0] == header[0] && d[9] == header[9] && d[|header|..] == p;
  }

  /** What a ping is for: the answer to any request parses, alone and behind any IPv4 header, to the
      identifier, sequence number and payload that were sent. */
  lemma AnswerParses(id: Word, sequence: Word, payload: seq<Byte>, header: seq<Byte>)
    requires IsIpHeader(header)
    ensures var a := Answered(Request(id, sequence, payload));
      ParsePacket(a, false) == ParsePacket(header + a, true) == Some(Reply(0, 0, id, sequence, payload, true))
  {
    hide ParsePacket, Answered, Request, Packet;
    AnsweredIs(id, sequence, payload);
    RoundTrip(ANSWER, id, sequence, payload);
    BehindIp(header, Packet(ANSWER, id, sequence, payload));
  }

  /** So does a request. */
  lemma RoundTripBehindIp(header: seq<Byte>, id: Word, sequence: Word, payload: seq<Byte>)
    requires IsIpHeader(header)
    ensures ParsePacket(header + Request(id, sequence, payload), true) == Some(Reply(8, 0, id, sequence, payload, true))
  {
    hide ParsePacket, Packet;
    RoundTrip(REQUEST, id, sequence, payload);
    BehindIp(header, Request(id, sequence, payload));
  }

  /** With the IPv4 header to skip: exactly what such a header precedes. */
  lemma ParsesBehindIpExactly(d: seq<Byte>)
    ensures ParsePacket(d, true).Some? <==>
      exists n: nat :: n <= |d| && IsIpHeader(d[..n]) && ParsePacket(d[n..], false).Some?
  {
    hide ParseEcho;
    forall n: nat | n <= |d| && IsIpHeader(d[..n]) ensures ParsePacket(d, true) == ParsePacket(d[n..], false) {
      BehindIp(d[..n], d[n..]);
      assert d[..n] + d[n..] == d;
    }
    if ParsePacket(d, true).Some? {
      var n := (d[0] as int % 16) * 4;
      assert IsIpHeader(d[..n]);
    }
  }

  // ---- Error detection ---------------------------------------------------------------

  lemma {:induction false} ByteWeight(d: seq<Byte>, i: nat, b: Byte)
    requires i < |d|
    ensures WordSum(d[i := b]) == WordSum(d) + (b - d[i]) * (if i % 2 == 0 then 256 else 1)
    decreases |d|
  {
    var e := d[i := b];
    if i >= 2 {
      ByteWeight(d[2..], i - 2, b);
      assert e[2..] == d[2..][i - 2 := b];
    } else if |d| >= 2 {
      assert e[2..] == d[2..];
    }
  }

  /** Sums that fold alike differ by a multiple of 65535. */
  lemma FoldDiffers(s: nat, t: nat)
    requires 0 < t - s < 0xFFFF
    ensures Fold(s) != Fold(t)
  {
  }

  /** Any change to one byte of any request or answer is noticed: the packet is rejected or its
      checksum is reported invalid. */
  lemma DetectsByteChange(kind: Byte, id: Word, sequence: Word, payload: seq<Byte>, i: nat, b: Byte)
    requires (kind == 0 || kind == 8) && i < 8 + |payload| && b != Packet(kind, id, sequence, payload)[i]
    ensures var r := ParsePacket(Packet(kind, id, sequence, payload)[i := b], false); r.None? || !r.value.valid
  {
    hide WordSum;
    var p := Packet(kind, id, sequence, payload);
    var q := p[i := b];
    PacketSum(kind, id, sequence, payload);
    if 2 <= i < 4 {
      assert q[..2] == p[..2] && q[4..] == p[4..];
    } else {
      SumChange(p, i, b);
      var s, t := SumAround(p), SumAround(q);
      if s < t { FoldDiffers(s, t); } else { FoldDiffers(t, s); }
    }
  }

  /** Also behind an IPv4 header. */
  lemma DetectsByteChangeBehindIp(header: seq<Byte>, kind: Byte, id: Word, sequence: Word, payload: seq<Byte>,
                                  i: nat, b: Byte)
    requires IsIpHeader(header) && (kind == 0 || kind == 8)
    requires i < 8 + |payload| && b != Packet(kind, id, sequence, payload)[i]
    ensures var d := header + Packet(kind, id, sequence, payload);
      var r := ParsePacket(d[|header| + i := b], true); r.None? || !r.value.valid
  {
    hide ParsePacket;
    var p := Packet(kind, id, sequence, payload);
    DetectsByteChange(kind, id, sequence, payload, i, b);
    assert (header + p)[|header| + i := b] == header + p[i := b];
    BehindIp(header, p[i := b]);
  }

  lemma SumChange(p: seq<Byte>, i: nat, b: Byte)
    requires |p| >= 4 && i < |p| && !(2 <= i < 4)
    ensures SumAround(p[i := b]) == SumAround(p) + (b - p[i]) * (if i % 2 == 0 then 256 else 1)
  {
    hide WordSum;
    var q := p[i := b];
    if i < 2 {
      ByteWeight(p[..2], i, b);
      assert q[..2] == p[..2][i := b] && q[4..] == p[4..];
    } else {
      ByteWeight(p[4..], i - 4, b);
      assert q[..2] == p[..2] && q[4..] == p[4..][i - 4 := b];
    }
  }

  /** The packet with its `k`-th word replaced. */
  function WithWord(p: seq<Byte>, k: nat, w: Word): seq<Byte>
    requires 2 * k + 1 < |p|
  {
    p[2 * k := HighByte(w)][2 * k + 1 := LowByte(w)]
  }

  /** Whether a byte outside the checksum field and the `k`-th word is not zero. */
  predicate OthersCount(p: seq<Byte>, k: nat) {
    exists i :: 0 <= i < |p| && i !in {2, 3, 2 * k, 2 * k + 1} && p[i] != 0
  }

  /** A whole word can change unnoticed, and exactly in one way: past the checksum field the two
      spellings of zero, 0x0000 and 0xFFFF, stand for each other when some other byte is not zero.
      The type word and the checksum word cannot change unnoticed at all. */
  lemma DetectsWordChange(kind: Byte, id: Word, sequence: Word, payload: seq<Byte>, k: nat, w: Word)
    requires (kind == 0 || kind == 8) && 2 * k + 1 < 8 + |payload|
    ensures var p := Packet(kind, id, sequence, payload);
      var was := Big(p[2 * k], p[2 * k + 1]);
      var r := ParsePacket(WithWord(p, k, w), false);
      r.Some? && r.value.valid <==>
        w == was || (k >= 2 && OthersCount(p, k) && ((w == 0 && was == 0xFFFF) || (w == 0xFFFF && was == 0)))
  {
    hide WordSum, Fold, OthersCount;
    var p := Packet(kind, id, sequence, payload);
    PacketSum(kind, id, sequence, payload);
    var r := WithWord(p, k, w);
    if k == 1 {
      assert r[..2] == p[..2] && r[4..] == p[4..];
    } else {
      FoldsAlike(p, k, w);
    }
  }

  /** Replacing a word keeps the folded sum exactly in that one way. */
  lemma FoldsAlike(p: seq<Byte>, k: nat, w: Word)
    requires |p| >= 4 && 2 * k + 1 < |p| && k != 1
    ensures var was := Big(p[2 * k], p[2 * k + 1]);
      Fold(SumAround(p)) == Fold(SumAround(WithWord(p, k, w))) <==>
        w == was || (OthersCount(p, k) && ((w == 0 && was == 0xFFFF) || (w == 0xFFFF && was == 0)))
  {
    hide WordSum, Fold, OthersCount, WithWord, Big, SumAround;
    var was := Big(p[2 * k], p[2 * k + 1]);
    WordChange(p, k, w);
    OthersSum(p, k);
    FoldSame(SumAround(p) - was, was, w);
  }

  /** The other bytes count exactly if the sum is more than the word. */
  lemma OthersSum(p: seq<Byte>, k: nat)
    requires |p| >= 4 && 2 * k + 1 < |p| && k != 1
    ensures SumAround(p) >= Big(p[2 * k], p[2 * k + 1])
    ensures OthersCount(p, k) <==> SumAround(p) > Big(p[2 * k], p[2 * k + 1])
  {
    hide WordSum;
    var z := WithWord(p, k, 0);
    WordChange(p, k, 0);
    ZeroSum(z[..2]);
    ZeroSum(z[4..]);
    if OthersCount(p, k) {
      var i :| 0 <= i < |p| && i !in {2, 3, 2 * k, 2 * k + 1} && p[i] != 0;
      assert if i < 2 then z[..2][i] != 0 else z[4..][i - 4] != 0;
    } else {
      forall i | 0 <= i < |p| && i !in {2, 3} ensures z[i] == 0 {}
    }
  }

  lemma {:induction false} ZeroSum(d: seq<Byte>)
    ensures WordSum(d) == 0 <==> forall i :: 0 <= i < |d| ==> d[i] == 0
  {
    if |d| >= 2 {
      ZeroSum(d[2..]);
      if forall i :: 0 <= i < |d[2..]| ==> d[2..][i] == 0 {
        forall i | 2 <= i < |d| ensures d[i] == 0 { assert d[2..][i - 2] == 0; }
      }
    }
  }

  lemma WordChange(p: seq<Byte>, k: nat, w: Word)
    requires |p| >= 4 && 2 * k + 1 < |p| && k != 1
    ensures SumAround(WithWord(p, k, w)) == SumAround(p) + w - Big(p[2 * k], p[2 * k + 1])
  {
    hide WordSum;
    SumChange(p, 2 * k, HighByte(w));
    SumChange(p[2 * k := HighByte(w)], 2 * k + 1, LowByte(w));
  }

  /** Two words in the same surroundings fold alike only if they are the two zeros, and then exactly
      if the surroundings are not zero. */
  lemma FoldSame(rest: nat, v: Word, w: Word)
    ensures Fold(rest + v) == Fold(rest + w) <==>
      v == w || (rest > 0 && ((v == 0 && w == 0xFFFF) || (v == 0xFFFF && w == 0)))
  {
  }
}

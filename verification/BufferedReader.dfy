/** The byte streams and the buffered reader of Soccer/includes/BufferedReader.h. A byte is a
    `char`: nothing here or in the HTTP modules needs it to be below 256. */
module BufferedReading {

  /** The default bound of `readExact`, 64 MiB. */
  const MAX_EXACT: nat := 64 * 1024 * 1024

  /** The bytes a peer sends before the connection ends, delivered in arbitrary pieces: the i-th
      read asks for `sizes(i)` bytes and gets at least one while any are left. At the end a read
      gives zero bytes, or throws if the connection `breaks`. */
  class TcpStream {
    const sent: string
    const breaks: bool
    const sizes: nat -> nat
    var pos: nat
    var calls: nat

    constructor (sent: string, breaks: bool, sizes: nat -> nat)
      ensures Valid() && this.sent == sent && this.breaks == breaks && this.sizes == sizes && pos == 0
    {
      this.sent, this.breaks, this.sizes, pos, calls := sent, breaks, sizes, 0, 0;
    }

    predicate Valid()
      reads this
    {
      pos <= |sent|
    }

    method Read(buf: array<char>, off: nat, room: nat) returns (n: nat, threw: bool)
      requires Valid() && off + room <= buf.Length && room > 0
      modifies this`pos, this`calls, buf
      ensures Valid() && n <= room && pos == old(pos) + n
      ensures n == 0 <==> old(pos) == |sent|
      ensures threw <==> n == 0 && breaks
      ensures buf[..off] == old(buf[..off])
      ensures buf[off..off + n] == sent[old(pos)..pos]
      ensures calls == old(calls) + 1
    {
      var left := |sent| - pos;
      n := if sizes(calls) == 0 then 1 else sizes(calls);
      if n > room { n := room; }
      if n > left { n := left; }
      var from := pos;
      forall i | 0 <= i < n {
        buf[off + i] := sent[from + i];
      }
      pos, calls := pos + n, calls + 1;
      threw := n == 0 && breaks;
    }
  }

  /** A stream view that counts the bytes read through it, from position `start` on. */
  class CountingStream {
    const stream: TcpStream
    ghost const start: nat
    var total: nat

    constructor (stream: TcpStream)
      requires stream.Valid()
      ensures this.stream == stream && start == stream.pos && total == 0
    {
      this.stream, this.start, total := stream, stream.pos, 0;
    }

    ghost predicate Valid()
      reads this, stream
    {
      stream.Valid() && start + total == stream.pos
    }

    method Read(buf: array<char>, off: nat, room: nat) returns (n: nat, threw: bool)
      requires Valid() && off + room <= buf.Length && room > 0
      modifies this`total, stream`pos, stream`calls, buf
      ensures Valid() && n <= room && stream.pos == old(stream.pos) + n
      ensures n == 0 <==> old(stream.pos) == |stream.sent|
      ensures threw <==> n == 0 && stream.breaks
      ensures buf[..off] == old(buf[..off])
      ensures buf[off..off + n] == stream.sent[old(stream.pos)..stream.pos]
      ensures stream.calls == old(stream.calls) + 1
    {
      n, threw := stream.Read(buf, off, room);
      total := total + n;
    }
  }

  /** Where the record of `s` that starts at `i` ends: past the next `delim`, or at the end. */
  function RecordEnd(s: string, delim: char, i: nat): (n: nat)
    requires i <= |s|
    ensures i <= n <= |s| && (n == i <==> i == |s|)
    decreases |s| - i
  {
    if i == |s| then i else if s[i] == delim then i + 1 else RecordEnd(s, delim, i + 1)
  }

  /** Length of the first record of `s`. */
  function RecordLength(s: string, delim: char): nat {
    RecordEnd(s, delim, 0)
  }

  /** A record ends in its only delimiter, or runs to the end without one; nothing else does. */
  lemma {:induction false} RecordEndIs(s: string, delim: char, i: nat, n: nat)
    requires i <= n <= |s|
    ensures RecordEnd(s, delim, i) == n <==>
      (forall j :: i <= j < n - 1 ==> s[j] != delim)
      && (n == i ==> n == |s|) && (n > i ==> s[n - 1] == delim || n == |s|)
    decreases |s| - i
  {
    if i < n && s[i] != delim { RecordEndIs(s, delim, i + 1, n); }
  }

  predicate Free(s: string, delim: char) {
    forall i :: 0 <= i < |s| ==> s[i] != delim
  }

  /** `n` bytes of `u` were scanned up to and including the first delimiter, or none was met. */
  predicate Scanned(u: string, n: nat, hit: bool, delim: char) {
    0 < n <= |u| && Free(u[..n - 1], delim) && (hit <==> u[n - 1] == delim)
  }

  /** What `readUntilDelim` gives back; `Broke` is a read that threw underneath. */
  datatype Record = Record(text: string, terminated: bool) | TooLong | Broke

  /** How a reader sees its stream: its line bound, and whether the stream ends in a read that
      throws. */
  datatype Channel = Channel(maxLine: nat, breaks: bool)

  /** The record at the front of `s`: over the bound, or cut off by a failing read, or read. */
  function FirstRecord(s: string, delim: char, ch: Channel): Record {
    var n := RecordLength(s, delim);
    if n > ch.maxLine then TooLong
    else if ch.breaks && !EndsIn(s[..n], delim) then Broke
    else Record(s[..n], EndsIn(s[..n], delim))
  }

  /** What a scan after a delimiter-free `out` says about the record as a whole. */
  lemma ScannedRecord(out: string, u: string, n: nat, hit: bool, delim: char, ch: Channel)
    requires Free(out, delim) && Scanned(u, n, hit, delim)
    ensures |out| + n > ch.maxLine ==> FirstRecord(out + u, delim, ch) == TooLong
    ensures |out| + n <= ch.maxLine && hit ==> FirstRecord(out + u, delim, ch) == Record(out + u[..n], true)
    ensures !hit ==> Free(out + u[..n], delim)
  {
    var all := out + u;
    forall j | 0 <= j < |out| + n - 1 ensures all[j] != delim {
      if j >= |out| { assert u[..n - 1][j - |out|] != delim; }
    }
    assert all[..|out| + n] == out + u[..n];
    RecordEndIs(all, delim, 0, RecordLength(all, delim));
    RecordEndIs(all, delim, 0, |out| + n);
  }

  /** A record the stream ends in before its delimiter. */
  lemma FreeRecord(s: string, delim: char, ch: Channel)
    requires Free(s, delim)
    ensures RecordLength(s, delim) == |s|
    ensures |s| <= ch.maxLine ==> FirstRecord(s, delim, ch) == if ch.breaks then Broke else Record(s, false)
  {
    RecordEndIs(s, delim, 0, |s|);
    assert s[..|s|] == s;
  }

  predicate EndsIn(s: string, c: char) {
    s != [] && s[|s| - 1] == c
  }

  lemma Regroup(a: string, b: string, c: string)
    ensures (a + b) + c == a + (b + c)
  {
  }

  function Min(a: nat, b: nat): nat {
    if a < b then a else b
  }

  class BufferedReader {
    const stream: CountingStream
    const buf: array<char>
    const maxLine: nat
    var readPos: nat
    var writePos: nat
    var eofObserved: bool
    /** The bytes not yet handed out: the buffered ones, then those still on the wire. */
    ghost var unread: string

    ghost predicate Valid()
      reads this, buf, stream, stream.stream
    {
      && stream.Valid()
      && 0 < buf.Length && readPos <= writePos <= buf.Length
      && (eofObserved ==> stream.stream.pos == |stream.stream.sent| && !stream.stream.breaks)
      && unread == buf[readPos..writePos] + stream.stream.sent[stream.stream.pos..]
    }

    ghost function Chan(): Channel {
      Channel(maxLine, stream.stream.breaks)
    }

    /** Bytes of the stream that have not been pulled off the socket. */
    ghost function OnWire(): int
      reads stream.stream
    {
      |stream.stream.sent| - stream.stream.pos
    }

    constructor (stream: CountingStream, capacity: nat, maxLine: nat)
      requires stream.Valid() && capacity > 0
      ensures Valid() && fresh(buf)
      ensures this.stream == stream && this.maxLine == maxLine && buf.Length == capacity
      ensures unread == stream.stream.sent[stream.stream.pos..]
      ensures readPos == writePos
    {
      this.stream, this.maxLine := stream, maxLine;
      buf := new char[capacity];
      readPos, writePos, eofObserved := 0, 0, false;
      unread := stream.stream.sent[stream.stream.pos..];
    }

    /** The public constructor: a zero capacity is refused. */
    static method Make(stream: CountingStream, capacity: nat, maxLine: nat) returns (r: BufferedReader?)
      requires stream.Valid()
      ensures r == null <==> capacity == 0
      ensures r != null ==>
        && fresh(r) && fresh(r.buf) && r.Valid() && r.stream == stream && r.maxLine == maxLine
        && r.unread == stream.stream.sent[stream.stream.pos..] && r.readPos == r.writePos
    {
      if capacity == 0 { return null; }
      r := new BufferedReader(stream, capacity, maxLine);
    }

    /** Bytes pulled off the socket are either handed out or still buffered. */
    lemma Conservation()
      requires Valid()
      ensures |unread| == |stream.stream.sent| - stream.start - stream.total + (writePos - readPos)
    {
    }

    predicate AtEof()
      reads this
    {
      eofObserved && readPos == writePos
    }

    lemma EofEmpty()
      requires Valid() && AtEof()
      ensures unread == "" && !stream.stream.breaks
    {
    }

    /** Move the unread bytes to the front of the buffer. */
    method Compact()
      requires Valid()
      modifies this`readPos, this`writePos, buf
      ensures Valid() && readPos == 0 && writePos == old(writePos - readPos)
    {
      if readPos > 0 {
        if readPos < writePos {
          var n := writePos - readPos;
          var from := readPos;
          ghost var live := buf[from..writePos];
          forall i | 0 <= i < n {
            buf[i] := buf[from + i];
          }
          assert buf[0..n] == live;
          writePos := n;
        } else {
          writePos := 0;
        }
        readPos := 0;
      }
    }

    /** One underlying read. No byte is lost or moved out of order, and entered with an empty
        buffer, as its caller does, it never meets the zero-headroom exit: it makes exactly one
        read and either gains a byte or, the stream having ended, latches that or throws. */
    method Refill() returns (threw: bool)
      requires Valid()
      modifies this`readPos, this`writePos, this`eofObserved, buf
      modifies stream`total, stream.stream`pos, stream.stream`calls
      ensures Valid()
      ensures writePos - readPos >= old(writePos - readPos)
      ensures old(readPos == writePos) ==>
        && stream.stream.calls == old(stream.stream.calls) + 1
        && (readPos < writePos <==> unread != [])
        && (threw <==> unread == [] && stream.stream.breaks)
        && (unread == [] && !threw ==> eofObserved)
    {
      threw := false;
      Compact();
      var headroom := buf.Length - writePos;
      if headroom == 0 { return; }
      ghost var tcp := stream.stream;
      ghost var from := tcp.pos;
      ghost var live := buf[..writePos];
      var n;
      n, threw := stream.Read(buf, writePos, headroom);
      if threw { return; }
      if n == 0 {
        eofObserved := true;
      } else {
        Regroup(live, tcp.sent[from..tcp.pos], tcp.sent[tcp.pos..]);
        assert tcp.sent[from..] == tcp.sent[from..tcp.pos] + tcp.sent[tcp.pos..];
        assert buf[0..writePos + n] == live + tcp.sent[from..tcp.pos];
        writePos := writePos + n;
      }
    }

    /** Make sure a byte is buffered, unless the stream has ended. */
    method Fetch() returns (more: bool, threw: bool)
      requires Valid()
      modifies this, buf
      modifies stream`total, stream.stream`pos, stream.stream`calls
      ensures Valid() && unread == old(unread)
      ensures more <==> readPos < writePos
      ensures more <==> unread != []
      ensures threw <==> !more && stream.stream.breaks
      ensures !more && !threw ==> AtEof()
    {
      threw := false;
      if readPos == writePos && !eofObserved {
        threw := Refill();
      }
      more := readPos < writePos;
    }

    /** Hand out `n` buffered bytes. */
    method Consume(n: nat) returns (piece: string)
      requires Valid() && n <= writePos - readPos
      modifies this`readPos, this`unread
      ensures Valid() && piece == old(unread)[..n] && piece + unread == old(unread)
      ensures readPos == old(readPos) + n
    {
      piece := buf[readPos..readPos + n];
      assert buf[readPos..writePos] == piece + buf[readPos + n..writePos];
      readPos := readPos + n;
      unread := unread[n..];
    }

    /** The first `n` unread bytes, or all of them when the peer closes first; refused, with
        nothing read, when the length is over the bound; broken when the stream breaks first. */
    method ReadExact(n: nat, maxBytes: nat) returns (ok: bool, out: string, broke: bool)
      requires Valid()
      modifies this, buf
      modifies stream`total, stream.stream`pos, stream.stream`calls
      ensures Valid()
      ensures ok <==> n <= maxBytes
      ensures broke <==> ok && n > |old(unread)| && stream.stream.breaks
      ensures ok && !broke ==>
        && out == old(unread)[..Min(n, |old(unread)|)]
        && unread == old(unread)[Min(n, |old(unread)|)..]
        && (|out| < n ==> AtEof())
      ensures !ok ==> unread == old(unread)
    {
      out := "";
      if n > maxBytes { return false, out, false; }
      ok, broke := true, false;
      ghost var all := unread;
      while |out| < n
        invariant Valid() && |out| <= n
        invariant out + unread == all
        decreases n - |out|
      {
        var more, threw := Fetch();
        if threw { return true, out, true; }
        if !more { break; }
        var want := n - |out|;
        var avail := writePos - readPos;
        var piece := Consume(if want < avail then want else avail);
        Regroup(out, piece, unread);
        out := out + piece;
      }
      assert out == all[..|out|] && unread == all[|out|..];
    }

    /** The first record of the unread bytes, whatever the sizes of the reads underneath; refused
        exactly when that record is longer than `maxLine`, broken exactly when it is not and the
        stream breaks before the delimiter. Unless nothing is left, some byte has been pulled. */
    method ReadUntilDelim(delim: char) returns (r: Record)
      requires Valid()
      modifies this, buf
      modifies stream`total, stream.stream`pos, stream.stream`calls
      ensures Valid()
      ensures r == FirstRecord(old(unread), delim, Chan())
      ensures r.Record? ==> unread == old(unread)[|r.text|..]
      ensures old(unread) != "" ==> OnWire() < |old(unread)|
    {
      hide FirstRecord;
      ghost var all := unread;
      var out := "";
      while true
        invariant Valid() && |out| <= maxLine
        invariant out + unread == all && Free(out, delim)
        decreases |unread|
      {
        var more, threw := Fetch();
        if !more {
          FreeRecord(out, delim, Chan());
          assert all == out && all[|out|..] == unread;
          if threw { return Broke; }
          return Record(out, false);
        }
        var take, hit := Scan(delim);
        ScannedRecord(out, unread, take, hit, delim, Chan());
        if |out| + take > maxLine { return TooLong; }
        ghost var u := unread;
        var piece := Consume(take);
        assert piece == u[..take];
        Regroup(out, piece, unread);
        out := out + piece;
        if hit {
          assert out == all[..|out|] && unread == all[|out|..];
          return Record(out, true);
        }
      }
    }

    /** Scan the buffered region for the delimiter. */
    method Scan(delim: char) returns (take: nat, hit: bool)
      requires Valid() && readPos < writePos
      ensures take <= writePos - readPos && Scanned(unread, take, hit, delim)
    {
      var i := 0;
      while i < writePos - readPos && buf[readPos + i] != delim
        invariant i <= writePos - readPos
        invariant forall j :: 0 <= j < i ==> unread[j] != delim
      {
        assert unread[i] == buf[readPos..writePos][i];
        i := i + 1;
      }
      hit := i < writePos - readPos;
      take := if hit then i + 1 else i;
    }

    method ReadLine() returns (r: Record)
      requires Valid()
      modifies this, buf
      modifies stream`total, stream.stream`pos, stream.stream`calls
      ensures Valid()
      ensures r == FirstRecord(old(unread), '\n', Chan())
      ensures r.Record? ==> unread == old(unread)[|r.text|..]
      ensures old(unread) != "" ==> OnWire() < |old(unread)|
    {
      r := ReadUntilDelim('\n');
    }
  }
}

/** The buffered socket stream and the line reader on top of it. */
module Streams {
  import opened Machine

  const READ_BUFF_SIZE: nat := 4096

  /**
   * A socket with a read-ahead buffer. `incoming` is what the peer has sent, or
   * will send before it closes, and the socket has not yet handed over.
   * `failures` counts the reads that reported an error, and `stream` is
   * everything the peer sends.
   */
  class SocketStream {
    const buff: array<char>
    var off: nat
    var contentSize: nat
    var incoming: string
    ghost var failures: nat
    ghost var delivered: string
    ghost const stream: string

    /** Nothing the peer sent is lost, repeated or reordered. */
    ghost predicate Valid()
      reads this, buff
    {
      && buff.Length == READ_BUFF_SIZE
      && off <= contentSize <= READ_BUFF_SIZE
      && stream == delivered + Remaining()
    }

    /** The bytes still to be read: those buffered, then those not yet received. */
    ghost function Remaining(): string
      requires off <= contentSize <= buff.Length
      reads this, buff
    {
      buff[off..contentSize] + incoming
    }

    constructor (peer: string)
      ensures Valid() && fresh(buff) && failures == 0
      ensures Remaining() == stream == peer && delivered == ""
    {
      buff := new char[READ_BUFF_SIZE](_ => '\0');
      off, contentSize, incoming := 0, 0, peer;
      failures, delivered, stream := 0, "", peer;
    }

    /**
     * One receive of at most `cap` bytes: an error, the end of the stream, or
     * any non-empty prefix of what is on its way.
     */
    method ReadSocket(cap: nat) returns (n: int, data: string)
      requires cap > 0
      modifies this`incoming, this`failures
      ensures data + incoming == old(incoming) && |data| <= cap
      ensures failures == old(failures) + if n < 0 then 1 else 0
      ensures if n < 0 then data == "" else n == |data|
      ensures n == 0 ==> incoming == ""
    {
      data := "";
      if * {
        failures := failures + 1;
        return -1, data;
      }
      var k: nat :| k <= cap && k <= |incoming| && (k == 0 ==> incoming == "");
      n, data, incoming := k, incoming[..k], incoming[k..];
    }

    /** Serves a read from the buffer. */
    method TakeBuffered(size: nat) returns (data: string)
      requires Valid() && off < contentSize
      modifies this`off, this`delivered
      ensures Valid() && delivered == old(delivered) + data
      ensures data + Remaining() == old(Remaining()) && |data| <= size
      ensures data == "" ==> size == 0
    {
      var k := if size <= contentSize - off then size else contentSize - off;
      data := buff[off..off + k];
      off := off + k;
      delivered := delivered + data;
      assert buff[old(off)..contentSize] == data + buff[off..contentSize];
    }

    /** Serves a small read by receiving a whole buffer and keeping the excess. */
    method ReadAhead(size: nat) returns (n: int, data: string)
      requires Valid() && off == contentSize == 0
      modifies this, buff
      ensures Valid() && delivered == old(delivered) + data
      ensures data + Remaining() == old(Remaining()) && |data| <= size
      ensures failures == old(failures) + if n < 0 then 1 else 0
      ensures if n < 0 then data == "" else n == |data|
      ensures n == 0 && size > 0 ==> Remaining() == ""
    {
      var received;
      n, received := ReadSocket(READ_BUFF_SIZE);
      if n <= 0 {
        return n, received;
      }
      forall i | 0 <= i < n { buff[i] := received[i]; }
      assert buff[..n] == received;
      if n <= size {
        data := received;
      } else {
        data := received[..size];
        off, contentSize, n := size, n, size;
        assert received == data + buff[off..contentSize];
      }
      delivered := delivered + data;
      assert Remaining() == buff[off..contentSize] + incoming;
    }

    /**
     * Reads at most `size` bytes. A result of zero for a non-zero `size` means
     * that the whole stream has been read.
     */
    method Read(size: nat) returns (n: int, data: string)
      requires Valid()
      modifies this, buff
      ensures Valid() && delivered == old(delivered) + data
      ensures data + Remaining() == old(Remaining()) && |data| <= size
      ensures failures == old(failures) + if n < 0 then 1 else 0
      ensures if n < 0 then data == "" else n == |data|
      ensures n == 0 && size > 0 ==> Remaining() == ""
    {
      var size := Min(size, SSIZE_MAX);
      if off < contentSize {
        data := TakeBuffered(size);
        return |data|, data;
      }
      assert Remaining() == incoming;
      if * {
        failures := failures + 1;
        return -1, "";
      }
      off, contentSize := 0, 0;
      assert Remaining() == incoming;
      if size < READ_BUFF_SIZE {
        n, data := ReadAhead(size);
      } else {
        n, data := ReadSocket(size);
        delivered := delivered + data;
        assert Remaining() == incoming;
      }
    }
  }

  /** The first line of `s` with its line feed; all of `s` when it has none. */
  function Line(s: string): (r: string)
    ensures r <= s && (s != "" ==> r != "")
  {
    if s == "" then "" else if s[0] == '\n' then s[..1] else s[..1] + Line(s[1..])
  }

  function AfterLine(s: string): string {
    s[|Line(s)|..]
  }

  lemma {:induction false} LineOf(line: string, rest: string)
    requires '\n' !in line
    ensures Line(line + "\n" + rest) == line + "\n" && AfterLine(line + "\n" + rest) == rest
  {
    var s := line + "\n" + rest;
    if line == "" {
      assert s == "\n" + rest;
    } else {
      assert s[1..] == line[1..] + "\n" + rest;
      LineOf(line[1..], rest);
      assert Line(s) == s[..1] + (line[1..] + "\n");
    }
  }

  lemma {:induction false} LastLine(line: string)
    requires '\n' !in line
    ensures Line(line) == line && AfterLine(line) == ""
  {
    if line != "" {
      LastLine(line[1..]);
    }
  }

  /** `line` is the first line of `s`, which is not empty, and `rest` what follows it. */
  ghost predicate Taken(s: string, line: string, rest: string) {
    s != "" && line == Line(s) && rest == AfterLine(s)
  }

  /** `got` has been taken from `s`, `rest` is left, and the line has not ended. */
  ghost predicate Partial(s: string, got: string, rest: string) {
    s == got + rest && '\n' !in got
  }

  lemma ByteTaken(s: string, got: string, byte: char, rest: string)
    requires Partial(s, got, [byte] + rest)
    ensures if byte == '\n' then Taken(s, got + [byte], rest) else Partial(s, got + [byte], rest)
  {
    assert s == got + [byte] + rest;
    if byte == '\n' {
      LineOf(got, rest);
    }
  }

  lemma StreamEnded(s: string, got: string)
    requires Partial(s, got, "")
    ensures s == got && (got != "" ==> Taken(s, got, ""))
  {
    assert s == got;
    LastLine(got);
  }

  /**
   * Reads lines into a fixed buffer, and into a growable one from the byte that
   * no longer fits beside the terminating zero.
   */
  class LineReader {
    const strm: SocketStream
    const fixedBuffer: array<char>
    var usedSize: nat
    var growable: string

    ghost predicate Valid()
      reads this, strm, strm.buff, fixedBuffer
    {
      && strm.Valid()
      && fixedBuffer != strm.buff
      && 2 <= fixedBuffer.Length
      && Held()
    }

    /** Once the growable buffer is in use it holds the line from its start. */
    ghost predicate Held()
      reads this, fixedBuffer
    {
      && usedSize < fixedBuffer.Length
      && (usedSize > 0 ==> fixedBuffer[usedSize] == '\0')
      && (growable != "" ==> usedSize == fixedBuffer.Length - 1)
    }

    /** The bytes between `ptr()` and `ptr() + size()`. */
    function Text(): string
      requires usedSize < fixedBuffer.Length
      reads this, fixedBuffer
    {
      if growable == "" then fixedBuffer[..usedSize] else growable
    }

    constructor (strm: SocketStream, fixedBuffer: array<char>)
      requires strm.Valid() && fixedBuffer != strm.buff && fixedBuffer.Length >= 2
      ensures Valid() && this.strm == strm && this.fixedBuffer == fixedBuffer
    {
      this.strm, this.fixedBuffer := strm, fixedBuffer;
      usedSize, growable := 0, "";
    }

    method Append(c: char)
      requires 2 <= fixedBuffer.Length && Held()
      modifies this, fixedBuffer
      ensures Held() && Text() == old(Text()) + [c]
    {
      if usedSize < fixedBuffer.Length - 1 {
        fixedBuffer[usedSize] := c;
        usedSize := usedSize + 1;
        fixedBuffer[usedSize] := '\0';
      } else {
        if growable == "" {
          assert fixedBuffer[usedSize] == '\0';
          growable := fixedBuffer[..usedSize];
        }
        growable := growable + [c];
      }
    }

    /** Moves one byte from the stream to the line. */
    method ReadByte() returns (n: int, byte: char)
      requires Valid()
      modifies this, fixedBuffer, strm, strm.buff
      ensures Valid()
      ensures strm.failures == old(strm.failures) + if n < 0 then 1 else 0
      ensures n == 0 ==> old(strm.Remaining()) == "" == strm.Remaining() && Text() == old(Text())
      ensures n > 0 ==> old(strm.Remaining()) == [byte] + strm.Remaining() && Text() == old(Text()) + [byte]
    {
      byte := '\0';
      var data;
      n, data := strm.Read(1);
      if n > 0 {
        byte := data[0];
        assert data == [byte];
        Append(byte);
      }
    }

    /** Reads the next line; false at the end of the stream or on an error. */
    method GetLine() returns (ok: bool)
      requires Valid()
      modifies this, fixedBuffer, strm, strm.buff
      ensures Valid()
      ensures strm.failures >= old(strm.failures)
      ensures ok ==> strm.failures == old(strm.failures) && Taken(old(strm.Remaining()), Text(), strm.Remaining())
      ensures !ok && strm.failures == old(strm.failures) ==> old(strm.Remaining()) == "" == strm.Remaining()
    {
      usedSize, growable := 0, "";
      ghost var all := strm.Remaining();
      var i := 0;
      while true
        invariant Valid() && |Text()| == i
        invariant Partial(all, Text(), strm.Remaining())
        invariant strm.failures == old(strm.failures)
        decreases |strm.Remaining()|
      {
        ghost var got := Text();
        var n, byte := ReadByte();
        if n < 0 {
          return false;
        } else if n == 0 {
          StreamEnded(all, got);
          return i != 0;
        }
        ByteTaken(all, got, byte, strm.Remaining());
        if byte == '\n' {
          return true;
        }
        i := i + 1;
      }
    }
  }

  /** The sending side of a socket; `failures` counts reports that it cannot be written. */
  class OutputStream {
    var output: string
    ghost var failures: nat

    method IsWritable() returns (b: bool)
      modifies this`failures
      ensures failures == old(failures) + if b then 0 else 1
    {
      b := *;
      if !b {
        failures := failures + 1;
      }
    }

    /** Accepts any prefix of `d`, which is empty only if `d` is, or fails. */
    method Send(d: string) returns (n: int)
      modifies this
      ensures if n < 0 then failures == old(failures) + 1 && output == old(output)
              else
                && failures == old(failures) && n <= |d| && (n == 0 ==> d == "")
                && output == old(output) + d[..n]
    {
      var writable := IsWritable();
      if !writable {
        return -1;
      }
      var k: nat :| k <= |d| && (k == 0 ==> d == "");
      output := output + d[..k];
      return k;
    }

    /** Sends `d` in as many turns as it takes; a failure leaves a part of it sent. */
    method WriteData(d: string) returns (ok: bool)
      modifies this
      ensures if ok then failures == old(failures) && output == old(output) + d
              else failures > old(failures) && old(output) <= output <= old(output) + d
    {
      var offset := 0;
      while offset < |d|
        invariant offset <= |d| && failures == old(failures)
        invariant output == old(output) + d[..offset]
      {
        var n := Send(d[offset..]);
        if n < 0 {
          return false;
        }
        assert d[..offset] + d[offset..][..n] == d[..offset + n];
        offset := offset + n;
      }
      return true;
    }
  }
}

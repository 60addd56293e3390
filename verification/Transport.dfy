// Reading and writing a byte stream in whatever portions the system chooses.
module Transport {
  import opened Codec

  /** One end of a stream: the bytes that arrive before the peer closes it, and those written to it. */
  class Socket {
    var incoming: seq<byte>
    var outgoing: seq<byte>

    constructor (incoming: seq<byte>)
      ensures this.incoming == incoming && outgoing == []
    {
      this.incoming, outgoing := incoming, [];
    }

    /** `read`: at least one byte and at most `n`, unless none was asked for or none is left. */
    method Read(buf: array<byte>, at: nat, n: nat) returns (k: nat)
      requires at + n <= buf.Length
      modifies `incoming, buf
      ensures k <= n && k <= |old(incoming)| && (k == 0 <==> n == 0 || old(incoming) == [])
      ensures incoming == old(incoming)[k..]
      ensures buf[..] == old(buf[..])[..at] + old(incoming)[..k] + old(buf[..])[at + k..]
    {
      k := 0;
      if n > 0 && incoming != [] {
        var portion: nat :| 1 <= portion <= n && portion <= |incoming| by {
          assert 1 <= 1 <= n && 1 <= |incoming|;
        }
        k := portion;
      }
      var bytes := incoming[..k];
      forall i | 0 <= i < k {
        buf[at + i] := bytes[i];
      }
      incoming := incoming[k..];
    }

    /** `write`: at least one byte, unless none was given. */
    method Write(buf: array<byte>, at: nat, n: nat) returns (k: nat)
      requires at + n <= buf.Length
      modifies `outgoing
      ensures k <= n && (k == 0 <==> n == 0)
      ensures outgoing == old(outgoing) + buf[at..at + k]
    {
      k := 0;
      if n > 0 {
        var portion: nat :| 1 <= portion <= n by {
          assert 1 <= 1 <= n;
        }
        k := portion;
      }
      outgoing := outgoing + buf[at..at + k];
    }
  }

  function Min(a: nat, b: nat): nat {
    if a <= b then a else b
  }

  /** A buffer that begins with bytes of the stream, after one more portion. */
  lemma Filled(bytes: seq<byte>, before: seq<byte>, filled: seq<byte>, after: seq<byte>, done: nat, k: nat)
    requires done + k <= |bytes| && done + k <= |before|
    requires filled == bytes[..done] + before[done..]
    requires after == filled[..done] + bytes[done..][..k] + filled[done + k..]
    ensures after == bytes[..done + k] + before[done + k..]
    ensures bytes[done..][k..] == bytes[done + k..]
  {
  }

  /** Reads on until the buffer has `count` bytes or the stream ends: however the bytes arrive,
      these are just the next ones. */
  method ReadFully(s: Socket, buf: array<byte>, count: nat) returns (readCount: nat)
    requires count <= buf.Length
    modifies s`incoming, buf
    ensures readCount == Min(count, |old(s.incoming)|)
    ensures buf[..] == old(s.incoming)[..readCount] + old(buf[..])[readCount..]
    ensures s.incoming == old(s.incoming)[readCount..]
  {
    ghost var bytes, before := s.incoming, buf[..];
    readCount := 0;
    while true
      invariant readCount <= count && readCount <= |bytes|
      invariant buf[..] == bytes[..readCount] + before[readCount..]
      invariant s.incoming == bytes[readCount..]
      decreases count - readCount
    {
      ghost var filled := buf[..];
      var k := s.Read(buf, readCount, count - readCount);
      Filled(bytes, before, filled, buf[..], readCount, k);
      readCount := readCount + k;
      if k == 0 || readCount == count {
        return;
      }
    }
  }

  /** Writes on until all bytes are written. */
  method WriteFully(s: Socket, buf: array<byte>, count: nat) returns (writeCount: nat)
    requires count <= buf.Length
    modifies s`outgoing
    ensures writeCount == count && s.outgoing == old(s.outgoing) + buf[..count]
  {
    ghost var before := s.outgoing;
    writeCount := 0;
    while true
      invariant writeCount <= count && s.outgoing == before + buf[..writeCount]
      decreases count - writeCount
    {
      var k := s.Write(buf, writeCount, count - writeCount);
      assert buf[..writeCount + k] == buf[..writeCount] + buf[writeCount..writeCount + k];
      writeCount := writeCount + k;
      if k == 0 || writeCount == count {
        return;
      }
    }
  }

  /** True exactly if the stream still held `count` bytes. */
  method ReadExactly(s: Socket, buf: array<byte>, count: nat) returns (ok: bool)
    requires count <= buf.Length
    modifies s`incoming, buf
    ensures ok <==> count <= |old(s.incoming)|
    ensures ok ==> buf[..count] == old(s.incoming)[..count] && s.incoming == old(s.incoming)[count..]
    ensures !ok ==> s.incoming == [] && buf[..|old(s.incoming)|] == old(s.incoming)
  {
    var readCount := ReadFully(s, buf, count);
    ok := readCount == count;
  }

  method WriteExactly(s: Socket, buf: array<byte>, count: nat) returns (ok: bool)
    requires count <= buf.Length
    modifies s`outgoing
    ensures ok && s.outgoing == old(s.outgoing) + buf[..count]
  {
    var writeCount := WriteFully(s, buf, count);
    ok := writeCount == count;
  }

  /** What one end writes, in any portions, the other end reads, in any portions, with more to follow. */
  method Transfer(from: Socket, src: array<byte>, dst: array<byte>, count: nat, rest: seq<byte>)
    returns (ok: bool, to: Socket)
    requires count <= src.Length && count <= dst.Length && src != dst && from.outgoing == []
    modifies from`outgoing, dst
    ensures ok && dst[..count] == src[..count] && to.incoming == rest
  {
    var sent := WriteExactly(from, src, count);
    to := new Socket(from.outgoing + rest);
    ok := ReadExactly(to, dst, count);
  }

  // ----- the size field -----

  method WriteFileSize(s: Socket, size: nat) returns (ok: bool)
    modifies s`outgoing
    ensures ok && s.outgoing == old(s.outgoing) + FileSizeField(size)
    ensures var field: seq<int> := s.outgoing[|old(s.outgoing)|..];
            |field| == 4 && field[0] * 0x100_0000 + field[1] * 0x1_0000 + field[2] * 0x100 + field[3]
                            == size % 0x1_0000_0000
  {
    FieldBytes(size);
    var field := FileSizeField(size);
    var buf := new byte[4](i requires 0 <= i < 4 => field[i]);
    assert buf[..4] == field;
    ok := WriteExactly(s, buf, 4);
  }

  method ReadFileSize(s: Socket) returns (ok: bool, size: nat)
    modifies s`incoming
    ensures ok <==> 4 <= |old(s.incoming)|
    ensures ok ==> size == BytesToWord(old(s.incoming)[..4]) && s.incoming == old(s.incoming)[4..]
    ensures ok ==> var field: seq<int> := old(s.incoming);
                   size == field[0] * 0x100_0000 + field[1] * 0x1_0000 + field[2] * 0x100 + field[3]
  {
    var buf := new byte[4](_ => 0);
    ok := ReadExactly(s, buf, 4);
    size := BytesToWord(buf[..4]);
  }
}

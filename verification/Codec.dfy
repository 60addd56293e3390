// Bytes, 32-bit words, image digests and the datagrams that carry them.
module Codec {
  type byte = b: int | 0 <= b < 256
  type word = w: int | 0 <= w < 0x1_0000_0000

  const IP_MSS := 576 - 20

  // Hashes that fit in one update datagram, and in one offer.
  const UPDATE_HASHES := (IP_MSS - 16) / 20
  const OFFER_HASHES := (IP_MSS - 20) / 20

  // The receiver's buffer.
  const UPDATE_BUFFER := 20 * UPDATE_HASHES

  datatype Option<+T> = None | Some(value: T)

  /** The five words of a SHA-1 digest, which has 20 bytes. */
  datatype ExifHash = ExifHash(word0: word, word1: word, word2: word, word3: word, word4: word)

  // ----- words in network byte order -----

  function WordToBytes(w: word): (s: seq<byte>)
    ensures |s| == 4
  {
    [w / 0x100_0000, w / 0x1_0000 % 256, w / 0x100 % 256, w % 256]
  }

  function BytesToWord(s: seq<byte>): word
    requires |s| == 4
  {
    var b0: int, b1: int, b2: int, b3: int := s[0], s[1], s[2], s[3];
    b0 * 0x100_0000 + b1 * 0x1_0000 + b2 * 0x100 + b3
  }

  lemma WordRoundTrip(w: word)
    ensures BytesToWord(WordToBytes(w)) == w
  {
    assert w / 0x100 == w / 0x1_0000 * 0x100 + w / 0x100 % 256;
    assert w / 0x1_0000 == w / 0x100_0000 * 0x100 + w / 0x1_0000 % 256;
  }

  lemma BytesRoundTrip(s: seq<byte>)
    requires |s| == 4
    ensures WordToBytes(BytesToWord(s)) == s
  {
    var b0: int, b1: int, b2: int, w: int := s[0], s[1], s[2], BytesToWord(s);
    assert w / 0x100 == b0 * 0x1_0000 + b1 * 0x100 + b2;
    assert w / 0x1_0000 == b0 * 0x100 + b1;
    assert w / 0x100_0000 == b0;
  }

  // ----- the file size field -----

  function FileSizeField(size: nat): (s: seq<byte>)
    ensures |s| == 4
  {
    WordToBytes(size % 0x1_0000_0000)
  }

  /** The field has the most significant byte of the size first. */
  lemma FieldBytes(size: nat)
    ensures var s: seq<int> := FileSizeField(size);
            s[0] * 0x100_0000 + s[1] * 0x1_0000 + s[2] * 0x100 + s[3] == size % 0x1_0000_0000
  {
    WordRoundTrip(size % 0x1_0000_0000);
  }

  /** The size survives the 32-bit field exactly when it fits. */
  lemma FileSizeRoundTrip(size: nat)
    ensures BytesToWord(FileSizeField(size)) == size <==> size < 0x1_0000_0000
  {
    WordRoundTrip(size % 0x1_0000_0000);
  }

  // ----- digests -----

  function WordsToBytes(ws: seq<word>): (s: seq<byte>)
    ensures |s| == 4 * |ws|
  {
    if ws == [] then [] else WordToBytes(ws[0]) + WordsToBytes(ws[1..])
  }

  function BytesToWords(s: seq<byte>, n: nat): (ws: seq<word>)
    requires |s| == 4 * n
    ensures |ws| == n
  {
    if n == 0 then [] else [BytesToWord(s[..4])] + BytesToWords(s[4..], n - 1)
  }

  lemma {:induction false} WordsRoundTrip(ws: seq<word>)
    ensures BytesToWords(WordsToBytes(ws), |ws|) == ws
  {
    if ws != [] {
      var s := WordsToBytes(ws);
      assert s[..4] == WordToBytes(ws[0]) && s[4..] == WordsToBytes(ws[1..]);
      WordRoundTrip(ws[0]);
      WordsRoundTrip(ws[1..]);
    }
  }

  lemma {:induction false} WordBytesRoundTrip(s: seq<byte>, n: nat)
    requires |s| == 4 * n
    ensures WordsToBytes(BytesToWords(s, n)) == s
  {
    if n > 0 {
      BytesRoundTrip(s[..4]);
      WordBytesRoundTrip(s[4..], n - 1);
    }
  }

  function ToDigest(h: ExifHash): (s: seq<byte>)
    ensures |s| == 20
  {
    WordsToBytes([h.word0, h.word1, h.word2, h.word3, h.word4])
  }

  function FromDigest(s: seq<byte>): ExifHash
    requires |s| == 20
  {
    var ws := BytesToWords(s, |s| / 4);
    ExifHash(ws[0], ws[1], ws[2], ws[3], ws[4])
  }

  lemma DigestRoundTrip(h: ExifHash)
    ensures FromDigest(ToDigest(h)) == h
  {
    WordsRoundTrip([h.word0, h.word1, h.word2, h.word3, h.word4]);
  }

  /** Every 20-byte string is the digest of the hash it is read as. */
  lemma HashRoundTrip(s: seq<byte>)
    requires |s| == 20
    ensures ToDigest(FromDigest(s)) == s
  {
    var ws := BytesToWords(s, 5);
    assert ws == [ws[0], ws[1], ws[2], ws[3], ws[4]];
    WordBytesRoundTrip(s, 5);
  }

  /** Each word is in four bytes of the digest, the first of them the most significant one. */
  lemma DigestBytes(h: ExifHash, i: nat)
    requires i < 5
    ensures var s: seq<int> := ToDigest(h);
            s[4 * i] * 0x100_0000 + s[4 * i + 1] * 0x1_0000 + s[4 * i + 2] * 0x100 + s[4 * i + 3]
            == [h.word0, h.word1, h.word2, h.word3, h.word4][i]
  {
    var ws := [h.word0, h.word1, h.word2, h.word3, h.word4];
    WordsBytes(ws, i);
    WordRoundTrip(ws[i]);
  }

  lemma {:induction false} WordsBytes(ws: seq<word>, i: nat)
    requires i < |ws|
    ensures WordsToBytes(ws)[4 * i..4 * i + 4] == WordToBytes(ws[i])
  {
    if i == 0 {
      assert WordsToBytes(ws)[0..4] == WordToBytes(ws[0]);
    } else {
      WordsBytes(ws[1..], i - 1);
      assert WordsToBytes(ws)[4 * i..4 * i + 4] == WordsToBytes(ws[1..])[4 * (i - 1)..4 * (i - 1) + 4];
    }
  }

  /** Different hashes have different digests. */
  lemma DigestsApart(h: ExifHash, other: ExifHash)
    ensures ToDigest(h) == ToDigest(other) <==> h == other
  {
    DigestRoundTrip(h);
    DigestRoundTrip(other);
  }

  // ----- update datagrams: written and read from the back -----

  function UpdatePacket(hs: seq<ExifHash>): (s: seq<byte>)
    ensures |s| == 20 * |hs|
  {
    if hs == [] then [] else UpdatePacket(hs[1..]) + ToDigest(hs[0])
  }

  /** The first hash of a batch is the last one of its datagram. */
  lemma {:induction false} PacketBytes(hs: seq<ExifHash>, i: nat)
    requires i < |hs|
    ensures var at := 20 * (|hs| - 1 - i);
            UpdatePacket(hs)[at..at + 20] == ToDigest(hs[i])
  {
    var at := 20 * (|hs| - 1 - i);
    if i == 0 {
      assert UpdatePacket(hs)[at..at + 20] == ToDigest(hs[0]);
    } else {
      PacketBytes(hs[1..], i - 1);
      assert UpdatePacket(hs)[at..at + 20] == UpdatePacket(hs[1..])[at..at + 20];
    }
  }

  /** The `n` hashes of a datagram. */
  function PacketHashes(s: seq<byte>, n: nat): (hs: seq<ExifHash>)
    requires |s| == 20 * n
    ensures |hs| == n
  {
    if n == 0 then []
    else
      var at := 20 * (n - 1);
      [FromDigest(s[at..at + 20])] + PacketHashes(s[..at], n - 1)
  }

  /** A datagram is read back as the hashes it was filled with, in their order. */
  lemma {:induction false} PacketRoundTrip(hs: seq<ExifHash>)
    ensures PacketHashes(UpdatePacket(hs), |hs|) == hs
  {
    if hs != [] {
      var s := UpdatePacket(hs);
      var at := 20 * (|hs| - 1);
      assert s[at..at + 20] == ToDigest(hs[0]) && s[..at] == UpdatePacket(hs[1..]);
      DigestRoundTrip(hs[0]);
      PacketRoundTrip(hs[1..]);
    }
  }

  function Elements(hs: seq<ExifHash>): set<ExifHash> {
    if hs == [] then {} else Elements(hs[..|hs| - 1]) + {hs[|hs| - 1]}
  }

  lemma {:induction false} InElements(hs: seq<ExifHash>, h: ExifHash)
    ensures h in Elements(hs) <==> h in hs
  {
    if hs != [] {
      assert hs == hs[..|hs| - 1] + [hs[|hs| - 1]];
      InElements(hs[..|hs| - 1], h);
    }
  }

  /** What the receiver learns from a datagram. */
  function PacketSet(s: seq<byte>): set<ExifHash>
    requires |s| % 20 == 0
  {
    Elements(PacketHashes(s, |s| / 20))
  }

  /** The receiver learns just the hashes that the datagram was filled with. */
  lemma PacketSetRoundTrip(hs: seq<ExifHash>, h: ExifHash)
    ensures h in PacketSet(UpdatePacket(hs)) <==> h in hs
  {
    var s := UpdatePacket(hs);
    assert |s| / 20 == |hs|;
    assert PacketSet(s) == Elements(PacketHashes(s, |hs|));
    PacketRoundTrip(hs);
    InElements(hs, h);
  }

  lemma {:induction false} PacketAt(s: seq<byte>, n: nat, i: nat)
    requires |s| == 20 * n && i < n
    ensures PacketHashes(s, n)[i] == FromDigest(s[20 * (n - 1 - i)..20 * (n - i)])
  {
    if i > 0 {
      var at := 20 * (n - 1);
      PacketAt(s[..at], n - 1, i - 1);
      var lo, hi := 20 * (n - 1 - i), 20 * (n - i);
      assert s[..at][lo..hi] == s[lo..hi];
    }
  }

  /** A hash is learnt exactly if it is one of the 20-byte blocks. */
  lemma InPacketSet(s: seq<byte>, h: ExifHash)
    requires |s| % 20 == 0
    ensures h in PacketSet(s) <==> exists i :: 0 <= i < |s| / 20 && Block(s, i) == h
  {
    var n := |s| / 20;
    var hs := PacketHashes(s, n);
    InElements(hs, h);
    forall i | 0 <= i < n
      ensures Block(s, i) == hs[n - 1 - i]
    {
      PacketAt(s, n, n - 1 - i);
    }
    if j :| 0 <= j < n && hs[j] == h {
      assert Block(s, n - 1 - j) == hs[n - 1 - (n - 1 - j)];
    }
  }

  function Block(s: seq<byte>, i: nat): ExifHash
    requires 20 * i + 20 <= |s|
  {
    FromDigest(s[20 * i..20 * i + 20])
  }

  lemma PacketSetPrefix(s: seq<byte>, n: nat)
    requires |s| % 20 == 0 && n % 20 == 0 && n <= |s|
    ensures PacketSet(s[..n]) <= PacketSet(s)
  {
    forall h | h in PacketSet(s[..n])
      ensures h in PacketSet(s)
    {
      InPacketSet(s[..n], h);
      InPacketSet(s, h);
      var i :| 0 <= i < n / 20 && Block(s[..n], i) == h;
      assert s[..n][20 * i..20 * i + 20] == s[20 * i..20 * i + 20];
      assert Block(s, i) == h;
    }
  }

  lemma BlockAppend(a: seq<byte>, b: seq<byte>, m: nat, i: nat)
    requires |a| == 20 * m && 20 * i + 20 <= |a + b|
    ensures i < m ==> Block(a + b, i) == Block(a, i)
    ensures i >= m ==> Block(a + b, i) == Block(b, i - m)
  {
    var lo, hi := 20 * i, 20 * i + 20;
    if i < m {
      SliceFront(a, b, lo, hi);
    } else {
      assert 20 * (i - m) == lo - |a|;
      SliceBack(a, b, lo, hi);
    }
  }

  lemma SliceFront(a: seq<byte>, b: seq<byte>, lo: nat, hi: nat)
    requires lo <= hi <= |a|
    ensures (a + b)[lo..hi] == a[lo..hi]
  {
  }

  lemma SliceBack(a: seq<byte>, b: seq<byte>, lo: nat, hi: nat)
    requires |a| <= lo <= hi <= |a| + |b|
    ensures (a + b)[lo..hi] == b[lo - |a|..hi - |a|]
  {
  }

  lemma PacketSetAppend(a: seq<byte>, b: seq<byte>)
    requires |a| % 20 == 0 && |b| % 20 == 0
    ensures PacketSet(a + b) <= PacketSet(a) + PacketSet(b)
  {
    hide PacketSet, Block;
    var m, n := |a| / 20, |b| / 20;
    assert |a| == 20 * m && |b| == 20 * n && |a + b| / 20 == m + n;
    forall h | h in PacketSet(a + b)
      ensures h in PacketSet(a) + PacketSet(b)
    {
      InPacketSet(a, h);
      InPacketSet(b, h);
      InPacketSet(a + b, h);
      var i :| 0 <= i < m + n && Block(a + b, i) == h;
      BlockAppend(a, b, m, i);
    }
  }

  /** What a receiver's buffer with room for `room` bytes holds after the given datagrams: each read takes one,
      and cuts it to the room that is left. The program takes one datagram at a time; more than one is more than it
      does. */
  function Buffered(packets: seq<seq<byte>>, room: nat): (s: seq<byte>)
    ensures |s| <= room
  {
    if packets == [] then []
    else
      var n := if |packets[0]| <= room then |packets[0]| else room;
      packets[0][..n] + Buffered(packets[1..], room - n)
  }

  /** A number of whole hashes, all of them in the set. */
  ghost predicate Reports(s: seq<byte>, hashes: set<ExifHash>) {
    |s| % 20 == 0 && PacketSet(s) <= hashes
  }

  lemma ReportsPrefix(s: seq<byte>, n: nat, hashes: set<ExifHash>)
    requires Reports(s, hashes) && n % 20 == 0 && n <= |s|
    ensures Reports(s[..n], hashes)
  {
    PacketSetPrefix(s, n);
  }

  lemma ReportsAppend(a: seq<byte>, b: seq<byte>, hashes: set<ExifHash>)
    requires Reports(a, hashes) && Reports(b, hashes)
    ensures Reports(a + b, hashes)
  {
    PacketSetAppend(a, b);
  }

  /** Datagrams that share a buffer, or are cut, never add a hash that was in none of them. */
  lemma {:induction false} BufferedHashes(packets: seq<seq<byte>>, room: nat, hashes: set<ExifHash>)
    requires room % 20 == 0
    requires forall p :: p in packets ==> Reports(p, hashes)
    ensures Reports(Buffered(packets, room), hashes)
  {
    hide PacketSet;
    if packets == [] {
      NoReport(hashes);
    } else {
      var first := packets[0];
      assert Reports(first, hashes);
      var n := if |first| <= room then |first| else room;
      ReportsPrefix(first, n, hashes);
      BufferedHashes(packets[1..], room - n, hashes);
      ReportsAppend(first[..n], Buffered(packets[1..], room - n), hashes);
    }
  }

  lemma NoReport(hashes: set<ExifHash>)
    ensures Reports([], hashes)
  {
  }

  lemma {:induction false} UpdatePacketSnoc(hs: seq<ExifHash>, h: ExifHash)
    ensures UpdatePacket(hs + [h]) == ToDigest(h) + UpdatePacket(hs)
  {
    if hs == [] {
      assert hs + [h] == [h];
    } else {
      assert (hs + [h])[1..] == hs[1..] + [h];
      UpdatePacketSnoc(hs[1..], h);
    }
  }

  /** One more digest in front of those that are stored. */
  lemma DigestInFront(before: seq<byte>, after: seq<byte>, digest: seq<byte>, at: nat, size: nat)
    requires |digest| == 20 && at + 20 <= size <= |before|
    requires after == before[..at] + digest + before[at + 20..]
    ensures |after| == |before| && after[at..size] == digest + before[at + 20..size] && after[size..] == before[size..]
  {
  }

  /** Fills a datagram from its end, one entry after the other. */
  method FillPacket(hs: seq<ExifHash>, buf: array<byte>)
    requires 1 <= |hs| && 20 * |hs| <= buf.Length
    modifies buf
    ensures buf[..20 * |hs|] == UpdatePacket(hs)
    ensures buf[20 * |hs|..] == old(buf[20 * |hs|..])
  {
    var size := 20 * |hs|;
    var bytes, i := size, 0;
    while bytes != 0
      invariant 0 <= i <= |hs| && bytes == size - 20 * i
      invariant buf[..][bytes..size] == UpdatePacket(hs[..i])
      invariant buf[..][size..] == old(buf[size..])
      decreases bytes
    {
      assert hs[..i + 1] == hs[..i] + [hs[i]];
      UpdatePacketSnoc(hs[..i], hs[i]);
      ghost var before := buf[..];
      bytes := bytes - 20;
      StoreDigest(hs[i], buf, bytes);
      DigestInFront(before, buf[..], ToDigest(hs[i]), bytes, size);
      i := i + 1;
    }
    assert hs[..i] == hs && buf[..][0..size] == buf[..size];
  }

  method StoreDigest(h: ExifHash, buf: array<byte>, at: nat)
    requires at + 20 <= buf.Length
    modifies buf
    ensures buf[..] == old(buf[..])[..at] + ToDigest(h) + old(buf[..])[at + 20..]
  {
    var s := ToDigest(h);
    forall k | 0 <= k < 20 {
      buf[at + k] := s[k];
    }
  }

  /** Inserts the hashes of a datagram, last one first, into the set of reported hashes. */
  method InsertPacket(buf: seq<byte>, received: set<ExifHash>) returns (grown: set<ExifHash>)
    requires |buf| % 20 == 0 && buf != []
    ensures grown == received + PacketSet(buf)
  {
    grown := received;
    ghost var n := |buf| / 20;
    ghost var hs := PacketHashes(buf, n);
    ghost var i := 0;
    var bytes := |buf|;
    while bytes != 0
      invariant 0 <= i <= n && bytes == 20 * (n - i)
      invariant grown == received + Elements(hs[..i])
      decreases bytes
    {
      bytes := bytes - 20;
      PacketAt(buf, n, i);
      assert hs[..i + 1][..i] == hs[..i];
      grown := grown + {FromDigest(buf[bytes..bytes + 20])};
      i := i + 1;
    }
    assert hs[..n] == hs;
  }
}

// The bytes of an upload stream: offers, and the records of the images that the peer is missing.
module Framing {
  import opened Codec

  /** An image on the wire: its file name and its contents. */
  datatype Record = Record(name: seq<byte>, body: seq<byte>)

  predicate Sendable(r: Record) {
    |r.name| <= 255 && 0 < |r.body| < 0x1_0000_0000
  }

  // ----- what the uploader writes -----

  function RecordBytes(r: Record): (s: seq<byte>)
    ensures |s| == 5 + |r.name| % 256 + |r.body|
  {
    var n := |r.name| % 256;
    [n] + r.name[..n] + FileSizeField(|r.body|) + r.body
  }

  function Digests(hs: seq<ExifHash>): (s: seq<byte>)
    ensures |s| == 20 * |hs|
  {
    if hs == [] then [] else ToDigest(hs[0]) + Digests(hs[1..])
  }

  function OfferBytes(hs: seq<ExifHash>): (s: seq<byte>)
    ensures |s| == 1 + 20 * |hs|
  {
    [|hs| % 256] + Digests(hs)
  }

  /** A record is the length of the name, the name, four bytes with the length of the contents, most significant
      byte first, and the contents. */
  lemma RecordLayout(r: Record)
    requires Sendable(r)
    ensures var s: seq<int>, n := RecordBytes(r), |r.name|;
            && |s| == 5 + n + |r.body| && s[0] == n && s[1..1 + n] == r.name && s[5 + n..] == r.body
            && s[1 + n] * 0x100_0000 + s[2 + n] * 0x1_0000 + s[3 + n] * 0x100 + s[4 + n] == |r.body|
  {
    var field, n := FileSizeField(|r.body|), |r.name|;
    FieldBytes(|r.body|);
    hide FileSizeField;
    FourParts([n], r.name, field, r.body);
    assert r.name[..n] == r.name;
  }

  lemma FourParts(a: seq<byte>, b: seq<byte>, c: seq<byte>, d: seq<byte>)
    requires |c| == 4
    ensures var s, n := a + b + c + d, |a| + |b|;
            && s[..|a|] == a && s[|a|..n] == b && s[n + 4..] == d
            && s[n] == c[0] && s[n + 1] == c[1] && s[n + 2] == c[2] && s[n + 3] == c[3]
  {
  }

  lemma {:induction false} DigestAt(hs: seq<ExifHash>, i: nat)
    requires i < |hs|
    ensures Digests(hs)[20 * i..20 * i + 20] == ToDigest(hs[i])
  {
    if i == 0 {
      assert Digests(hs)[0..20] == ToDigest(hs[0]);
    } else {
      DigestAt(hs[1..], i - 1);
      assert Digests(hs)[20 * i..20 * i + 20] == Digests(hs[1..])[20 * (i - 1)..20 * (i - 1) + 20];
    }
  }

  /** An offer is the number of hashes, and their digests in order. */
  lemma OfferLayout(hs: seq<ExifHash>)
    requires |hs| <= OFFER_HASHES
    ensures |OfferBytes(hs)| == 1 + 20 * |hs| && OfferBytes(hs)[0] == |hs|
    ensures forall i :: 0 <= i < |hs| ==> OfferBytes(hs)[1 + 20 * i..21 + 20 * i] == ToDigest(hs[i])
  {
    forall i | 0 <= i < |hs|
      ensures OfferBytes(hs)[1 + 20 * i..21 + 20 * i] == ToDigest(hs[i])
    {
      DigestAt(hs, i);
      assert OfferBytes(hs)[1 + 20 * i..21 + 20 * i] == Digests(hs)[20 * i..20 * i + 20];
    }
  }

  // ----- what the downloader reads -----

  /** How many more bytes the downloader asks for before the record it is reading goes on to the next field. */
  function RecordNeed(p: seq<byte>): nat {
    if p == [] then 1
    else
      var n: nat := p[0];
      if |p| < 1 + n then 1 + n - |p|
      else if |p| < 5 + n then 5 + n - |p|
      else
        var size := BytesToWord(p[1 + n..5 + n]);
        if |p| < 5 + n + size then 5 + n + size - |p| else 0
  }

  function ParseRecord(p: seq<byte>): Record
    requires RecordNeed(p) == 0
  {
    var n: nat := p[0];
    Record(p[1..1 + n], p[5 + n..])
  }

  function OfferNeed(p: seq<byte>): nat {
    if p == [] then 1
    else
      var size := 20 * p[0] as nat;
      if |p| < 1 + size then 1 + size - |p| else 0
  }

  function ReadDigests(s: seq<byte>): (hs: seq<ExifHash>)
    requires |s| % 20 == 0
    ensures |hs| == |s| / 20
  {
    if s == [] then [] else [FromDigest(s[..20])] + ReadDigests(s[20..])
  }

  function OfferHashes(p: seq<byte>): (hs: seq<ExifHash>)
    requires p != [] && OfferNeed(p) == 0
    ensures |hs| == p[0]
  {
    ReadDigests(p[1..1 + 20 * p[0] as nat])
  }

  // ----- reading takes each message apart where it was put together -----

  /** Reading a record never asks for bytes behind its end, and stops only there. */
  lemma RecordDelimited(r: Record, p: seq<byte>)
    requires Sendable(r) && p <= RecordBytes(r)
    ensures RecordNeed(p) <= |RecordBytes(r)| - |p|
    ensures RecordNeed(p) == 0 <==> p == RecordBytes(r)
  {
    var s := RecordBytes(r);
    var n := |r.name|;
    assert s[1 + n..5 + n] == FileSizeField(|r.body|);
    FileSizeRoundTrip(|r.body|);
    if |p| >= 5 + n {
      assert p[1 + n..5 + n] == s[1 + n..5 + n];
    }
  }

  lemma RecordRoundTrip(r: Record)
    requires Sendable(r)
    ensures RecordNeed(RecordBytes(r)) == 0 && ParseRecord(RecordBytes(r)) == r
  {
    RecordDelimited(r, RecordBytes(r));
    var s := RecordBytes(r);
    assert s[1..1 + |r.name|] == r.name;
    assert s[5 + |r.name|..] == r.body;
  }

  lemma {:induction false} DigestsRoundTrip(hs: seq<ExifHash>)
    ensures ReadDigests(Digests(hs)) == hs
  {
    if hs != [] {
      var s := Digests(hs);
      assert s[..20] == ToDigest(hs[0]) && s[20..] == Digests(hs[1..]);
      DigestRoundTrip(hs[0]);
      DigestsRoundTrip(hs[1..]);
    }
  }

  lemma OfferDelimited(hs: seq<ExifHash>, p: seq<byte>)
    requires |hs| <= OFFER_HASHES && p <= OfferBytes(hs)
    ensures OfferNeed(p) <= |OfferBytes(hs)| - |p|
    ensures OfferNeed(p) == 0 <==> p == OfferBytes(hs)
    ensures p != [] ==> p[0] == |hs|
  {
  }

  lemma OfferRoundTrip(hs: seq<ExifHash>)
    requires |hs| <= OFFER_HASHES
    ensures OfferNeed(OfferBytes(hs)) == 0 && OfferHashes(OfferBytes(hs)) == hs
  {
    var s := OfferBytes(hs);
    assert s[1..1 + 20 * s[0] as nat] == Digests(hs);
    DigestsRoundTrip(hs);
  }
}

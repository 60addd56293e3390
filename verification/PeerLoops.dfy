// The loops in which the threads of a peer go over a datagram, an offer, an answer or the list of images.
module PeerLoops {
  import opened Codec
  import opened Entries
  import opened FoundMask
  import opened SyncModel

  lemma {:induction false} MissingCount(hs: seq<ExifHash>, have: set<ExifHash>, i: nat)
    requires i <= |hs|
    ensures |MissingHashes(hs[..i], have)| == MissingBefore(Flags(hs, have), i)
  {
    if i > 0 {
      MissingCount(hs, have, i - 1);
      MissingSnoc(hs, i - 1, have);
    }
  }

  /** Whether a bit of the written answer is set, the bits counted from the least significant one. */
  lemma AnswerBit(hs: seq<ExifHash>, have: set<ExifHash>, at: nat, k: nat)
    requires at < MaskSize(|hs|) && k < 8
    ensures Encode(Written, Flags(hs, have))[at] / [1, 2, 4, 8, 16, 32, 64, 128][k] % 2 == 1
       <==> at == 0 && exists i :: 0 <= i < |hs| && hs[i] in have && |MissingHashes(hs[..i], have)| == k
  {
    var found := Flags(hs, have);
    ShiftValues(Encode(Written, found)[at], k);
    MaskBits(Written, found, |hs|, at, k);
    forall i: nat | i < |hs|
      ensures Marks(Written, found, i, at, k) <==> at == 0 && hs[i] in have && |MissingHashes(hs[..i], have)| == k
    {
      MissingCount(hs, have, i);
    }
  }

  lemma AnswerBits(hs: seq<ExifHash>, have: set<ExifHash>, mask: seq<byte>)
    requires mask == Encode(Written, Flags(hs, have))
    ensures forall at, k :: 0 <= at < |mask| && 0 <= k < 8 ==>
              (mask[at] / [1, 2, 4, 8, 16, 32, 64, 128][k] % 2 == 1
               <==> at == 0 && exists i :: 0 <= i < |hs| && hs[i] in have && |MissingHashes(hs[..i], have)| == k)
  {
    hide Encode, MissingHashes, Flags;
    forall at: nat, k: nat | at < |mask| && k < 8
      ensures mask[at] / [1, 2, 4, 8, 16, 32, 64, 128][k] % 2 == 1
         <==> at == 0 && exists i :: 0 <= i < |hs| && hs[i] in have && |MissingHashes(hs[..i], have)| == k
    {
      AnswerBit(hs, have, at, k);
    }
  }

  /** The downloader goes over an offer: it keeps the hashes it lacks, and marks the others in the mask.
      `at` is the byte it marks, `bit` the bit; both stay where they are after a hash that was found. */
  method AnswerOffer(hs: seq<ExifHash>, have: set<ExifHash>) returns (missing: seq<ExifHash>, mask: array<byte>)
    ensures fresh(mask)
    ensures missing == MissingHashes(hs, have)
    ensures mask[..] == Encode(Written, Flags(hs, have)) && |hs| <= 8 * mask.Length < |hs| + 8
    ensures forall at, k :: 0 <= at < mask.Length && 0 <= k < 8 ==>
              (mask[at] / [1, 2, 4, 8, 16, 32, 64, 128][k] % 2 == 1
               <==> at == 0 && exists i :: 0 <= i < |hs| && hs[i] in have && |MissingHashes(hs[..i], have)| == k)
  {
    ghost var found := Flags(hs, have);
    missing := [];
    mask := new byte[MaskSize(|hs|)](_ => 0);
    var at, bit := 0, 0;
    assert mask[..] == MaskAfter(Written, found, 0);
    for i := 0 to |hs|
      invariant bit == MissingBefore(found, i) && at == bit / 8
      invariant mask[..] == MaskAfter(Written, found, i)
      invariant missing == MissingHashes(hs[..i], have)
    {
      MissingSnoc(hs, i, have);
      if hs[i] in have {
        mask[at] := OrShift(mask[at], bit);
      } else {
        missing := missing + [hs[i]];
        bit := bit + 1;
        at := at + if bit % 8 == 0 then 1 else 0;
      }
    }
    assert hs[..|hs|] == hs;
    AnswerBits(hs, have, mask[..]);
  }

  lemma {:induction false} MissingSnoc(hs: seq<ExifHash>, i: nat, have: set<ExifHash>)
    requires i < |hs|
    ensures MissingHashes(hs[..i + 1], have)
         == MissingHashes(hs[..i], have) + (if hs[i] in have then [] else [hs[i]])
    decreases |hs|
  {
    if i > 0 {
      assert hs[..i + 1][1..] == hs[1..][..i] && hs[..i][1..] == hs[1..][..i - 1];
      MissingSnoc(hs[1..], i - 1, have);
    }
  }

  /** The answer is read as the bits of its first byte, and as zeros behind them. */
  lemma ReadBits(mask: seq<byte>, n: nat)
    requires |mask| == MaskSize(n)
    ensures Decode(Written, mask, n)
         == seq(n, i requires 0 <= i < n => i < 8 && mask[0] / [1, 2, 4, 8, 16, 32, 64, 128][i] % 2 == 1)
  {
    hide AndShift;
    forall i: nat | i < n
      ensures Decode(Written, mask, n)[i] <==> i < 8 && mask[0] / [1, 2, 4, 8, 16, 32, 64, 128][i] % 2 == 1
    {
      ShiftValues(mask[i / 8], i);
    }
  }

  /** The uploader goes over the answer: it takes the entries whose bits are not set. */
  method TakeMissing(offer: seq<Entry>, mask: seq<byte>) returns (chosen: seq<Entry>)
    requires |mask| == MaskSize(|offer|)
    ensures chosen == Select(offer, Decode(Written, mask, |offer|))
    ensures chosen == Select(offer, seq(|offer|, i requires 0 <= i < |offer| =>
                               i < 8 && mask[0] / [1, 2, 4, 8, 16, 32, 64, 128][i] % 2 == 1))
  {
    ghost var found := Decode(Written, mask, |offer|);
    chosen := [];
    var at, bit := 0, 0;
    for i := 0 to |offer|
      invariant bit == i && at == i / 8
      invariant chosen == Select(offer[..i], found[..i])
    {
      SelectSnoc(offer, found, i);
      if !AndShift(mask[at], bit) {
        chosen := chosen + [offer[i]];
      }
      bit := bit + 1;
      at := at + if bit % 8 == 0 then 1 else 0;
    }
    assert offer[..|offer|] == offer && found[..|offer|] == found;
    ReadBits(mask, |offer|);
  }

  /** The uploader walks on over the list, gathering an offer. */
  method GatherOffer(es: seq<Entry>, processed: nat, total: nat, received: set<ExifHash>) returns (found: Scanned)
    requires processed < total <= |es|
    ensures found == Scan(es, processed, total, received, [])
  {
    var count, missing := processed, [];
    while true
      invariant processed <= count < total
      invariant Scan(es, count, total, received, missing) == Scan(es, processed, total, received, [])
      decreases total - count
    {
      if es[count].hash !in received {
        missing := missing + [es[count]];
      }
      count := count + 1;
      if count == total || |missing| >= OFFER_HASHES {
        break;
      }
    }
    found := Scanned(count, missing);
  }
}

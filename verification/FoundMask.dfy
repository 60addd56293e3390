// The bitmask in which a downloader tells the uploader which offered hashes it already has.
module FoundMask {
  import opened Codec
  import opened Entries

  /** Which bit stands for which offered entry.
      `Written`: what the program computes. The encoder moves to the next bit only after a missing entry,
      and neither side brings the bit number back to zero when it moves to the next byte.
      `OneBitPerEntry`: bit i % 8 of byte i / 8 stands for entry i. */
  datatype MaskRule = Written | OneBitPerEntry

  function Pow2(width: nat): (p: nat) {
    if width == 0 then 1 else 2 * Pow2(width - 1)
  }

  /** Bit `k` of `b`. */
  predicate Bit(b: nat, k: nat) {
    if k == 0 then b % 2 == 1 else Bit(b / 2, k - 1)
  }

  lemma {:induction false} ZeroBits(k: nat)
    ensures !Bit(0, k)
  {
    if k > 0 {
      ZeroBits(k - 1);
    }
  }

  /** `b | 1 << k` for a number of `width` bits. */
  function WithBit(b: nat, k: nat, width: nat): (r: nat)
    requires k < width && b < Pow2(width)
    ensures r < Pow2(width)
  {
    if k == 0 then b / 2 * 2 + 1 else WithBit(b / 2, k - 1, width - 1) * 2 + b % 2
  }

  lemma {:induction false} WithBitSets(b: nat, k: nat, width: nat, j: nat)
    requires k < width && b < Pow2(width)
    ensures Bit(WithBit(b, k, width), j) <==> j == k || Bit(b, j)
  {
    if k > 0 && j > 0 {
      WithBitSets(b / 2, k - 1, width - 1, j - 1);
    }
  }

  /** `*found |= 1 << bit`: the result is cut to a byte, so a bit number above 7 changes nothing. */
  function OrShift(b: byte, bit: nat): byte {
    assert Pow2(4) == 16 && Pow2(8) == 16 * Pow2(4);
    if bit < 8 then WithBit(b, bit, 8) else b
  }

  /** `*found & (1 << bit)` as a condition: a byte has no bit above 7. */
  predicate AndShift(b: byte, bit: nat) {
    bit < 8 && Bit(b, bit)
  }

  lemma OrShiftSets(b: byte, bit: nat, k: nat)
    requires k < 8
    ensures Bit(OrShift(b, bit), k) <==> bit == k || Bit(b, k)
  {
    assert Pow2(4) == 16 && Pow2(8) == 16 * Pow2(4);
    if bit < 8 {
      WithBitSets(b, bit, 8, k);
    }
  }

  /** What the bits of a byte stand for. */
  const PLACES: seq<nat> := [1, 2, 4, 8, 16, 32, 64, 128]

  lemma HalfPlace(b: nat, k: nat)
    requires 0 < k < 8
    ensures b / 2 / PLACES[k - 1] == b / PLACES[k] && PLACES[k] == 2 * PLACES[k - 1]
  {
    assert b / 2 / 2 == b / 4 && b / 2 / 4 == b / 8 && b / 2 / 8 == b / 16 && b / 2 / 16 == b / 32;
    assert b / 2 / 32 == b / 64 && b / 2 / 64 == b / 128;
  }

  lemma {:induction false} BitPlace(b: nat, k: nat, width: nat)
    requires k < 8 && k < width && b < Pow2(width)
    ensures Bit(b, k) <==> b / PLACES[k] % 2 == 1
    ensures WithBit(b, k, width) == if Bit(b, k) then b else b + PLACES[k]
  {
    if k > 0 {
      BitPlace(b / 2, k - 1, width - 1);
      HalfPlace(b, k);
    }
  }

  /** In numbers: a bit is tested by its place, and marking it adds its place, once. */
  lemma ShiftValues(b: byte, bit: nat)
    ensures AndShift(b, bit) <==> bit < 8 && b / [1, 2, 4, 8, 16, 32, 64, 128][bit] % 2 == 1
    ensures OrShift(b, bit) == if bit < 8 && !AndShift(b, bit) then b + [1, 2, 4, 8, 16, 32, 64, 128][bit] else b
  {
    assert Pow2(4) == 16 && Pow2(8) == 16 * Pow2(4);
    if bit < 8 {
      BitPlace(b, bit, 8);
    }
  }

  /** Just enough bytes to have a bit for each of `n` entries. */
  function MaskSize(n: nat): (size: nat)
    ensures n <= 8 * size < n + 8
  {
    (n + 7) / 8
  }

  /** How many of the first `i` entries are missing. */
  function MissingBefore(found: seq<bool>, i: nat): (m: nat)
    requires i <= |found|
    ensures m <= i
  {
    if i == 0 then 0 else MissingBefore(found, i - 1) + if found[i - 1] then 0 else 1
  }

  // ----- the encoder -----

  /** The position the encoder has reached when it looks at entry `i`. */
  function Slot(rule: MaskRule, found: seq<bool>, i: nat): (slot: nat)
    requires i <= |found|
    ensures slot <= i
  {
    if rule.Written? then MissingBefore(found, i) else i
  }

  function BitOf(rule: MaskRule, slot: nat): nat {
    if rule.Written? then slot else slot % 8
  }

  function MaskAfter(rule: MaskRule, found: seq<bool>, i: nat): (mask: seq<byte>)
    requires i <= |found|
    ensures |mask| == MaskSize(|found|)
  {
    if i == 0 then seq(MaskSize(|found|), _ => 0)
    else
      var mask := MaskAfter(rule, found, i - 1);
      var slot := Slot(rule, found, i - 1);
      if found[i - 1] then mask[slot / 8 := OrShift(mask[slot / 8], BitOf(rule, slot))] else mask
  }

  function Encode(rule: MaskRule, found: seq<bool>): (mask: seq<byte>)
    ensures |mask| == MaskSize(|found|)
  {
    MaskAfter(rule, found, |found|)
  }

  // ----- the decoder -----

  predicate DecodeAt(rule: MaskRule, mask: seq<byte>, i: nat)
    requires i < 8 * |mask|
  {
    AndShift(mask[i / 8], BitOf(rule, i))
  }

  function Decode(rule: MaskRule, mask: seq<byte>, n: nat): (found: seq<bool>)
    requires |mask| == MaskSize(n)
    ensures |found| == n
  {
    seq(n, i requires 0 <= i < n => DecodeAt(rule, mask, i))
  }

  /** Both peers read the same answer to the offer. */
  predicate Agrees(rule: MaskRule, found: seq<bool>) {
    Decode(rule, Encode(rule, found), |found|) == found
  }

  /** What is asked of an answer. Anyhow: nothing. InNumber: as many entries are read as missing as there are.
      AsMeant: just those are. */
  datatype Answers = Anyhow | InNumber | AsMeant

  predicate Fits(how: Answers, rule: MaskRule, found: seq<bool>) {
    var n := |found|;
    match how
    case Anyhow => true
    case InNumber => CountTo(Decode(rule, Encode(rule, found), n), n) == CountTo(found, n)
    case AsMeant => Agrees(rule, found)
  }

  // ----- when they agree -----

  ghost predicate Marks(rule: MaskRule, found: seq<bool>, i: nat, at: nat, k: nat)
    requires i < |found|
  {
    found[i] && Slot(rule, found, i) / 8 == at && BitOf(rule, Slot(rule, found, i)) == k
  }

  lemma {:induction false} MaskBits(rule: MaskRule, found: seq<bool>, n: nat, at: nat, k: nat)
    requires n <= |found| && at < MaskSize(|found|) && k < 8
    ensures Bit(MaskAfter(rule, found, n)[at], k) <==> exists i: nat :: i < n && Marks(rule, found, i, at, k)
  {
    if n == 0 {
      ZeroBits(k);
    } else {
      MaskBits(rule, found, n - 1, at, k);
      var mask := MaskAfter(rule, found, n - 1);
      var slot := Slot(rule, found, n - 1);
      OrShiftSets(mask[slot / 8], BitOf(rule, slot), k);
      assert Bit(MaskAfter(rule, found, n)[at], k) <==> Marks(rule, found, n - 1, at, k) || Bit(mask[at], k);
    }
  }

  /** One bit per offered entry: the two sides agree on every offer of every length. */
  lemma OneBitPerEntryAgrees(found: seq<bool>)
    ensures Agrees(OneBitPerEntry, found)
  {
    forall i | 0 <= i < |found|
      ensures DecodeAt(OneBitPerEntry, Encode(OneBitPerEntry, found), i) == found[i]
    {
      MaskBits(OneBitPerEntry, found, |found|, i / 8, i % 8);
      if found[i] {
        assert Marks(OneBitPerEntry, found, i, i / 8, i % 8);
      }
    }
  }

  /** At most one offered hash is already there, and it is among the first eight. */
  predicate AtMostOneEarly(found: seq<bool>) {
    && (forall i, j :: 0 <= i < j < |found| ==> !(found[i] && found[j]))
    && (forall i :: 8 <= i < |found| ==> !found[i])
  }

  lemma {:induction false} NoneFoundBefore(found: seq<bool>, i: nat)
    requires i <= |found|
    requires forall j :: 0 <= j < i ==> !found[j]
    ensures MissingBefore(found, i) == i
  {
    if i > 0 {
      NoneFoundBefore(found, i - 1);
    }
  }

  lemma {:induction false} SomeFoundBefore(found: seq<bool>, j: nat, i: nat)
    requires j < i <= |found| && found[j]
    ensures MissingBefore(found, i) < i
  {
    if j < i - 1 {
      SomeFoundBefore(found, j, i - 1);
    }
  }

  /** The last entry found is read back as missing when an earlier one was found too, or when it is not early. */
  lemma WrittenLosesLast(found: seq<bool>, last: nat)
    requires last < |found| && found[last]
    requires forall i :: last < i < |found| ==> !found[i]
    requires last >= 8 || exists j :: 0 <= j < last && found[j]
    ensures !DecodeAt(Written, Encode(Written, found), last)
  {
    if last < 8 {
      MaskBits(Written, found, |found|, 0, last);
      forall i: nat | i < |found|
        ensures !Marks(Written, found, i, 0, last)
      {
        if found[i] && i == last {
          var j :| 0 <= j < last && found[j];
          SomeFoundBefore(found, j, last);
        }
      }
    }
  }

  lemma LastFound(found: seq<bool>, i: nat) returns (last: nat)
    requires i < |found| && found[i]
    ensures i <= last < |found| && found[last]
    ensures forall k :: last < k < |found| ==> !found[k]
  {
    last := |found| - 1;
    while !found[last]
      invariant i <= last < |found|
      invariant forall k :: last < k < |found| ==> !found[k]
      decreases last
    {
      last := last - 1;
    }
  }

  /** The exact condition under which the two sides of the program agree. */
  lemma WrittenAgreement(found: seq<bool>)
    ensures Agrees(Written, found) <==> AtMostOneEarly(found)
  {
    var mask := Encode(Written, found);
    if AtMostOneEarly(found) {
      forall i | 0 <= i < |found|
        ensures DecodeAt(Written, mask, i) == found[i]
      {
        if i < 8 {
          MaskBits(Written, found, |found|, 0, i);
          forall j: nat | j < |found| && found[j]
            ensures Marks(Written, found, j, 0, i) <==> i == j
          {
            NoneFoundBefore(found, j);
          }
        }
      }
    } else {
      var i: nat :| i < |found| && found[i] && (i >= 8 || exists j :: 0 <= j < i && found[j]);
      var last := LastFound(found, i);
      if last != i {
        assert found[i] && i < last;
      }
      WrittenLosesLast(found, last);
      assert Decode(Written, mask, |found|)[last] != found[last];
    }
  }

  /** Where they do not agree, the uploader takes an entry for missing that the downloader has. */
  lemma WrittenUploadsFound(found: seq<bool>)
    ensures !AtMostOneEarly(found)
       <==> exists i :: 0 <= i < |found| && found[i] && !Decode(Written, Encode(Written, found), |found|)[i]
  {
    WrittenAgreement(found);
    if !AtMostOneEarly(found) {
      var i: nat :| i < |found| && found[i] && (i >= 8 || exists j :: 0 <= j < i && found[j]);
      var last := LastFound(found, i);
      if last != i {
        assert found[i] && i < last;
      }
      WrittenLosesLast(found, last);
    }
  }

  /** Two hashes already there are enough: the second one is uploaded although it is not wanted. */
  lemma WrittenDisagrees()
    ensures !Agrees(Written, [true, true])
    ensures Decode(Written, Encode(Written, [true, true]), 2) == [true, false]
  {
    var found := [true, true];
    WrittenAgreement(found);
    MaskBits(Written, found, 2, 0, 0);
    MaskBits(Written, found, 2, 0, 1);
    assert Marks(Written, found, 0, 0, 0);
  }
}

// What the uploader takes from an answer in the written mask: when it is what the downloader awaits, and when
// it is at least as many records as the downloader awaits.
module MaskErrors {
  import opened Codec
  import opened Entries
  import opened FoundMask

  /** The entries that the uploader sends in reply to the written answer of a peer that has the given hashes. */
  function Chosen(es: seq<Entry>, have: set<ExifHash>): seq<Entry> {
    var found := Flags(HashesOf(es), have);
    Select(es, Decode(Written, Encode(Written, found), |es|))
  }

  lemma {:induction false} SelectFalse(es: seq<Entry>, found: seq<bool>, i: nat)
    requires i < |es| == |found| && !found[i]
    ensures es[i] in Select(es, found)
  {
    if i > 0 {
      SelectFalse(es[1..], found[1..], i - 1);
    }
  }

  /** The uploader sends just the images that are awaited if and only if at most one offered hash was found
      and it is among the first eight. */
  lemma WrittenSelection(es: seq<Entry>, have: set<ExifHash>)
    ensures Chosen(es, have) == NotIn(es, have) <==> AtMostOneEarly(Flags(HashesOf(es), have))
  {
    var found := Flags(HashesOf(es), have);
    WrittenAgreement(found);
    WrittenUploadsFound(found);
    SelectIsNotIn(es, have);
    hide AtMostOneEarly, Encode, Decode;
    if !AtMostOneEarly(found) {
      var i :| 0 <= i < |found| && found[i] && !Decode(Written, Encode(Written, found), |found|)[i];
      SelectFalse(es, Decode(Written, Encode(Written, found), |es|), i);
      InNotIn(es, have, es[i]);
    }
  }

  // ----- how many records are sent -----

  /** No two neighbours were found, and none was found behind eight that are missing. */
  predicate InStep(found: seq<bool>) {
    forall j :: 0 <= j < |found| && found[j] ==> MissingBefore(found, j) < 8 && (j == 0 || !found[j - 1])
  }

  ghost function TrueTo(bs: seq<bool>, n: nat): (s: set<nat>)
    requires n <= |bs|
  {
    if n == 0 then {} else TrueTo(bs, n - 1) + if bs[n - 1] then {n - 1} else {}
  }

  lemma {:induction false} TrueToCount(bs: seq<bool>, n: nat)
    requires n <= |bs|
    ensures forall k: nat :: k in TrueTo(bs, n) <==> k < n && bs[k]
    ensures |TrueTo(bs, n)| == CountTo(bs, n)
  {
    if n > 0 {
      TrueToCount(bs, n - 1);
    }
  }

  /** The positions below eight that the encoder has marked. */
  ghost function SlotsTo(found: seq<bool>, n: nat): (s: set<nat>)
    requires n <= |found|
  {
    if n == 0 then {}
    else
      var slot := MissingBefore(found, n - 1);
      SlotsTo(found, n - 1) + if found[n - 1] && slot < 8 then {slot} else {}
  }

  lemma {:induction false} InSlotsTo(found: seq<bool>, n: nat, k: nat)
    requires n <= |found|
    ensures k in SlotsTo(found, n) <==> k < 8 && exists j: nat :: j < n && found[j] && MissingBefore(found, j) == k
  {
    if n > 0 {
      InSlotsTo(found, n - 1, k);
      if k in SlotsTo(found, n) && k !in SlotsTo(found, n - 1) {
        assert found[n - 1] && MissingBefore(found, n - 1) == k;
      }
    }
  }

  lemma {:induction false} MissingMonotone(found: seq<bool>, i: nat, j: nat)
    requires i <= j <= |found|
    ensures MissingBefore(found, i) <= MissingBefore(found, j)
  {
    if i < j {
      MissingMonotone(found, i, j - 1);
    }
  }

  /** Whether the entry marks a position that no entry before it has marked. */
  predicate MarksAnew(found: seq<bool>, j: nat)
    requires j < |found|
  {
    found[j] && MissingBefore(found, j) < 8 && (j == 0 || !found[j - 1])
  }

  lemma NewSlot(found: seq<bool>, n: nat)
    requires n < |found| && found[n] && MissingBefore(found, n) < 8
    ensures MissingBefore(found, n) in SlotsTo(found, n) <==> n > 0 && found[n - 1]
  {
    var k := MissingBefore(found, n);
    InSlotsTo(found, n, k);
    if n > 0 && found[n - 1] {
      assert MissingBefore(found, n - 1) == k;
    } else if k in SlotsTo(found, n) {
      var j: nat :| j < n && found[j] && MissingBefore(found, j) == k;
      MissingMonotone(found, j, n - 1);
    }
  }

  function AnewTo(found: seq<bool>, n: nat): nat
    requires n <= |found|
  {
    if n == 0 then 0 else AnewTo(found, n - 1) + if MarksAnew(found, n - 1) then 1 else 0
  }

  lemma SlotsGrow(found: seq<bool>, n: nat)
    requires 0 < n <= |found|
    ensures |SlotsTo(found, n)| == |SlotsTo(found, n - 1)| + if MarksAnew(found, n - 1) then 1 else 0
  {
    if found[n - 1] && MissingBefore(found, n - 1) < 8 {
      NewSlot(found, n - 1);
      hide MissingBefore;
      var slot, slots := MissingBefore(found, n - 1), SlotsTo(found, n - 1);
      assert slot in slots ==> slots + {slot} == slots;
    }
  }

  lemma {:induction false} SlotsCount(found: seq<bool>, n: nat)
    requires n <= |found|
    ensures |SlotsTo(found, n)| == AnewTo(found, n)
  {
    if n > 0 {
      SlotsCount(found, n - 1);
      SlotsGrow(found, n);
    }
  }

  /** No more positions are marked than entries were found; as many only if each marks a position of its own. */
  lemma {:induction false} AnewCount(found: seq<bool>, n: nat)
    requires n <= |found|
    ensures AnewTo(found, n) <= CountTo(found, n)
    ensures AnewTo(found, n) == CountTo(found, n) <==> forall j: nat :: j < n && found[j] ==> MarksAnew(found, j)
  {
    hide MissingBefore;
    if n > 0 {
      AnewCount(found, n - 1);
    }
  }

  lemma MarksSlot(found: seq<bool>, j: nat, k: nat)
    requires j < |found| && k < 8
    ensures Marks(Written, found, j, 0, k) <==> found[j] && MissingBefore(found, j) == k
  {
    hide MissingBefore;
  }

  lemma MarkedSlot(found: seq<bool>, k: nat)
    requires k < 8
    ensures k in SlotsTo(found, |found|) <==> exists i: nat :: i < |found| && Marks(Written, found, i, 0, k)
  {
    InSlotsTo(found, |found|, k);
    hide Marks, SlotsTo, MissingBefore;
    if k in SlotsTo(found, |found|) {
      var j: nat :| j < |found| && found[j] && MissingBefore(found, j) == k;
      MarksSlot(found, j, k);
    }
    if i: nat :| i < |found| && Marks(Written, found, i, 0, k) {
      MarksSlot(found, i, k);
    }
  }

  /** The uploader reads back just the marked positions. */
  lemma DecodedSlot(found: seq<bool>, k: nat)
    requires k < |found|
    ensures Decode(Written, Encode(Written, found), |found|)[k] <==> k in SlotsTo(found, |found|)
  {
    hide Marks, SlotsTo, MissingBefore, MaskAfter, Bit;
    if k < 8 {
      MaskBits(Written, found, |found|, 0, k);
      MarkedSlot(found, k);
    } else {
      InSlotsTo(found, |found|, k);
    }
  }

  lemma DecodedCount(found: seq<bool>)
    ensures CountTo(Decode(Written, Encode(Written, found), |found|), |found|) == |SlotsTo(found, |found|)|
  {
    var read, n := Decode(Written, Encode(Written, found), |found|), |found|;
    TrueToCount(read, n);
    forall k: nat
      ensures k in TrueTo(read, n) <==> k in SlotsTo(found, n)
    {
      InSlotsTo(found, n, k);
      if k < n {
        DecodedSlot(found, k);
      }
    }
    assert TrueTo(read, n) == SlotsTo(found, n);
  }

  lemma InStepMarks(found: seq<bool>)
    ensures InStep(found) <==> forall j: nat :: j < |found| && found[j] ==> MarksAnew(found, j)
  {
    hide MissingBefore;
  }

  lemma FlagsCount(found: seq<bool>)
    ensures var n := |found|;
            var read := Decode(Written, Encode(Written, found), n);
            && CountTo(read, n) <= CountTo(found, n)
            && (CountTo(read, n) == CountTo(found, n) <==> InStep(found))
  {
    hide InStep, MarksAnew, MissingBefore, Encode, Decode, CountTo, AnewTo, SlotsTo;
    DecodedCount(found);
    SlotsCount(found, |found|);
    AnewCount(found, |found|);
    InStepMarks(found);
  }

  /** The uploader never sends fewer records than the downloader awaits; it sends as many, so that the stream
      stays in step, if and only if no two neighbours were found and none behind eight that are missing. */
  lemma WrittenRecordCount(es: seq<Entry>, have: set<ExifHash>)
    ensures |Chosen(es, have)| >= |NotIn(es, have)|
    ensures |Chosen(es, have)| == |NotIn(es, have)| <==> InStep(Flags(HashesOf(es), have))
  {
    var found, n := Flags(HashesOf(es), have), |es|;
    var read := Decode(Written, Encode(Written, found), n);
    hide InStep, Encode, Decode, CountTo, Select, NotIn, Flags, HashesOf;
    assert es[..n] == es && read[..n] == read && found[..n] == found;
    SelectCount(es, read, n);
    SelectCount(es, found, n);
    SelectIsNotIn(es, have);
    FlagsCount(found);
  }

  // ----- what a written answer can tell -----

  /** What may have been found for the written answer to be read as is asked. */
  predicate Tells(how: Answers, found: seq<bool>) {
    match how
    case Anyhow => true
    case InNumber => InStep(found)
    case AsMeant => AtMostOneEarly(found)
  }

  /** A written answer is read as is asked exactly if what was found is of that kind. */
  lemma TellsExactly(how: Answers, found: seq<bool>)
    ensures Fits(how, Written, found) <==> Tells(how, found)
  {
    FlagsCount(found);
    WrittenAgreement(found);
  }

  /** One bit for each entry is read as is asked, whatever that is. */
  lemma OneBitFits(how: Answers, found: seq<bool>)
    ensures Fits(how, OneBitPerEntry, found)
  {
    OneBitPerEntryAgrees(found);
  }

  /** Whether one more entry may have been found. */
  predicate Room(how: Answers, found: seq<bool>) {
    match how
    case Anyhow => true
    case InNumber => MissingBefore(found, |found|) < 8 && (found == [] || !found[|found| - 1])
    case AsMeant => |found| < 8 && forall i :: 0 <= i < |found| ==> !found[i]
  }

  lemma {:induction false} MissingPrefix(found: seq<bool>, n: nat, j: nat)
    requires j <= n <= |found|
    ensures MissingBefore(found[..n], j) == MissingBefore(found, j)
  {
    if j > 0 {
      MissingPrefix(found, n, j - 1);
    }
  }

  lemma {:induction false} MissingSuffix(found: seq<bool>, k: nat, j: nat)
    requires k + j <= |found|
    ensures MissingBefore(found[k..], j) <= MissingBefore(found, k + j)
  {
    if j > 0 {
      MissingSuffix(found, k, j - 1);
    }
  }

  lemma TellsPrefix(how: Answers, found: seq<bool>, n: nat)
    requires n <= |found| && Tells(how, found)
    ensures Tells(how, found[..n])
  {
    if how.InNumber? {
      forall j | 0 <= j < n && found[j]
        ensures MissingBefore(found[..n], j) < 8
      {
        MissingPrefix(found, n, j);
      }
    }
  }

  lemma TellsSuffix(how: Answers, found: seq<bool>, k: nat)
    requires k <= |found| && Tells(how, found)
    ensures Tells(how, found[k..])
  {
    if how.InNumber? {
      forall j | 0 <= j < |found| - k && found[k + j]
        ensures MissingBefore(found[k..], j) < 8
      {
        MissingSuffix(found, k, j);
      }
    }
  }

  lemma TellsOneMore(how: Answers, found: seq<bool>, b: bool)
    ensures Tells(how, found + [b]) <==> Tells(how, found) && (b ==> Room(how, found))
  {
    var n, more := |found|, found + [b];
    assert more[..n] == found && more[n] == b;
    if how.InNumber? {
      MissingPrefix(more, n, n);
      forall j | 0 <= j < n
        ensures MissingBefore(more, j) == MissingBefore(found, j)
      {
        MissingPrefix(more, n, j);
      }
      hide MissingBefore;
      if Tells(how, more) {
        TellsPrefix(how, more, n);
      }
    }
  }

  /** A list from which only found entries were taken away has room for a found one where the whole list has. */
  predicate Follows(whole: seq<bool>, part: seq<bool>) {
    && |part| <= |whole| && MissingBefore(part, |part|) == MissingBefore(whole, |whole|)
    && (part != [] && part[|part| - 1] ==> whole != [] && whole[|whole| - 1])
    && ((forall i :: 0 <= i < |whole| ==> !whole[i]) ==> forall i :: 0 <= i < |part| ==> !part[i])
  }

  lemma MissingOneMore(found: seq<bool>, b: bool)
    ensures MissingBefore(found + [b], |found| + 1) == MissingBefore(found, |found|) + if b then 0 else 1
  {
    assert (found + [b])[..|found|] == found;
    MissingPrefix(found + [b], |found|, |found|);
  }

  lemma FollowsOneMore(whole: seq<bool>, part: seq<bool>, b: bool)
    requires Follows(whole, part)
    ensures Follows(whole + [b], part + [b]) && (b ==> Follows(whole + [b], part))
  {
    MissingOneMore(whole, b);
    MissingOneMore(part, b);
    hide MissingBefore;
    assert (whole + [b])[|whole|] == b;
    forall i | 0 <= i < |whole|
      ensures (whole + [b])[i] == whole[i]
    {
    }
  }

  lemma NotInOneMore(es: seq<Entry>, e: Entry, received: set<ExifHash>)
    ensures NotIn(es + [e], received) == NotIn(es, received) + if e.hash in received then [] else [e]
  {
    NotInAppend(es, [e], received);
    assert [e][1..] == [];
  }

  lemma FlagsOneMore(es: seq<Entry>, e: Entry, have: set<ExifHash>)
    ensures Flags(HashesOf(es + [e]), have) == Flags(HashesOf(es), have) + [e.hash in have]
  {
  }

  /** Leaving out entries that were reported takes nothing away from what an answer can tell. */
  lemma {:induction false} TellsLess(how: Answers, es: seq<Entry>, received: set<ExifHash>, have: set<ExifHash>)
    requires received <= have && Tells(how, Flags(HashesOf(es), have))
    ensures Tells(how, Flags(HashesOf(NotIn(es, received)), have))
    ensures Follows(Flags(HashesOf(es), have), Flags(HashesOf(NotIn(es, received)), have))
    decreases |es|
  {
    if es != [] {
      var n := |es| - 1;
      var p, e := es[..n], es[n];
      assert es == p + [e];
      var whole, part := Flags(HashesOf(p), have), Flags(HashesOf(NotIn(p, received)), have);
      var found := e.hash in have;
      FlagsOneMore(p, e, have);
      NotInOneMore(p, e, received);
      TellsOneMore(how, whole, found);
      TellsLess(how, p, received, have);
      TellsOneMore(how, part, found);
      FollowsOneMore(whole, part, found);
      if e.hash !in received {
        FlagsOneMore(NotIn(p, received), e, have);
      }
      hide Tells, Flags, HashesOf, NotIn;
      assert found && Room(how, whole) ==> Room(how, part);
      assert NotIn(p, received) + [] == NotIn(p, received);
    }
  }
}

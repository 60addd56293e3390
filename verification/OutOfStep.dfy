// What becomes of two peers when the uploader takes more entries from a written answer than are awaited.
module OutOfStep {
  import opened Codec
  import opened Entries
  import opened FoundMask
  import opened MaskErrors
  import opened Framing
  import opened FileStore
  import opened SyncModel
  import opened SyncInvariant
  import opened SyncProgress
  import opened SyncRuns
  import opened SyncTheorems
  import opened SyncReach
  import opened MaskRuns

  // ----- as long as it takes as many -----

  /** While as many entries are taken from each answer as are awaited, the peers neither give up nor wait for each
      other, though images may be mixed up. */
  lemma InStepGoesOn(cfg: Config, a: Env, b: Env, t: Sys)
    requires ValidEnv(a) && ValidEnv(b) && MaskSuffices(InNumber, cfg, a, b)
    requires Reaches(Anyhow, cfg, StartSys(a, b), t)
    ensures Final(t) || exists m :: Goes(cfg, t, m)
    ensures !t.a.up.stage.UFatal? && !t.b.up.stage.UFatal? && !t.a.down.stage.DFatal? && !t.b.down.stage.DFatal?
  {
    hide Reaches, MaskSuffices, Inv, Goes;
    ReachesSafely(InNumber, cfg, a, b, t);
    ReachedInv(InNumber, cfg, a, b, t);
    NoneFatal(cfg, t);
    if !Final(t) {
      var m := NeverStuck(InNumber, cfg, t);
    }
  }

  lemma NoneFatal(cfg: Config, t: Sys)
    requires Inv(InNumber, cfg, t)
    ensures !t.a.up.stage.UFatal? && !t.b.up.stage.UFatal? && !t.a.down.stage.DFatal? && !t.b.down.stage.DFatal?
  {
    hide Half;
    NeverFatal(InNumber, cfg, t);
    NeverFatal(InNumber, cfg, Swap(t));
  }

  // ----- exactly when a downloader reads what was sent -----

  /** What a downloader has read between offers is the beginning of an offer that was made. */
  ghost predicate ReadsOffers(s: Sys) {
    s.b.down.stage.DOffer? && s.ab.fwd.inb != [] ==>
      s.a.up.stage.UAck? && s.ab.fwd.inb <= OfferBytes(HashesOf(s.a.up.stage.offer))
  }

  /** In particular every offer that is decided was made. */
  lemma DecidedWasMade(cfg: Config, s: Sys)
    requires ReadsOffers(s) && Enabled(cfg, Swap(s), Decide)
    requires s.a.up.stage.UAck? ==> |s.a.up.stage.offer| <= OFFER_HASHES
    ensures s.a.up.stage.UAck? && Offered(Swap(s)) == HashesOf(s.a.up.stage.offer)
  {
    OfferDelimited(HashesOf(s.a.up.stage.offer), s.ab.fwd.inb);
    OfferRoundTrip(HashesOf(s.a.up.stage.offer));
  }

  ghost predicate KeepsStep(cfg: Config, a: Env, b: Env) {
    forall t :: Reaches(Anyhow, cfg, StartSys(a, b), t) ==> ReadsOffers(t) && ReadsOffers(Swap(t))
  }

  lemma InvReadsOffers(cfg: Config, s: Sys)
    requires Half(InNumber, cfg, s)
    ensures ReadsOffers(s)
  {
    if s.b.down.stage.DOffer? && s.ab.fwd.inb != [] {
      hide PeerInv, LinkInv, CoverInv, GotInv, NetInv, OfferBytes, HashesOf;
      ReadingFromLink(InNumber, cfg, s);
    }
  }

  lemma SurplusStage(a: Env, b: Env, known: set<ExifHash>, s: Sys)
    requires Served(a, b, known, s)
    ensures s.a.files == a.files && s.a.up.stage == ULoad && s.a.up.processed == |FirstOffer(Images(a))|
    ensures s.a.published == |Images(a)| && s.a.queue.entries == Images(a) && !s.a.hashing && s.a.up.received == {}
    ensures s.b.down.stage == DOffer && s.b.up.stage == ULoad && s.b.up.received == known && s.b.up.processed == 0
    ensures s.b.queue.entries == Images(b) && s.b.published == |Images(b)| && !s.b.hashing
    ensures s.a.down.stage == DOffer && s.a.queue.done && s.b.queue.done && s.a.queue.todo == [] && s.b.queue.todo == []
    ensures !s.a.queue.owed && !s.b.queue.owed
  {
    hide Chosen, MissingHashes, Recorded, Records, FirstOffer;
  }

  /** The records that are not awaited. */
  ghost function Surplus(a: Env, b: Env): seq<Entry> {
    var offer, have := FirstOffer(Images(a)), HashSet(Images(b));
    var chosen, hs := Chosen(offer, have), MissingHashes(HashesOf(offer), have);
    if |hs| <= |chosen| then chosen[|hs|..] else []
  }

  /** Records begin with the length of the first name. */
  lemma NameLength(files: Files, es: seq<Entry>) returns (n: byte)
    requires es != []
    ensures n == |SentName(es[0].path)| && Records(files, es) == [n] + Records(files, es)[1..]
  {
    n := |SentName(es[0].path)|;
    assert RecordBytes(RecordOf(files, es[0]))[0] == n;
  }

  /** The first byte of a record that is not awaited is read as if it began an offer. */
  lemma SurplusIsRead(cfg: Config, a: Env, b: Env) returns (t: Sys, n: byte)
    requires ValidEnv(a) && cfg.mask.Written? && Images(a) != []
    requires !InStep(Flags(HashesOf(FirstOffer(Images(a))), HashSet(Images(b))))
    ensures Surplus(a, b) != [] && n == |SentName(Surplus(a, b)[0].path)|
    ensures Reaches(Anyhow, cfg, StartSys(a, b), t)
    ensures t.a.up.stage == ULoad && t.b.down.stage == DOffer && t.ab.fwd.inb == [n]
  {
    hide Reaches, Flags, HashSet, InStep, Chosen, MissingHashes, Recorded, Records, SentName, Images;
    var s, known := Serves(Anyhow, cfg, a, b);
    NeverFewer(FirstOffer(Images(a)), HashSet(Images(b)));
    SurplusStage(a, b, known, s);
    var surplus := Surplus(a, b);
    n := NameLength(a.files, surplus);
    var rest := Records(a.files, surplus)[1..];
    assert [n][0..] == [n] && [n][..0] == [];
    Crosses(Anyhow, cfg, s, [n], rest, 0);
    t := s.(ab := s.ab.(fwd := Stream(rest, [], [n])));
    Onward(Anyhow, cfg, StartSys(a, b), s, t);
  }

  lemma KeepsStepBothWays(cfg: Config, a: Env, b: Env)
    requires KeepsStep(cfg, a, b)
    ensures KeepsStep(cfg, b, a)
  {
    forall t | Reaches(Anyhow, cfg, StartSys(b, a), t)
      ensures ReadsOffers(t) && ReadsOffers(Swap(t))
    {
      hide Reaches, ReadsOffers;
      OtherReaches(Anyhow, cfg, StartSys(b, a), t);
      assert Swap(Swap(t)) == t;
    }
  }

  lemma SurplusBreaks(cfg: Config, a: Env, b: Env)
    requires ValidEnv(a) && cfg.mask.Written? && Images(a) != []
    requires !InStep(Flags(HashesOf(FirstOffer(Images(a))), HashSet(Images(b))))
    ensures !KeepsStep(cfg, a, b)
  {
    hide Reaches, InStep, HashSet, Images, Flags;
    var t, n := SurplusIsRead(cfg, a, b);
    assert !ReadsOffers(t);
  }

  lemma FirstOfferInStep(cfg: Config, a: Env, b: Env)
    requires ValidEnv(a) && cfg.mask.Written? && KeepsStep(cfg, a, b)
    ensures InStep(Flags(HashesOf(FirstOffer(Images(a))), HashSet(Images(b))))
  {
    hide KeepsStep, InStep, HashSet, Images, Flags;
    if Images(a) == [] {
      NoneFoundTells(InNumber, Flags(HashesOf(FirstOffer(Images(a))), HashSet(Images(b))));
    } else if !InStep(Flags(HashesOf(FirstOffer(Images(a))), HashSet(Images(b)))) {
      SurplusBreaks(cfg, a, b);
    }
  }

  /** With the written mask, and lists that fit in one offer: in every reachable state a downloader between offers has
      read the beginning of an offer that was made, if and only if what was found is in step both ways. For longer
      lists this is enough, and it is necessary for the first offer of either peer. */
  lemma FramingExactly(cfg: Config, a: Env, b: Env)
    requires ValidEnv(a) && ValidEnv(b) && cfg.mask.Written?
    ensures CanTell(InNumber, a, b) && CanTell(InNumber, b, a) ==> KeepsStep(cfg, a, b)
    ensures KeepsStep(cfg, a, b) ==>
              && InStep(Flags(HashesOf(FirstOffer(Images(a))), HashSet(Images(b))))
              && InStep(Flags(HashesOf(FirstOffer(Images(b))), HashSet(Images(a))))
    ensures |Images(a)| <= OFFER_HASHES && |Images(b)| <= OFFER_HASHES ==>
              (KeepsStep(cfg, a, b) <==> CanTell(InNumber, a, b) && CanTell(InNumber, b, a))
  {
    if KeepsStep(cfg, a, b) {
      hide KeepsStep, InStep;
      KeepsStepBothWays(cfg, a, b);
      FirstOfferInStep(cfg, a, b);
      FirstOfferInStep(cfg, b, a);
    } else if CanTell(InNumber, a, b) && CanTell(InNumber, b, a) {
      hide CanTell;
      forall t | Reaches(Anyhow, cfg, StartSys(a, b), t)
        ensures ReadsOffers(t) && ReadsOffers(Swap(t))
      {
        hide Reaches, ReadsOffers, Half;
        ReachesSafely(InNumber, cfg, a, b, t);
        ReachedInv(InNumber, cfg, a, b, t);
        InvReadsOffers(cfg, t);
        InvReadsOffers(cfg, Swap(t));
      }
    }
  }

  // ----- giving up -----

  /** A record that is not awaited, and whose name is longer than an offer can be, makes the downloader give up. */
  lemma SurplusAborts(cfg: Config, a: Env, b: Env) returns (t: Sys)
    requires ValidEnv(a) && cfg.mask.Written? && Images(a) != []
    requires !InStep(Flags(HashesOf(FirstOffer(Images(a))), HashSet(Images(b))))
    requires Surplus(a, b) != [] ==> |SentName(Surplus(a, b)[0].path)| > OFFER_HASHES
    ensures Reaches(Anyhow, cfg, StartSys(a, b), t) && t.b.down.stage.DFatal?
  {
    hide Reaches, Flags, HashSet, InStep, SentName, Surplus, Images;
    var s, n := SurplusIsRead(cfg, a, b);
    OnB(Anyhow, cfg, StartSys(a, b), s, RejectOffer);
    t := s.(b := s.b.(down := s.b.down.(stage := DFatal)));
  }

  lemma AllFound(es: seq<Entry>, have: set<ExifHash>)
    requires HashSet(es) <= have && |es| >= 2
    ensures !InStep(Flags(HashesOf(es), have))
  {
    InHashSet(es, es[0].hash);
    InHashSet(es, es[1].hash);
    assert Flags(HashesOf(es), have)[0] && Flags(HashesOf(es), have)[1];
  }

  /** Two peers that have the same images are such a case: if the update of one is lost, it is sent images that it
      does not await. */
  lemma SameImagesAbort(cfg: Config, a: Env, b: Env) returns (t: Sys)
    requires ValidEnv(a) && cfg.mask.Written? && 2 <= |Images(a)| <= OFFER_HASHES
    requires HashSet(Images(a)) <= HashSet(Images(b))
    requires forall e :: e in Images(a) ==> |SentName(e.path)| > OFFER_HASHES
    ensures Reaches(Anyhow, cfg, StartSys(a, b), t) && t.b.down.stage.DFatal?
  {
    hide Reaches, HashSet, Chosen, SentName, InStep, Images, Flags, MissingHashes;
    AllFound(Images(a), HashSet(Images(b)));
    if Surplus(a, b) != [] {
      ChosenFrom(Images(a), HashSet(Images(b)), Surplus(a, b)[0]);
    }
    t := SurplusAborts(cfg, a, b);
  }

  // ----- waiting for each other -----

  /** An uploader that has been told nothing offers what follows an offer that it has made. */
  lemma ScanNext(es: seq<Entry>, n: nat)
    requires n < |es|
    ensures Scan(es, n, |es|, {}, []) == Scanned(n + |FirstOffer(es[n..])|, FirstOffer(es[n..]))
  {
    ScanFinds(es, n, |es|, {}, []);
    var r := Scan(es, n, |es|, {}, []);
    NotInNone(es[n..r.processed]);
    assert [] + es[n..r.processed] == es[n..r.processed];
    assert es[n..][..r.processed - n] == es[n..r.processed];
  }

  function OfferingNext(p: Peer): Peer
    requires p.up.processed <= |p.queue.entries|
  {
    var offer := FirstOffer(p.queue.entries[p.up.processed..]);
    p.(up := p.up.(stage := UAck(offer), processed := p.up.processed + |offer|, offered := p.up.offered + offer))
  }

  lemma OffersNext(cfg: Config, s: Sys)
    requires s.a.up.stage == ULoad && s.a.up.processed < s.a.published == |s.a.queue.entries|
    requires s.a.up.received == {} && s.ab.fwd.out == []
    ensures var msg := OfferBytes(HashesOf(FirstOffer(s.a.queue.entries[s.a.up.processed..])));
            Reaches(Anyhow, cfg, s, s.(a := OfferingNext(s.a), ab := s.ab.(fwd := s.ab.fwd.(out := msg))))
  {
    hide Reaches, OfferBytes, HashesOf, Scan;
    ScanNext(s.a.queue.entries, s.a.up.processed);
    Stays(Anyhow, cfg, s);
    OnA(Anyhow, cfg, s, s, LoadCount);
  }

  /** Bytes that are too few for the offer that the first of them announces. */
  predicate Short(inb: seq<byte>) {
    inb != [] && inb[0] <= OFFER_HASHES && |inb| < 1 + 20 * inb[0] as nat
  }

  lemma ShortReads(msg: seq<byte>, j: nat)
    requires Short(msg) && j <= |msg|
    ensures Reads(DOffer, msg[..j])
  {
  }

  /** A surplus gets across, the next offer is made, and it gets across too: they are read as one offer. */
  lemma NextOfferRead(cfg: Config, s: Sys, surplus: seq<byte>) returns (t: Sys)
    requires s.a.up.stage == ULoad && s.a.up.processed < s.a.published == |s.a.queue.entries|
    requires s.a.up.received == {} && s.b.down.stage == DOffer
    requires s.ab == Link(Stream(surplus, [], []), EMPTY) && surplus != []
    requires Short(surplus + OfferBytes(HashesOf(FirstOffer(s.a.queue.entries[s.a.up.processed..]))))
    ensures Reaches(Anyhow, cfg, s, t) && t == s.(a := OfferingNext(s.a), ab := Link(t.ab.fwd, EMPTY))
    ensures t.ab.fwd.out == [] && t.ab.fwd.wire == [] && Short(t.ab.fwd.inb)
  {
    hide Reaches, OfferBytes, HashesOf, Reads, Short;
    var offer := OfferBytes(HashesOf(FirstOffer(s.a.queue.entries[s.a.up.processed..])));
    var msg, k := surplus + offer, |surplus|;
    forall j | 0 <= j < |msg|
      ensures Reads(DOffer, msg[..j])
    {
      ShortReads(msg, j);
    }
    forall j | 0 <= j < k
      ensures Reads(DOffer, surplus[..j])
    {
      assert surplus[..j] == msg[..j];
    }
    assert surplus[0..] + [] == surplus && surplus[..0] == [];
    Crosses(Anyhow, cfg, s, surplus, [], 0);
    var crossed := s.(ab := s.ab.(fwd := Stream([], [], surplus)));
    OffersNext(cfg, crossed);
    var offered := crossed.(a := OfferingNext(s.a), ab := s.ab.(fwd := Stream(offer, [], surplus)));
    Onward(Anyhow, cfg, s, crossed, offered);
    assert msg[k..] + [] == offer && msg[..k] == surplus;
    Crosses(Anyhow, cfg, offered, msg, [], k);
    t := offered.(ab := s.ab.(fwd := Stream([], [], msg)));
    Onward(Anyhow, cfg, s, offered, t);
  }

  /** Nothing is left to hash or to report, and nothing more is written. */
  ghost predicate Silent(p: Peer) {
    p.queue.done && p.queue.todo == [] && !p.queue.owed && p.up.updated && !Updating(p.down.stage)
  }

  /** Peer a waits for an answer, and peer b for the rest of an offer. All else is done. */
  ghost predicate BothWait(t: Sys) {
    && Silent(t.a) && Silent(t.b)
    && t.a.up.stage.UAck? && t.a.up.stage.offer != [] && t.a.down.stage == DDone
    && t.b.up.stage == UDone && t.b.down.stage == DOffer
    && t.ab.fwd.out == [] && t.ab.fwd.wire == [] && Short(t.ab.fwd.inb) && t.ab.back == EMPTY
    && t.ba == StartLink()
  }

  /** No thread can go on then, and the environment changes nothing. */
  lemma WaitsForEver(cfg: Config, t: Sys, m: Move)
    requires BothWait(t)
    ensures !CanMove(cfg, t, m)
  {
    if m.side.A? {
      assert !Enabled(cfg, t, m.act);
    } else {
      assert !Enabled(cfg, Swap(t), m.act);
    }
  }

  /** The other uploader passes over its images, all of which were reported, and this downloader sees it leave. */
  lemma OtherLeaves(cfg: Config, s: Sys) returns (t: Sys)
    requires s.b.up.stage == ULoad && s.b.up.processed == 0 && s.b.published == |s.b.queue.entries| && !s.b.hashing
    requires forall e :: e in s.b.queue.entries ==> e.hash in s.b.up.received
    requires s.a.down.stage == DOffer && s.ba == StartLink()
    ensures Reaches(Anyhow, cfg, s, t)
    ensures t == s.(a := s.a.(down := s.a.down.(stage := DDone)),
                    b := s.b.(up := s.b.up.(stage := UDone, processed := |s.b.queue.entries|)))
  {
    hide Reaches;
    var r := Swap(s);
    PassesAll(Anyhow, cfg, r);
    var left := r.(a := r.a.(up := r.a.up.(stage := UDone, processed := |r.a.queue.entries|)));
    SeesEnd(Anyhow, cfg, left);
    var seen := left.(b := left.b.(down := left.b.down.(stage := DDone)));
    Onward(Anyhow, cfg, r, left, seen);
    OtherReaches(Anyhow, cfg, r, seen);
    t := Swap(seen);
  }

  /** The records that are not awaited, and the offer made after them, are fewer bytes than the first of them asks. */
  ghost predicate TooFew(a: Env, b: Env) {
    |Images(a)| > OFFER_HASHES && Surplus(a, b) != [] &&
    Short(Records(a.files, Surplus(a, b)) + OfferBytes(HashesOf(FirstOffer(Images(a)[OFFER_HASHES..]))))
  }

  lemma AllReported(a: Env, b: Env, known: set<ExifHash>)
    requires HashSet(Images(b)) <= HashSet(Images(a)) && forall e :: e in Images(a) ==> e.hash in known
    ensures forall e :: e in Images(b) ==> e.hash in known
  {
    hide Images;
    AllHeard(a, b, known);
    forall e | e in Images(b)
      ensures e.hash in known
    {
      InHashSet(Images(b), e.hash);
    }
  }

  lemma SurplusOut(a: Env, b: Env, known: set<ExifHash>, s: Sys)
    requires Served(a, b, known, s)
    ensures s.ab == Link(Stream(Records(a.files, Surplus(a, b)), [], []), EMPTY) && s.ba == StartLink()
    ensures s.b.up.updated && s.a.up.updated
  {
    hide Chosen, MissingHashes, Recorded, Records, FirstOffer;
  }

  lemma RecordsSome(files: Files, es: seq<Entry>)
    requires es != []
    ensures Records(files, es) != []
  {
  }

  /** With the written mask the peers can come to wait for each other for ever: peer b for the rest of an offer whose
      number of hashes is the length of a name, peer a for the answer to an offer that was read as part of it. */
  lemma WaitForEachOther(cfg: Config, a: Env, b: Env) returns (t: Sys)
    requires ValidEnv(a) && cfg.mask.Written? && HashSet(Images(b)) <= HashSet(Images(a)) && TooFew(a, b)
    ensures Reaches(Anyhow, cfg, StartSys(a, b), t) && !Final(t) && forall m :: !CanMove(cfg, t, m)
    ensures !t.a.up.stage.UFatal? && !t.b.up.stage.UFatal? && !t.a.down.stage.DFatal? && !t.b.down.stage.DFatal?
  {
    hide Reaches, Flags, HashSet, InStep, Records, OfferBytes, HashesOf, Images, Short, Served, Surplus;
    var start := StartSys(a, b);
    var s, known := Serves(Anyhow, cfg, a, b);
    SurplusStage(a, b, known, s);
    SurplusOut(a, b, known, s);
    RecordsSome(a.files, Surplus(a, b));
    var read := NextOfferRead(cfg, s, Records(a.files, Surplus(a, b)));
    Onward(Anyhow, cfg, start, s, read);
    AllReported(a, b, known);
    t := OtherLeaves(cfg, read);
    Onward(Anyhow, cfg, start, read, t);
    hide FirstOffer;
    assert BothWait(t);
    forall m
      ensures !CanMove(cfg, t, m)
    {
      hide BothWait, CanMove;
      WaitsForEver(cfg, t, m);
    }
  }

  // ----- giving up at the end of the stream -----

  lemma AllPublished(a: Env, b: Env, known: set<ExifHash>, s: Sys)
    requires Served(a, b, known, s) && |Images(a)| <= OFFER_HASHES
    ensures s.a.up.processed == s.a.published == |s.a.queue.entries|
  {
    hide Chosen, MissingHashes, Recorded, Records;
  }

  /** Where there is no further offer, records that are not awaited and are fewer bytes than the first of them asks make
      the downloader give up when the uploader has left. */
  lemma SurplusCutShort(cfg: Config, a: Env, b: Env) returns (t: Sys)
    requires ValidEnv(a) && cfg.mask.Written? && 0 < |Images(a)| <= OFFER_HASHES
    requires Surplus(a, b) != [] && Short(Records(a.files, Surplus(a, b)))
    ensures Reaches(Anyhow, cfg, StartSys(a, b), t) && t.a.up.stage.UDone? && t.b.down.stage.DFatal?
  {
    hide Reaches, Flags, HashSet, InStep, Records, Images, Short, Served, Surplus, Reads;
    var start, msg := StartSys(a, b), Records(a.files, Surplus(a, b));
    var s, known := Serves(Anyhow, cfg, a, b);
    SurplusStage(a, b, known, s);
    SurplusOut(a, b, known, s);
    AllPublished(a, b, known, s);
    forall j | 0 <= j < |msg|
      ensures Reads(DOffer, msg[..j])
    {
      ShortReads(msg, j);
    }
    assert msg[0..] + [] == msg && msg[..0] == [];
    Crosses(Anyhow, cfg, s, msg, [], 0);
    var read := s.(ab := s.ab.(fwd := Stream([], [], msg)));
    Onward(Anyhow, cfg, start, s, read);
    Leaves(Anyhow, cfg, read);
    var left := read.(a := read.a.(up := read.a.up.(stage := UDone)));
    Onward(Anyhow, cfg, start, read, left);
    t := CutShort(cfg, start, left);
  }

  /** A downloader in the midst of an offer sees that the uploader has left. */
  lemma CutShort(cfg: Config, start: Sys, s: Sys) returns (t: Sys)
    requires Reaches(Anyhow, cfg, start, s) && s.a.up.stage.UDone? && s.b.down.stage == DOffer
    requires s.ab.fwd.out == [] && s.ab.fwd.wire == [] && Short(s.ab.fwd.inb) && s.ab.back == EMPTY
    ensures Reaches(Anyhow, cfg, start, t) && t.a.up.stage.UDone? && t.b.down.stage.DFatal?
  {
    hide Reaches;
    OnB(Anyhow, cfg, start, s, EndOfUpload);
    t := s.(b := s.b.(down := s.b.down.(stage := DFatal)));
  }

  // ----- a case of this: two images in common, the first ones -----

  lemma {:induction false} SelectsAll(es: seq<Entry>, found: seq<bool>)
    requires |es| == |found| && forall i :: 0 <= i < |found| ==> !found[i]
    ensures Select(es, found) == es
  {
    if es != [] {
      SelectsAll(es[1..], found[1..]);
    }
  }

  ghost predicate OnlyFirst(found: seq<bool>, n: nat) {
    forall i :: 0 <= i < |found| ==> (found[i] <==> i < n)
  }

  /** The answer to two found hashes at the beginning tells of one only. */
  lemma TwoReadAsOne(found: seq<bool>)
    requires |found| >= 2 && OnlyFirst(found, 2)
    ensures OnlyFirst(Decode(Written, Encode(Written, found), |found|), 1)
  {
    assert MissingBefore(found, 0) == 0 && MissingBefore(found, 1) == 0;
    forall k: nat | k < |found|
      ensures Decode(Written, Encode(Written, found), |found|)[k] <==> k < 1
    {
      DecodedSlot(found, k);
      InSlotsTo(found, |found|, k);
      assert found[0];
    }
  }

  lemma TwoNotInStep(found: seq<bool>)
    requires |found| >= 2 && OnlyFirst(found, 2)
    ensures !InStep(found)
  {
    assert found[0] && found[1];
  }

  /** All but one are sent, and all but two are awaited. */
  lemma TwoFoundChosen(es: seq<Entry>, have: set<ExifHash>)
    requires |es| >= 2 && OnlyFirst(Flags(HashesOf(es), have), 2)
    ensures Chosen(es, have) == es[1..] && |MissingHashes(HashesOf(es), have)| == |es| - 2
  {
    var found := Flags(HashesOf(es), have);
    var read := Decode(Written, Encode(Written, found), |es|);
    TwoReadAsOne(found);
    SelectIsNotIn(es, have);
    hide Encode, Decode, Flags, HashesOf, MissingHashes, NotIn;
    assert read[0] && found[0] && found[1];
    SelectsAll(es[1..], read[1..]);
    SelectsAll(es[1..][1..], found[1..][1..]);
    assert Select(es[1..], found[1..]) == es[1..][1..];
  }

  lemma TwoFoundSurplus(a: Env, b: Env)
    requires |Images(a)| >= OFFER_HASHES
    requires OnlyFirst(Flags(HashesOf(FirstOffer(Images(a))), HashSet(Images(b))), 2)
    ensures !InStep(Flags(HashesOf(FirstOffer(Images(a))), HashSet(Images(b))))
    ensures Surplus(a, b) == [Images(a)[OFFER_HASHES - 1]]
  {
    hide HashSet, Images, Flags, Chosen, MissingHashes, HashesOf, InStep, OnlyFirst;
    var es := FirstOffer(Images(a));
    TwoNotInStep(Flags(HashesOf(es), HashSet(Images(b))));
    TwoFoundChosen(es, HashSet(Images(b)));
    assert es[1..][OFFER_HASHES - 2..] == [es[OFFER_HASHES - 1]];
  }

  lemma OneRecord(files: Files, e: Entry)
    ensures Records(files, [e]) == RecordBytes(RecordOf(files, e))
  {
    assert [e][1..] == [];
    assert Records(files, []) == [];
  }

  /** The last image of the first offer has a name that is long enough, and not too long, for its contents. */
  ghost predicate NameAsksMore(a: Env)
    requires |Images(a)| > OFFER_HASHES
  {
    var r := RecordOf(a.files, Images(a)[OFFER_HASHES - 1]);
    |r.name| <= OFFER_HASHES && 5 + |r.body| + 20 * |FirstOffer(Images(a)[OFFER_HASHES..])| < 19 * |r.name|
  }

  lemma TwoFoundTooFew(a: Env, b: Env)
    requires |Images(a)| > OFFER_HASHES && NameAsksMore(a)
    requires OnlyFirst(Flags(HashesOf(FirstOffer(Images(a))), HashSet(Images(b))), 2)
    ensures TooFew(a, b)
  {
    hide HashSet, Images, Flags, SentName, Surplus;
    TwoFoundSurplus(a, b);
    OneRecord(a.files, Images(a)[OFFER_HASHES - 1]);
  }

  /** More than 26 images, of which the other peer has the first two and none of the next 24, are enough. */
  lemma TwoFoundWait(cfg: Config, a: Env, b: Env) returns (t: Sys)
    requires ValidEnv(a) && cfg.mask.Written? && HashSet(Images(b)) <= HashSet(Images(a))
    requires |Images(a)| > OFFER_HASHES && NameAsksMore(a)
    requires forall i :: 0 <= i < OFFER_HASHES ==> (Images(a)[i].hash in HashSet(Images(b)) <==> i < 2)
    ensures Reaches(Anyhow, cfg, StartSys(a, b), t) && !Final(t) && forall m :: !CanMove(cfg, t, m)
  {
    hide Reaches, CanMove, HashSet, Images, InStep, TooFew, NameAsksMore;
    assert OnlyFirst(Flags(HashesOf(FirstOffer(Images(a))), HashSet(Images(b))), 2);
    TwoFoundSurplus(a, b);
    TwoFoundTooFew(a, b);
    t := WaitForEachOther(cfg, a, b);
  }

  // ----- 27 small images, of which peer b has the first two -----

  function Small(i: byte): Entry {
    Entry(ExifHash(i, 0, 0, 0, 0), [97, i])
  }

  function SmallOnes(n: byte): (es: seq<Entry>)
    ensures |es| == n
  {
    seq(n, i requires 0 <= i < n => Small(i))
  }

  function SmallEnv(n: byte): Env {
    var files := map p | p in SmallOnes(n) :: p.path := [0];
    Env(SourcesOf(SmallOnes(n)), files, {}, [100])
  }

  lemma SmallImages(n: byte)
    ensures Images(SmallEnv(n)) == SmallOnes(n) && ValidEnv(SmallEnv(n))
  {
    ListedAll(SmallOnes(n), 0);
  }

  lemma SmallHashes(n: byte, i: byte)
    ensures Small(i).hash in HashSet(SmallOnes(n)) <==> i < n
  {
    InHashSet(SmallOnes(n), Small(i).hash);
    if i < n {
      assert SmallOnes(n)[i].hash == Small(i).hash;
    }
  }

  lemma SmallHashesIn(n: byte, m: byte)
    requires n <= m
    ensures HashSet(SmallOnes(n)) <= HashSet(SmallOnes(m))
  {
    assert SmallOnes(n) <= SmallOnes(m);
    HashSetMonotone(SmallOnes(n), SmallOnes(m));
  }

  lemma SmallName(i: byte)
    requires i != SLASH
    ensures SentName([97, i]) == [97, i]
  {
    assert Basename([97]) == Basename([]) + [97];
    assert [97, i][..1] == [97];
  }

  lemma SmallRecord(n: byte, i: byte)
    requires i < n && i != SLASH
    ensures RecordOf(SmallEnv(n).files, SmallOnes(n)[i]) == Record([97, i], [0])
  {
    hide SentName, SourcesOf;
    SmallName(i);
    assert SmallOnes(n)[i] == Small(i);
  }

  lemma SmallAsks()
    ensures Images(SmallEnv(27)) == SmallOnes(27) && NameAsksMore(SmallEnv(27))
  {
    SmallImages(27);
    SmallRecord(27, OFFER_HASHES - 1);
    hide Images, SmallEnv, RecordOf, SmallOnes;
    assert |FirstOffer(SmallOnes(27)[OFFER_HASHES..])| == 1;
  }

  lemma SmallFound()
    ensures forall i :: 0 <= i < OFFER_HASHES ==> (SmallOnes(27)[i].hash in HashSet(SmallOnes(2)) <==> i < 2)
  {
    forall i: byte | i < OFFER_HASHES
      ensures SmallOnes(27)[i].hash in HashSet(SmallOnes(2)) <==> i < 2
    {
      SmallHashes(2, i);
    }
  }

  /** Two valid peers that end up waiting for each other. */
  lemma SmallOnesWait(cfg: Config) returns (t: Sys)
    requires cfg.mask.Written?
    ensures ValidEnv(SmallEnv(27)) && ValidEnv(SmallEnv(2))
    ensures Reaches(Anyhow, cfg, StartSys(SmallEnv(27), SmallEnv(2)), t) && !Final(t) && forall m :: !CanMove(cfg, t, m)
  {
    var a, b := SmallEnv(27), SmallEnv(2);
    SmallImages(27);
    SmallImages(2);
    SmallAsks();
    SmallHashesIn(2, 27);
    SmallFound();
    hide Reaches, CanMove, HashSet, Images, SmallEnv, NameAsksMore, SmallOnes;
    t := TwoFoundWait(cfg, a, b);
  }
}

// What the written mask does to whole runs: the first offer of a peer, from its making to the records that it
// brings, and exactly when all answers are read as is asked.
module MaskRuns {
  import opened Codec
  import opened Entries
  import opened FoundMask
  import opened MaskErrors
  import opened Framing
  import opened Hasher
  import opened FileStore
  import opened SyncModel
  import opened SyncInvariant
  import opened SyncRuns
  import opened SyncReach

  // ----- the first offer, with nothing reported -----

  lemma {:induction false} NotInNone(es: seq<Entry>)
    ensures NotIn(es, {}) == es
  {
    if es != [] {
      NotInNone(es[1..]);
    }
  }

  function FirstOffer(es: seq<Entry>): (offer: seq<Entry>)
    ensures |offer| <= OFFER_HASHES
  {
    if |es| <= OFFER_HASHES then es else es[..OFFER_HASHES]
  }

  lemma ScanFirst(es: seq<Entry>)
    requires es != []
    ensures Scan(es, 0, |es|, {}, []) == Scanned(|FirstOffer(es)|, FirstOffer(es))
  {
    ScanFinds(es, 0, |es|, {}, []);
    var r := Scan(es, 0, |es|, {}, []);
    NotInNone(es[0..r.processed]);
    assert [] + es[0..r.processed] == es[0..r.processed];
  }

  ghost predicate Loads(p: Peer) {
    p.up.stage == ULoad && p.up.processed == 0 && 0 < p.published == |p.queue.entries|
  }

  function Offering(p: Peer): Peer {
    var offer := FirstOffer(p.queue.entries);
    p.(up := p.up.(stage := UAck(offer), processed := |offer|, offered := p.up.offered + offer))
  }

  /** An uploader to which nothing was reported offers the images from the first one on. */
  lemma OffersFirst(how: Answers, cfg: Config, s: Sys)
    requires Loads(s.a) && s.a.up.received == {} && s.ab.fwd == EMPTY
    ensures var msg := OfferBytes(HashesOf(FirstOffer(s.a.queue.entries)));
            Reaches(how, cfg, s, s.(a := Offering(s.a), ab := s.ab.(fwd := Stream(msg, [], []))))
  {
    hide Reaches, OfferBytes, HashesOf, Scan;
    ScanFirst(s.a.queue.entries);
    Stays(how, cfg, s);
    OnA(how, cfg, s, s, LoadCount);
  }

  lemma OfferCrosses(how: Answers, cfg: Config, s: Sys, hs: seq<ExifHash>)
    requires s.ab.fwd == Stream(OfferBytes(hs), [], []) && s.ab.back.out == [] && |hs| <= OFFER_HASHES
    requires s.b.down.stage == DOffer
    ensures Reaches(how, cfg, s, s.(ab := s.ab.(fwd := Stream([], [], OfferBytes(hs)))))
  {
    var msg := OfferBytes(hs);
    forall j | 0 <= j < |msg|
      ensures Reads(DOffer, msg[..j])
    {
      OfferDelimited(hs, msg[..j]);
    }
    hide Reaches, Reads, OfferBytes;
    assert msg[0..] + [] == msg && msg[..0] == [];
    Crosses(how, cfg, s, msg, [], 0);
  }

  /** Both peers have told everything. Peer b has heard peer a, and peer a has not heard peer b. */
  ghost predicate Ready(a: Env, b: Env, known: set<ExifHash>, s: Sys) {
    && s.a == Updated(Told(StartPeer(a))).(down := Downloader(DOffer, []))
    && s.b == Updated(Knowing(Told(StartPeer(b)), known)).(down := Downloader(DOffer, []))
    && s.ab == StartLink() && s.ba == StartLink()
  }

  lemma ToldStages(p: Peer)
    ensures Told(p).down == p.down.(stage := DAnnounce) && Told(p).up == p.up && !Told(p).hashing
    ensures Told(p).queue.entries == Listed(HASHER_RULE, [], p.queue.todo)
    ensures Told(p).published == |Told(p).queue.entries|
    ensures Told(p).env == p.env && Told(p).files == p.files
  {
  }

  lemma AToldFirst(how: Answers, cfg: Config, a: Env, b: Env) returns (t: Sys, known: set<ExifHash>)
    ensures Reaches(how, cfg, StartSys(a, b), t)
    ensures t.a == Told(StartPeer(a)).(down := Downloader(DOffer, [])) && t.b == Updated(Knowing(StartPeer(b), known))
    ensures t.ab == StartLink() && t.ba == StartLink()
    ensures forall e :: e in Images(a) ==> e.hash in known
  {
    hide Reaches, Told;
    var s := StartSys(a, b);
    var toB;
    toB, known := TellAll(how, cfg, s, true);
    var told := s.(a := Told(s.a), b := Knowing(s.b, known), toB := toB);
    ToldStages(s.a);
    AnnounceSeen(how, cfg, told);
    t := told.(a := told.a.(down := told.a.down.(stage := DOffer)), b := Updated(told.b));
    Onward(how, cfg, s, told, t);
  }

  lemma ToldLater(p: Peer, known: set<ExifHash>)
    ensures Told(Updated(Knowing(p, known))) == Updated(Knowing(Told(p), known))
  {
  }

  lemma BothReady(how: Answers, cfg: Config, a: Env, b: Env) returns (t: Sys, known: set<ExifHash>)
    ensures Reaches(how, cfg, StartSys(a, b), t) && Ready(a, b, known, t)
    ensures forall e :: e in Images(a) ==> e.hash in known
  {
    hide Reaches, Told;
    var s;
    s, known := AToldFirst(how, cfg, a, b);
    var r := Swap(s);
    ToldStages(StartPeer(a));
    ToldStages(r.a);
    ToldLater(StartPeer(b), known);
    var toA, none := TellAll(how, cfg, r, false);
    var told := r.(a := Told(r.a), b := Knowing(r.b, none), toB := toA);
    assert told.b == r.b;
    AnnounceSeen(how, cfg, told);
    var seen := told.(a := told.a.(down := told.a.down.(stage := DOffer)), b := Updated(told.b));
    Onward(how, cfg, r, told, seen);
    OtherReaches(how, cfg, r, seen);
    t := Swap(seen);
    Onward(how, cfg, StartSys(a, b), s, t);
  }

  /** The first offer of a peer has arrived. */
  ghost predicate OfferIn(a: Env, b: Env, known: set<ExifHash>, s: Sys) {
    var offer := FirstOffer(Images(a));
    && s.a == Offering(Updated(Told(StartPeer(a))).(down := Downloader(DOffer, [])))
    && s.a.up == Uploader(UAck(offer), |offer|, true, {}, offer, [])
    && s.b == Updated(Knowing(Told(StartPeer(b)), known)).(down := Downloader(DOffer, []))
    && s.ab == Link(Stream([], [], OfferBytes(HashesOf(offer))), EMPTY) && s.ba == StartLink()
  }

  lemma FirstOfferArrives(how: Answers, cfg: Config, a: Env, b: Env) returns (t: Sys, known: set<ExifHash>)
    requires Images(a) != []
    ensures Reaches(how, cfg, StartSys(a, b), t) && OfferIn(a, b, known, t) && t.b.queue.entries == Images(b)
    ensures forall e :: e in Images(a) ==> e.hash in known
  {
    hide Reaches, OfferBytes, HashesOf, Told;
    var start := StartSys(a, b);
    var s;
    s, known := BothReady(how, cfg, a, b);
    ToldStages(StartPeer(a));
    ToldStages(StartPeer(b));
    OffersFirst(how, cfg, s);
    var hs := HashesOf(FirstOffer(Images(a)));
    var offered := s.(a := Offering(s.a), ab := s.ab.(fwd := Stream(OfferBytes(hs), [], [])));
    Onward(how, cfg, start, s, offered);
    OfferCrosses(how, cfg, offered, hs);
    t := offered.(ab := offered.ab.(fwd := Stream([], [], OfferBytes(hs))));
    Onward(how, cfg, start, offered, t);
    assert [] + FirstOffer(Images(a)) == FirstOffer(Images(a));
  }

  // ----- from the offer to the records -----

  lemma CanDecide(how: Answers, cfg: Config, t: Sys, hs: seq<ExifHash>)
    requires t.ab.fwd == Stream([], [], OfferBytes(hs)) && |hs| <= OFFER_HASHES
    requires t.b.down.stage == DOffer && t.ab.back == EMPTY
    ensures Enabled(cfg, Swap(t), Decide)
    ensures OfferAgrees(how, cfg, Swap(t)) <==> Fits(how, cfg.mask, Flags(hs, HashSet(t.b.queue.entries)))
  {
    OfferRoundTrip(hs);
    OfferDelimited(hs, OfferBytes(hs));
    hide OfferBytes, HashSet, Fits;
  }

  /** The downloader decides, as the program is written. */
  lemma Decides(how: Answers, cfg: Config, s: Sys, hs: seq<ExifHash>)
    requires cfg.mask.Written? && s.ab == Link(Stream([], [], OfferBytes(hs)), EMPTY) && |hs| <= OFFER_HASHES
    requires s.b.down.stage == DOffer && Fits(how, Written, Flags(hs, HashSet(s.b.queue.entries)))
    ensures var have := HashSet(s.b.queue.entries);
            Reaches(how, cfg, s, s.(b := s.b.(down := s.b.down.(stage := AfterOffer(MissingHashes(hs, have)))),
                               ab := Link(EMPTY, Stream(Encode(Written, Flags(hs, have)), [], []))))
  {
    OfferRoundTrip(hs);
    CanDecide(how, cfg, s, hs);
    hide Reaches, OfferBytes, HashSet, Encode, Flags, MissingHashes, Enabled, Step, OfferNeed, OfferHashes;
    hide OfferAgrees, Fits;
    Stays(how, cfg, s);
    OnB(how, cfg, s, s, Decide);
    DecideStep(cfg, Swap(s), hs);
  }

  lemma DecideStep(cfg: Config, s: Sys, hs: seq<ExifHash>)
    requires Enabled(cfg, s, Decide) && hs == OfferHashes(s.ba.fwd.inb)
    requires s.ba == Link(Stream([], [], s.ba.fwd.inb), EMPTY)
    ensures var have := HashSet(s.a.queue.entries);
            Step(cfg, s, Decide) ==
            s.(a := s.a.(down := s.a.down.(stage := AfterOffer(MissingHashes(hs, have)))),
               ba := Link(EMPTY, Stream(Encode(cfg.mask, Flags(hs, have)), [], [])))
  {
    hide OfferHashes, HashSet, Encode, Flags, MissingHashes;
  }

  /** An answer gets across, byte by byte. */
  lemma {:induction false} AnswerCrosses(how: Answers, cfg: Config, s: Sys, mask: seq<byte>, i: nat)
    requires i <= |mask| && s.ab.back == Stream(mask[i..], [], mask[..i]) && s.ab.fwd.out == []
    requires s.a.up.stage.UAck? && MaskSize(|s.a.up.stage.offer|) == |mask|
    ensures Reaches(how, cfg, s, s.(ab := s.ab.(back := Stream([], [], mask))))
    decreases |mask| - i
  {
    hide Reaches;
    if i == |mask| {
      Stays(how, cfg, s);
      assert mask[i..] == [] && mask[..i] == mask;
    } else {
      assert mask[i..] == [mask[i]] + mask[i + 1..] && mask[..i + 1] == mask[..i] + [mask[i]];
      AnswerByte(how, cfg, s, mask[i], mask[i + 1..]);
      var t := s.(ab := s.ab.(back := Stream(mask[i + 1..], [], mask[..i + 1])));
      AnswerCrosses(how, cfg, t, mask, i + 1);
      Onward(how, cfg, s, t, t.(ab := t.ab.(back := Stream([], [], mask))));
    }
  }

  lemma AnswerByte(how: Answers, cfg: Config, s: Sys, b: byte, left: seq<byte>)
    requires s.ab.back.out == [b] + left && s.ab.back.wire == [] && s.ab.fwd.out == []
    requires |s.ab.back.inb| < AnswerNeed(s.a.up)
    ensures Reaches(how, cfg, s, s.(ab := s.ab.(back := Stream(left, [], s.ab.back.inb + [b]))))
  {
    hide Reaches;
    Stays(how, cfg, s);
    OnB(how, cfg, s, s, WriteAnswer(1));
    var back := Stream(left, [b], s.ab.back.inb);
    assert WriteSome(s.ab.back, 1) == back;
    OnA(how, cfg, s, s.(ab := s.ab.(back := back)), ReadAnswer(1));
    assert ReadSome(back, 1) == Stream(left, [], s.ab.back.inb + [b]);
  }

  /** The uploader sends what it takes from the answer. */
  lemma Sends(how: Answers, cfg: Config, s: Sys, chosen: seq<Entry>)
    requires s.a.up.stage.UAck? && |s.ab.back.inb| == MaskSize(|s.a.up.stage.offer|)
    requires s.ab == Link(EMPTY, Stream([], [], s.ab.back.inb))
    requires chosen == Select(s.a.up.stage.offer, Decode(cfg.mask, s.ab.back.inb, |s.a.up.stage.offer|))
    requires forall e :: e in chosen ==> Contents(s.a.files, e.path) != []
    ensures Reaches(how, cfg, s, s.(a := s.a.(up := s.a.up.(stage := ULoad, sent := s.a.up.sent + chosen)),
                               ab := Link(Stream(Records(s.a.files, chosen), [], []), EMPTY)))
  {
    hide Reaches, Records, Select, Decode;
    Stays(how, cfg, s);
    SendMissingStep(cfg, s, chosen);
    OnA(how, cfg, s, s, SendMissing);
  }

  // ----- records under the hashes that are awaited -----

  lemma RecordCrosses(how: Answers, cfg: Config, s: Sys, r: Record, rest: seq<byte>)
    requires s.ab.fwd == Stream(RecordBytes(r) + rest, [], []) && s.ab.back.out == [] && Sendable(r)
    requires s.b.down.stage.DRecords?
    ensures Reaches(how, cfg, s, s.(ab := s.ab.(fwd := Stream(rest, [], RecordBytes(r)))))
  {
    var msg := RecordBytes(r);
    forall j | 0 <= j < |msg|
      ensures Reads(s.b.down.stage, msg[..j])
    {
      RecordDelimited(r, msg[..j]);
    }
    hide Reaches, Reads, RecordBytes;
    assert msg[0..] == msg && msg[..0] == [];
    Crosses(how, cfg, s, msg, rest, 0);
  }

  /** Whatever record arrives is stored under the hash that is awaited next. */
  lemma StoresNext(how: Answers, cfg: Config, s: Sys, r: Record, rest: seq<byte>) returns (files: Files, d: Download)
    requires s.ab.fwd == Stream(rest, [], RecordBytes(r)) && s.ab.back.out == [] && Sendable(r)
    requires s.b.down.stage.DRecords? && s.b.down.stage.missing != []
    ensures d.hash == s.b.down.stage.missing[0] && d.record == r
    ensures var stage := AfterOffer(s.b.down.stage.missing[1..]);
            Reaches(how, cfg, s, s.(b := s.b.(files := files, down := Downloader(stage, s.b.down.got + [d])),
                               ab := s.ab.(fwd := Stream(rest, [], []))))
  {
    RecordRoundTrip(r);
    hide Reaches, RecordBytes, Save, ParseRecord, RecordNeed;
    Stays(how, cfg, s);
    OnB(how, cfg, s, s, Store);
    var stored := Save(s.b.files, s.b.env.locked, s.b.env.dir, s.b.down.stage.missing[0], r);
    files, d := stored.files, Download(s.b.down.stage.missing[0], r, stored.path);
  }

  ghost predicate Recorded(got: seq<Download>, hs: seq<ExifHash>, files: Files, es: seq<Entry>) {
    && |got| == |hs| == |es|
    && forall i :: 0 <= i < |got| ==> got[i].hash == hs[i] && got[i].record == RecordOf(files, es[i])
  }

  /** As many records as are awaited are stored under the awaited hashes, one after the other. */
  lemma {:induction false} StoresAll(how: Answers, cfg: Config, s: Sys, hs: seq<ExifHash>, es: seq<Entry>,
                                     after: seq<byte>)
    returns (files: Files, got: seq<Download>)
    requires s.b.down.stage == AfterOffer(hs) && |hs| == |es|
    requires s.ab == Link(Stream(Records(s.a.files, es) + after, [], []), EMPTY)
    requires forall e :: e in es ==> Sendable(RecordOf(s.a.files, e))
    ensures Recorded(got, hs, s.a.files, es)
    ensures Reaches(how, cfg, s, s.(b := s.b.(files := files, down := Downloader(DOffer, s.b.down.got + got)),
                                    ab := Link(Stream(after, [], []), EMPTY)))
    decreases |es|
  {
    hide Reaches, RecordBytes, RecordOf, Sendable;
    if es == [] {
      files, got := s.b.files, [];
      Stays(how, cfg, s);
      assert s.b.down.got + [] == s.b.down.got && [] + after == after;
    } else {
      var r, rest := RecordOf(s.a.files, es[0]), Records(s.a.files, es[1..]) + after;
      assert Records(s.a.files, es) + after == RecordBytes(r) + rest;
      RecordCrosses(how, cfg, s, r, rest);
      var crossed := s.(ab := s.ab.(fwd := Stream(rest, [], RecordBytes(r))));
      var d;
      files, d := StoresNext(how, cfg, crossed, r, rest);
      var t := crossed.(b := s.b.(files := files, down := Downloader(AfterOffer(hs[1..]), s.b.down.got + [d])),
                        ab := s.ab.(fwd := Stream(rest, [], [])));
      Onward(how, cfg, s, crossed, t);
      var more;
      files, more := StoresAll(how, cfg, t, hs[1..], es[1..], after);
      got := [d] + more;
      assert s.b.down.got + [d] + more == s.b.down.got + got;
      var end := t.(b := t.b.(files := files, down := Downloader(DOffer, t.b.down.got + more)),
                    ab := Link(Stream(after, [], []), EMPTY));
      Onward(how, cfg, s, t, end);
    }
  }

  lemma ImageSendable(env: Env, e: Entry)
    requires ValidEnv(env) && e in Images(env)
    ensures Sendable(RecordOf(env.files, e)) && Contents(env.files, e.path) != []
  {
    ListedFrom(HASHER_RULE, [], env.sources, e);
    assert Source(e.path, Some(e.hash)) in env.sources;
  }

  function SourcesOf(es: seq<Entry>): (sources: seq<Source>)
    ensures |sources| == |es|
  {
    seq(|es|, i requires 0 <= i < |es| => Source(es[i].path, Some(es[i].hash)))
  }

  /** Paths with hashes that all differ are all listed. */
  lemma {:induction false} ListedAll(es: seq<Entry>, i: nat)
    requires i <= |es| && Distinct(es)
    ensures Listed(HASHER_RULE, es[..i], SourcesOf(es)[i..]) == es
    decreases |es| - i
  {
    if i == |es| {
      assert es[..i] == es;
    } else {
      InHashSet(es[..i], es[i].hash);
      assert es[..i + 1] == es[..i] + [es[i]] && SourcesOf(es)[i..][1..] == SourcesOf(es)[i + 1..];
      ListedAll(es, i + 1);
    }
  }

  // ----- the whole of the first offer -----

  lemma {:induction false} RecordsAppend(files: Files, x: seq<Entry>, y: seq<Entry>)
    ensures Records(files, x + y) == Records(files, x) + Records(files, y)
  {
    if x == [] {
      assert x + y == y;
    } else {
      assert (x + y)[1..] == x[1..] + y;
      RecordsAppend(files, x[1..], y);
    }
  }

  /** The first offer was answered, and as many records as are awaited were stored; the surplus is still to be read. */
  ghost predicate Served(a: Env, b: Env, known: set<ExifHash>, s: Sys) {
    var offer, have := FirstOffer(Images(a)), HashSet(Images(b));
    var chosen, hs := Chosen(offer, have), MissingHashes(HashesOf(offer), have);
    && |hs| <= |chosen|
    && s.a == Updated(Told(StartPeer(a))).(up := Uploader(ULoad, |offer|, true, {}, offer, chosen),
                                           down := Downloader(DOffer, []))
    && s.b == Updated(Knowing(Told(StartPeer(b)), known)).(files := s.b.files, down := Downloader(DOffer, s.b.down.got))
    && Recorded(s.b.down.got, hs, a.files, chosen[..|hs|])
    && s.ab == Link(Stream(Records(a.files, chosen[|hs|..]), [], []), EMPTY) && s.ba == StartLink()
  }

  lemma NeverFewer(es: seq<Entry>, have: set<ExifHash>)
    ensures |MissingHashes(HashesOf(es), have)| <= |Chosen(es, have)|
    ensures |MissingHashes(HashesOf(es), have)| == |Chosen(es, have)| <==> InStep(Flags(HashesOf(es), have))
  {
    SelectIsNotIn(es, have);
    WrittenRecordCount(es, have);
    hide InStep, Chosen, MissingHashes;
  }

  lemma AnswerSize(es: seq<Entry>, have: set<ExifHash>)
    ensures |Encode(Written, Flags(HashesOf(es), have))| == MaskSize(|es|)
    ensures Chosen(es, have) == Select(es, Decode(Written, Encode(Written, Flags(HashesOf(es), have)), |es|))
  {
  }

  lemma ChosenFrom(es: seq<Entry>, have: set<ExifHash>, e: Entry)
    requires e in Chosen(es, have)
    ensures e in es
  {
    InSelect(es, Decode(Written, Encode(Written, Flags(HashesOf(es), have)), |es|), e);
  }

  lemma ChosenImages(env: Env, have: set<ExifHash>)
    requires ValidEnv(env)
    ensures forall e :: e in Chosen(FirstOffer(Images(env)), have) ==>
              Sendable(RecordOf(env.files, e)) && Contents(env.files, e.path) != []
  {
    hide Chosen, Images;
    forall e | e in Chosen(FirstOffer(Images(env)), have)
      ensures Sendable(RecordOf(env.files, e)) && Contents(env.files, e.path) != []
    {
      ChosenFrom(FirstOffer(Images(env)), have, e);
      ImageSendable(env, e);
    }
  }

  /** The answer to the first offer has arrived. */
  lemma AnswerIn(how: Answers, cfg: Config, a: Env, b: Env, s: Sys, known: set<ExifHash>) returns (t: Sys)
    requires cfg.mask.Written? && OfferIn(a, b, known, s) && s.b.queue.entries == Images(b)
    requires Fits(how, Written, Flags(HashesOf(FirstOffer(Images(a))), HashSet(Images(b))))
    ensures Reaches(how, cfg, s, t)
    ensures var hs, have := HashesOf(FirstOffer(Images(a))), HashSet(Images(b));
            t == s.(b := s.b.(down := Downloader(AfterOffer(MissingHashes(hs, have)), [])),
                    ab := Link(EMPTY, Stream([], [], Encode(Written, Flags(hs, have)))))
  {
    hide Reaches, Told, OfferBytes, HashesOf, Encode, Flags, MissingHashes, HashSet, Fits;
    var offer, have := FirstOffer(Images(a)), HashSet(Images(b));
    var hs := HashesOf(offer);
    Decides(how, cfg, s, hs);
    var mask := Encode(Written, Flags(hs, have));
    var decided := s.(b := s.b.(down := s.b.down.(stage := AfterOffer(MissingHashes(hs, have)))),
                      ab := Link(EMPTY, Stream(mask, [], [])));
    AnswerSize(offer, have);
    assert mask[0..] == mask && mask[..0] == [];
    AnswerCrosses(how, cfg, decided, mask, 0);
    t := decided.(ab := Link(EMPTY, Stream([], [], mask)));
    Onward(how, cfg, s, decided, t);
  }

  lemma Serves(how: Answers, cfg: Config, a: Env, b: Env) returns (t: Sys, known: set<ExifHash>)
    requires ValidEnv(a) && cfg.mask.Written? && Images(a) != []
    requires Fits(how, Written, Flags(HashesOf(FirstOffer(Images(a))), HashSet(Images(b))))
    ensures Reaches(how, cfg, StartSys(a, b), t) && Served(a, b, known, t)
    ensures forall e :: e in Images(a) ==> e.hash in known
  {
    hide Reaches, Told, HashesOf, Encode, Decode, Flags, MissingHashes, HashSet, Records, Recorded;
    hide Fits, Chosen, OfferBytes;
    var start := StartSys(a, b);
    var offer, have := FirstOffer(Images(a)), HashSet(Images(b));
    var hs, chosen := MissingHashes(HashesOf(offer), have), Chosen(offer, have);
    var k := |hs|;
    var s;
    s, known := FirstOfferArrives(how, cfg, a, b);
    var answered := AnswerIn(how, cfg, a, b, s, known);
    Onward(how, cfg, start, s, answered);
    ToldStages(StartPeer(a));
    ToldStages(StartPeer(b));
    AnswerSize(offer, have);
    NeverFewer(offer, have);
    ChosenImages(a, have);
    Sends(how, cfg, answered, chosen);
    assert [] + chosen == chosen;
    var sent := answered.(a := answered.a.(up := answered.a.up.(stage := ULoad, sent := chosen)),
                          ab := Link(Stream(Records(a.files, chosen), [], []), EMPTY));
    Onward(how, cfg, start, answered, sent);
    var after := Records(a.files, chosen[k..]);
    assert chosen == chosen[..k] + chosen[k..];
    RecordsAppend(a.files, chosen[..k], chosen[k..]);
    var files, got := StoresAll(how, cfg, sent, hs, chosen[..k], after);
    assert [] + got == got;
    t := sent.(b := sent.b.(files := files, down := Downloader(DOffer, got)), ab := Link(Stream(after, [], []), EMPTY));
    Onward(how, cfg, start, sent, t);
  }

  // ----- leaving -----

  lemma {:induction false} NotInAll(es: seq<Entry>, have: set<ExifHash>)
    requires forall e :: e in es ==> e.hash in have
    ensures NotIn(es, have) == []
  {
    if es != [] {
      NotInAll(es[1..], have);
    }
  }

  lemma ScanAll(es: seq<Entry>, received: set<ExifHash>)
    requires es != [] && forall e :: e in es ==> e.hash in received
    ensures Scan(es, 0, |es|, received, []) == Scanned(|es|, [])
  {
    ScanFinds(es, 0, |es|, received, []);
    var r := Scan(es, 0, |es|, received, []);
    NotInAll(es[0..r.processed], received);
  }

  /** An uploader that has processed everything that was published, and finds hashing over, leaves. */
  lemma Leaves(how: Answers, cfg: Config, s: Sys)
    requires s.a.up.stage == ULoad && s.a.up.processed == s.a.published <= |s.a.queue.entries|
    requires s.ab.fwd.out == [] && !s.a.hashing
    ensures Reaches(how, cfg, s, s.(a := s.a.(up := s.a.up.(stage := UDone))))
  {
    hide Reaches;
    Stays(how, cfg, s);
    OnA(how, cfg, s, s, LoadCount);
    OnA(how, cfg, s, s.(a := s.a.(up := s.a.up.(stage := UCheck))), CheckHashing);
  }

  /** The uploader passes over images that were all reported. */
  lemma PassesAll(how: Answers, cfg: Config, s: Sys)
    requires s.a.up.stage == ULoad && s.a.up.processed == 0 && s.a.published == |s.a.queue.entries|
    requires s.ab.fwd.out == [] && !s.a.hashing
    requires forall e :: e in s.a.queue.entries ==> e.hash in s.a.up.received
    ensures Reaches(how, cfg, s, s.(a := s.a.(up := s.a.up.(stage := UDone, processed := |s.a.queue.entries|))))
  {
    hide Reaches, Scan;
    var n := |s.a.queue.entries|;
    var t := s.(a := s.a.(up := s.a.up.(processed := n)));
    Stays(how, cfg, s);
    if n > 0 {
      ScanAll(s.a.queue.entries, s.a.up.received);
      OnA(how, cfg, s, s, LoadCount);
      assert s.a.up.offered + [] == s.a.up.offered;
      assert AfterWalk(s.a) == t.a.up;
    }
    Leaves(how, cfg, t);
    Onward(how, cfg, s, t, t.(a := t.a.(up := t.a.up.(stage := UDone))));
  }

  /** A downloader between offers sees that the uploader has left. */
  lemma SeesEnd(how: Answers, cfg: Config, s: Sys)
    requires s.a.up.stage == UDone && s.b.down.stage == DOffer && s.ab.fwd == EMPTY && s.ab.back.out == []
    ensures Reaches(how, cfg, s, s.(b := s.b.(down := s.b.down.(stage := DDone))))
  {
    hide Reaches;
    Stays(how, cfg, s);
    OnB(how, cfg, s, s, EndOfUpload);
  }

  // ----- exactly when all answers are read as is asked -----

  ghost predicate AllRunsAgree(how: Answers, cfg: Config, a: Env, b: Env) {
    forall run :: IsRun(cfg, StartSys(a, b), run) ==> Agreeing(how, cfg, StartSys(a, b), run)
  }

  lemma {:induction false} AgreeingAtEnd(how: Answers, cfg: Config, s: Sys, run: seq<Move>, m: Move)
    requires IsRun(cfg, s, run) && CanMove(cfg, End(cfg, s, run), m) && m.act.Decide?
    ensures IsRun(cfg, s, run + [m])
    ensures Agreeing(how, cfg, s, run + [m]) ==> OfferAgrees(how, cfg, View(End(cfg, s, run), m.side))
    decreases |run|
  {
    hide CanMove, Next, OfferAgrees;
    if run == [] {
      assert run + [m] == [m] && [m][1..] == [];
    } else {
      assert (run + [m])[1..] == run[1..] + [m];
      AgreeingAtEnd(how, cfg, Next(cfg, s, run[0]), run[1..], m);
    }
  }

  lemma ReachedDecision(how: Answers, cfg: Config, a: Env, b: Env, t: Sys)
    requires AllRunsAgree(how, cfg, a, b) && Reaches(Anyhow, cfg, StartSys(a, b), t) && Enabled(cfg, Swap(t), Decide)
    ensures OfferAgrees(how, cfg, Swap(t))
  {
    hide Enabled, OfferAgrees, IsRun, End, Agreeing;
    var run :| IsRun(cfg, StartSys(a, b), run) && Agreeing(Anyhow, cfg, StartSys(a, b), run)
               && End(cfg, StartSys(a, b), run) == t;
    AgreeingAtEnd(how, cfg, StartSys(a, b), run, Move(B, Decide));
  }

  /** What was found of the first offer must be such that its answer can tell. */
  lemma FirstOfferTells(how: Answers, cfg: Config, a: Env, b: Env)
    requires cfg.mask.Written? && AllRunsAgree(how, cfg, a, b)
    ensures Tells(how, Flags(HashesOf(FirstOffer(Images(a))), HashSet(Images(b))))
  {
    hide Reaches, AllRunsAgree, Enabled, OfferAgrees, Tells, Fits;
    var hs := HashesOf(FirstOffer(Images(a)));
    if Images(a) != [] {
      var t, known := FirstOfferArrives(Anyhow, cfg, a, b);
      CanDecide(how, cfg, t, hs);
      ReachedDecision(how, cfg, a, b, t);
      TellsExactly(how, Flags(hs, HashSet(Images(b))));
    } else {
      NoneFoundTells(how, Flags(hs, HashSet(Images(b))));
    }
  }

  lemma AgreeBothWays(how: Answers, cfg: Config, a: Env, b: Env)
    requires AllRunsAgree(how, cfg, a, b)
    ensures AllRunsAgree(how, cfg, b, a)
  {
    var s := StartSys(b, a);
    forall run | IsRun(cfg, s, run)
      ensures Agreeing(how, cfg, s, run)
    {
      hide IsRun, Agreeing;
      assert Swap(s) == StartSys(a, b) && Swap(Swap(s)) == s;
      OtherRun(how, cfg, s, run);
      OtherRun(how, cfg, Swap(s), OtherSides(run));
      OtherTwice(run);
    }
  }

  lemma {:induction false} OtherTwice(run: seq<Move>)
    ensures OtherSides(OtherSides(run)) == run
  {
    if run != [] {
      assert OtherSides(run)[1..] == OtherSides(run[1..]);
      OtherTwice(run[1..]);
    }
  }

  /** With the written mask, and lists that fit in one offer, all answers of all runs are read as is asked if and only
      if the answers about all images of either peer would be. For longer lists this is enough, and it is necessary
      for the first offer of either peer. */
  lemma AnswersExactly(how: Answers, cfg: Config, a: Env, b: Env)
    requires !how.Anyhow? && ValidEnv(a) && ValidEnv(b) && cfg.mask.Written?
    ensures CanTell(how, a, b) && CanTell(how, b, a) ==> AllRunsAgree(how, cfg, a, b)
    ensures AllRunsAgree(how, cfg, a, b) ==>
              && Tells(how, Flags(HashesOf(FirstOffer(Images(a))), HashSet(Images(b))))
              && Tells(how, Flags(HashesOf(FirstOffer(Images(b))), HashSet(Images(a))))
    ensures |Images(a)| <= OFFER_HASHES && |Images(b)| <= OFFER_HASHES ==>
              (AllRunsAgree(how, cfg, a, b) <==> CanTell(how, a, b) && CanTell(how, b, a))
  {
    if AllRunsAgree(how, cfg, a, b) {
      hide AllRunsAgree, Tells;
      AgreeBothWays(how, cfg, a, b);
      FirstOfferTells(how, cfg, a, b);
      FirstOfferTells(how, cfg, b, a);
    } else if CanTell(how, a, b) && CanTell(how, b, a) {
      hide CanTell, IsRun;
      forall run | IsRun(cfg, StartSys(a, b), run)
        ensures Agreeing(how, cfg, StartSys(a, b), run)
      {
        SufficientRunsAgree(how, cfg, a, b, run);
      }
    }
  }

  /** At most one image in common, among the first eight of either: exactly then all answers are read as they were
      meant, if the lists fit in one offer. */
  lemma EarlyExactly(cfg: Config, a: Env, b: Env)
    requires ValidEnv(a) && ValidEnv(b) && cfg.mask.Written?
    ensures EarlyOnly(a, b) && EarlyOnly(b, a) ==> AllRunsAgree(AsMeant, cfg, a, b)
    ensures AllRunsAgree(AsMeant, cfg, a, b) ==>
              && AtMostOneEarly(Flags(HashesOf(FirstOffer(Images(a))), HashSet(Images(b))))
              && AtMostOneEarly(Flags(HashesOf(FirstOffer(Images(b))), HashSet(Images(a))))
    ensures |Images(a)| <= OFFER_HASHES && |Images(b)| <= OFFER_HASHES ==>
              (AllRunsAgree(AsMeant, cfg, a, b) <==> EarlyOnly(a, b) && EarlyOnly(b, a))
  {
    hide AllRunsAgree, AtMostOneEarly;
    AnswersExactly(AsMeant, cfg, a, b);
  }
}

// What a misread answer does to the rest of a run, if as many entries are taken from it as are awaited.
module Misread {
  import opened Codec
  import opened Entries
  import opened FoundMask
  import opened MaskErrors
  import opened Framing
  import opened FileStore
  import opened SyncModel
  import opened SyncInvariant
  import opened SyncRuns
  import opened SyncTheorems

  // ----- what is awaited and what is sent (peer a uploads, peer b downloads) -----

  function Pending(stage: DownloadStage): seq<ExifHash> {
    if stage.DRecords? then stage.missing else []
  }

  function GotHashes(got: seq<Download>): (hs: seq<ExifHash>)
    ensures |hs| == |got|
  {
    seq(|got|, i requires 0 <= i < |got| => got[i].hash)
  }

  /** The hashes under which images were stored, and those under which the next ones will be. */
  function Awaited(down: Downloader): seq<ExifHash> {
    GotHashes(down.got) + Pending(down.stage)
  }

  function Coming(cfg: Config, up: Uploader, back: seq<byte>): seq<Entry> {
    if up.stage.UAck? && |back| == MaskSize(|up.stage.offer|) then
      Select(up.stage.offer, Decode(cfg.mask, back, |up.stage.offer|))
    else []
  }

  /** The entries that were sent, and those that will be taken from the answer in flight. */
  function Taken(cfg: Config, up: Uploader, back: seq<byte>): seq<Entry> {
    up.sent + Coming(cfg, up, back)
  }

  /** The offer that was not answered yet. */
  function Unanswered(up: Uploader, back: seq<byte>): seq<Entry> {
    if up.stage.UAck? && back == [] then up.stage.offer else []
  }

  ghost predicate AwaitsFor(have: set<ExifHash>, up: Uploader, down: Downloader, back: seq<byte>) {
    Awaited(down) + HashesOf(NotIn(Unanswered(up, back), have)) == HashesOf(NotIn(up.offered, have))
  }

  /** What was and is awaited are the hashes that were missing from the answered offers, each in its turn. */
  ghost predicate Awaits(s: Sys) {
    AwaitsFor(HashSet(s.b.queue.entries), s.a.up, s.b.down, Flight(s.ab.back))
  }

  ghost predicate BothAwait(s: Sys) {
    Awaits(s) && Awaits(Swap(s))
  }

  ghost predicate Prolongs(cfg: Config, s: Sys, t: Sys) {
    && Awaited(s.b.down) <= Awaited(t.b.down)
    && Taken(cfg, s.a.up, Flight(s.ab.back)) <= Taken(cfg, t.a.up, Flight(t.ab.back))
  }

  ghost predicate BothProlong(cfg: Config, s: Sys, t: Sys) {
    Prolongs(cfg, s, t) && Prolongs(cfg, Swap(s), Swap(t))
  }

  // ----- the uploader's steps -----

  predicate Uploads(act: Action) {
    act.LoadCount? || act.SendMissing? || act.EndOfAnswers?
  }

  lemma UploaderFrame(cfg: Config, s: Sys, act: Action)
    requires Enabled(cfg, s, act) && !Uploads(act)
    ensures var t := Step(cfg, s, act);
            && t.a.up.offered == s.a.up.offered && t.a.up.sent == s.a.up.sent
            && (t.a.up.stage.UAck? <==> s.a.up.stage.UAck?)
            && (s.a.up.stage.UAck? ==> t.a.up.stage == s.a.up.stage && Flight(t.ab.back) == Flight(s.ab.back))
  {
    hide MissingHashes, Save, BatchPacket, Select, HashSet, ParseRecord, Encode, PacketSet, Flight;
  }

  /** The walk makes an offer of what it finds, or nothing. */
  ghost predicate Offers(up: Uploader, next: Uploader, missing: seq<Entry>) {
    && next.offered == up.offered + missing && next.sent == up.sent
    && if missing == [] then !next.stage.UAck? else next.stage == UAck(missing)
  }

  lemma OfferAwaits(cfg: Config, have: set<ExifHash>, up: Uploader, down: Downloader, next: Uploader,
                    missing: seq<Entry>)
    requires AwaitsFor(have, up, down, []) && !up.stage.UAck? && Offers(up, next, missing)
    ensures AwaitsFor(have, next, down, []) && Taken(cfg, up, []) == Taken(cfg, next, [])
  {
    NotInAppend(up.offered, missing, have);
    hide NotIn;
    assert HashesOf(NotIn(up.offered, have) + NotIn(missing, have))
        == HashesOf(NotIn(up.offered, have)) + HashesOf(NotIn(missing, have));
    assert Awaited(down) + HashesOf(NotIn([], have)) == HashesOf(NotIn(up.offered, have));
    assert NotIn([], have) == [];
  }

  lemma LoadOffers(cfg: Config, s: Sys) returns (missing: seq<Entry>)
    requires Enabled(cfg, s, LoadCount)
    ensures var t := Step(cfg, s, LoadCount);
            Offers(s.a.up, t.a.up, missing) && t.b == s.b && t.ab.back == s.ab.back && s.a.up.stage.ULoad?
  {
    hide Scan;
    missing := if s.a.up.processed == s.a.published then [] else Walk(s.a).missing;
    assert s.a.up.offered + [] == s.a.up.offered;
  }

  lemma NothingBack(cfg: Config, s: Sys)
    requires Half(InNumber, cfg, s) && s.a.up.stage.ULoad?
    ensures Flight(s.ab.back) == []
  {
  }

  lemma LoadAwaits(cfg: Config, s: Sys)
    requires Half(InNumber, cfg, s) && Enabled(cfg, s, LoadCount) && Awaits(s)
    ensures Awaits(Step(cfg, s, LoadCount)) && Prolongs(cfg, s, Step(cfg, s, LoadCount))
  {
    hide Half, AwaitsFor, Taken, HashSet, Awaited, Step, Offers, Enabled;
    var missing := LoadOffers(cfg, s);
    NothingBack(cfg, s);
    var t := Step(cfg, s, LoadCount);
    OfferAwaits(cfg, HashSet(s.b.queue.entries), s.a.up, s.b.down, t.a.up, missing);
  }

  /** The answer that has arrived is all that is in flight. */
  lemma WholeAnswer(cfg: Config, s: Sys)
    requires Half(InNumber, cfg, s) && Enabled(cfg, s, SendMissing)
    ensures Flight(s.ab.back) == s.ab.back.inb && s.ab.back.inb != []
  {
    hide PeerInv, CoverInv, GotInv, NetInv, Records, OfferBytes, Expects, Select, Decode, NotIn;
    OfferNotEmpty(cfg, s.a);
    var back := Flight(s.ab.back);
    assert |back| == |s.ab.back.inb|;
    assert back[..|back|] == s.ab.back.inb;
  }

  lemma OfferNotEmpty(cfg: Config, p: Peer)
    requires PeerInv(cfg, p) && p.up.stage.UAck?
    ensures 1 <= |p.up.stage.offer| <= OFFER_HASHES
  {
  }

  function AfterSending(cfg: Config, up: Uploader, back: seq<byte>): Uploader {
    up.(stage := ULoad, sent := Taken(cfg, up, back))
  }

  lemma SentAwaits(cfg: Config, have: set<ExifHash>, up: Uploader, down: Downloader, back: seq<byte>)
    requires AwaitsFor(have, up, down, back) && up.stage.UAck? && back != []
    ensures var next := AfterSending(cfg, up, back);
            AwaitsFor(have, next, down, []) && Taken(cfg, up, back) == Taken(cfg, next, [])
  {
    hide Awaited, NotIn;
    var taken := Taken(cfg, up, back);
    assert taken + [] == taken;
  }

  lemma SendTakes(cfg: Config, s: Sys)
    requires Half(InNumber, cfg, s) && Enabled(cfg, s, SendMissing)
    ensures s.a.up.stage.UAck? && Flight(s.ab.back) == s.ab.back.inb && s.ab.back.inb != []
    ensures var t := Step(cfg, s, SendMissing);
            t.a.up == AfterSending(cfg, s.a.up, s.ab.back.inb) && t.b == s.b && Flight(t.ab.back) == []
  {
    var offer := s.a.up.stage.offer;
    WholeAnswer(cfg, s);
    SelectedReadable(cfg, s.a, Decode(cfg.mask, s.ab.back.inb, |offer|));
    hide Half, Step, Select, Decode;
    SendMissingStep(cfg, s, Select(offer, Decode(cfg.mask, s.ab.back.inb, |offer|)));
  }

  lemma SendAwaits(cfg: Config, s: Sys)
    requires Half(InNumber, cfg, s) && Enabled(cfg, s, SendMissing) && Awaits(s)
    ensures Awaits(Step(cfg, s, SendMissing)) && Prolongs(cfg, s, Step(cfg, s, SendMissing))
  {
    hide Half, HashSet, Awaited, Taken, Step, Enabled, AwaitsFor;
    SendTakes(cfg, s);
    SentAwaits(cfg, HashSet(s.b.queue.entries), s.a.up, s.b.down, s.ab.back.inb);
  }

  lemma UploaderAwaits(cfg: Config, s: Sys, act: Action)
    requires Inv(InNumber, cfg, s) && Enabled(cfg, s, act) && Awaits(s)
    ensures Awaits(Step(cfg, s, act)) && Prolongs(cfg, s, Step(cfg, s, act))
  {
    hide Half, HashSet, Awaited, Step, Enabled, NotIn, Select, Decode;
    if act.LoadCount? {
      LoadAwaits(cfg, s);
    } else if act.SendMissing? {
      SendAwaits(cfg, s);
    } else if act.EndOfAnswers? {
      NoEndOfAnswers(InNumber, cfg, s);
    } else {
      UploaderFrame(cfg, s, act);
      StepEnv(cfg, s, act);
    }
  }

  // ----- the downloader's steps (peer b's, seen from peer a) -----

  /** What the other peer has changes only while nothing was offered to it. */
  lemma HashingNoOffer(cfg: Config, s: Sys)
    requires Half(InNumber, cfg, s) && PeerInv(cfg, s.b) && !s.b.queue.done
    ensures s.a.up.offered == [] && !s.a.up.stage.UAck?
  {
  }

  predicate Downloads(act: Action) {
    act.Decide? || act.Store? || act.EndOfUpload?
  }

  lemma DownloaderFrame(cfg: Config, s: Sys, act: Action)
    requires Enabled(cfg, s, act) && !Downloads(act)
    ensures var t := Step(cfg, s, act);
            && t.a.down.got == s.a.down.got && Pending(t.a.down.stage) == Pending(s.a.down.stage)
            && (t.a.queue.entries == s.a.queue.entries || !s.a.queue.done)
            && (!act.Announce? ==> Flight(t.ba.back) == Flight(s.ba.back))
  {
    hide MissingHashes, Save, BatchPacket, Select, HashSet, ParseRecord, Encode, PacketSet, Flight, Walk, AfterWalk;
  }

  lemma StoreAwaits(cfg: Config, s: Sys)
    requires Enabled(cfg, s, Store)
    ensures var t := Step(cfg, s, Store);
            && Awaited(t.a.down) == Awaited(s.a.down) && t.a.queue == s.a.queue && t.b == s.b
            && t.ba.back == s.ba.back
  {
    hide Save, ParseRecord, RecordNeed;
    var got, missing := s.a.down.got, s.a.down.stage.missing;
    var t := Step(cfg, s, Store);
    assert GotHashes(t.a.down.got) == GotHashes(got) + [missing[0]];
    assert Pending(t.a.down.stage) == missing[1..];
    assert missing == [missing[0]] + missing[1..];
  }

  lemma PendingAfter(missing: seq<ExifHash>)
    ensures Pending(AfterOffer(missing)) == missing
  {
  }

  lemma DecidedAwaits(have: set<ExifHash>, up: Uploader, down: Downloader, mask: seq<byte>)
    requires AwaitsFor(have, up, down, []) && up.stage.UAck? && Pending(down.stage) == [] && mask != []
    ensures var offer := up.stage.offer;
            var next := down.(stage := AfterOffer(MissingHashes(HashesOf(offer), have)));
            AwaitsFor(have, up, next, mask) && Awaited(next) == Awaited(down) + HashesOf(NotIn(offer, have))
  {
    SelectIsNotIn(up.stage.offer, have);
    PendingAfter(MissingHashes(HashesOf(up.stage.offer), have));
    assert NotIn([], have) == [] && HashesOf([]) == [];
    hide NotIn, MissingHashes, HashesOf, GotHashes, Pending, AfterOffer;
    assert GotHashes(down.got) + [] == GotHashes(down.got);
  }

  lemma DecidedTaken(cfg: Config, up: Uploader, mask: seq<byte>)
    requires up.stage.UAck? && up.stage.offer != [] && |mask| == MaskSize(|up.stage.offer|)
    ensures Taken(cfg, up, mask) == up.sent + Select(up.stage.offer, Decode(cfg.mask, mask, |up.stage.offer|))
    ensures Taken(cfg, up, []) == up.sent
  {
    hide Select, Decode;
    assert up.sent + [] == up.sent;
  }

  lemma UndecidedBack(cfg: Config, s: Sys)
    requires Half(InNumber, cfg, s) && s.b.down.stage.DOffer? && s.ab.fwd.inb != [] && s.a.up.stage.UAck?
    ensures Flight(s.ab.back) == [] && |s.b.down.got| == |s.a.up.sent| && s.a.up.stage.offer != []
  {
    hide PeerInv, CoverInv, GotInv, NetInv, Records, OfferBytes, Select, Decode, NotIn;
    OfferNotEmpty(cfg, s.a);
  }

  ghost predicate Decided(cfg: Config, s: Sys, t: Sys) {
    var up, have := s.b.up, HashSet(s.a.queue.entries);
    && up.stage.UAck? && up.stage.offer != [] && s.a.down.stage.DOffer? && |s.a.down.got| == |up.sent|
    && Flight(s.ba.back) == [] && t.b == s.b && t.a.queue == s.a.queue
    && var hs := HashesOf(up.stage.offer);
    && t.a.down == s.a.down.(stage := AfterOffer(MissingHashes(hs, have)))
    && Flight(t.ba.back) == Encode(cfg.mask, Flags(hs, have))
  }

  lemma DecisionResult(cfg: Config, s: Sys)
    requires Enabled(cfg, s, Decide) && Flight(s.ba.back) == []
    ensures s.a.down.stage.DOffer? && s.ba.fwd.inb != [] && OfferNeed(s.ba.fwd.inb) == 0
    ensures var t, hs, have := Step(cfg, s, Decide), Offered(s), HashSet(s.a.queue.entries);
            && t.a.down == s.a.down.(stage := AfterOffer(MissingHashes(hs, have))) && t.a.queue == s.a.queue
            && t.b == s.b && Flight(t.ba.back) == Encode(cfg.mask, Flags(hs, have))
  {
    hide HashSet, MissingHashes, Encode, Flags, OfferHashes, OfferNeed;
    var mask := Encode(cfg.mask, Flags(Offered(s), HashSet(s.a.queue.entries)));
    assert [] + mask == mask;
  }

  lemma DecideGuard(cfg: Config, s: Sys)
    requires Enabled(cfg, s, Decide)
    ensures s.a.down.stage.DOffer? && s.ba.fwd.inb != [] && OfferNeed(s.ba.fwd.inb) == 0
  {
    hide OfferNeed;
  }

  lemma DecisionOpen(cfg: Config, s: Sys)
    requires Half(InNumber, cfg, s) && Enabled(cfg, Swap(s), Decide)
    ensures s.b.down.stage.DOffer? && s.ab.fwd.inb != [] && OfferNeed(s.ab.fwd.inb) == 0
    ensures s.a.up.stage.UAck? && s.a.up.stage.offer != [] && Offered(Swap(s)) == HashesOf(s.a.up.stage.offer)
    ensures Flight(s.ab.back) == [] && |s.b.down.got| == |s.a.up.sent|
  {
    hide Half, Enabled, OfferNeed, OfferHashes;
    DecideGuard(cfg, Swap(s));
    OfferArrived(InNumber, cfg, s);
    UndecidedBack(cfg, s);
  }

  lemma DecisionMade(cfg: Config, s: Sys)
    requires Inv(InNumber, cfg, s) && Enabled(cfg, s, Decide)
    ensures Decided(cfg, s, Step(cfg, s, Decide)) && s.ba.fwd.inb != [] && OfferNeed(s.ba.fwd.inb) == 0
    ensures s.b.up.stage.UAck? && Offered(s) == HashesOf(s.b.up.stage.offer)
  {
    SwappedHalf(InNumber, cfg, s);
    hide Inv, Half, HashSet, MissingHashes, Encode, Flags, Enabled, Step, OfferNeed, Offered;
    assert Swap(Swap(s)) == s;
    DecisionOpen(cfg, Swap(s));
    DecisionResult(cfg, s);
  }

  /** The entries that the uploader will take from the answer. */
  function ReadFrom(cfg: Config, offer: seq<Entry>, have: set<ExifHash>): seq<Entry> {
    Select(offer, Decode(cfg.mask, Encode(cfg.mask, Flags(HashesOf(offer), have)), |offer|))
  }

  lemma DecideAwaits(cfg: Config, s: Sys, t: Sys)
    requires Decided(cfg, s, t) && Awaits(Swap(s))
    ensures Awaits(Swap(t)) && Prolongs(cfg, Swap(s), Swap(t))
    ensures var offer, have := s.b.up.stage.offer, HashSet(s.a.queue.entries);
            && Awaited(t.a.down) == Awaited(s.a.down) + HashesOf(NotIn(offer, have))
            && Taken(cfg, t.b.up, Flight(t.ba.back)) == s.b.up.sent + ReadFrom(cfg, offer, have)
            && |Awaited(s.a.down)| == |s.b.up.sent|
  {
    hide HashSet, NotIn, Select, Decode, Encode, Flags, MissingHashes, AwaitsFor, Taken, HashesOf;
    var offer, have := s.b.up.stage.offer, HashSet(s.a.queue.entries);
    var mask := Encode(cfg.mask, Flags(HashesOf(offer), have));
    DecidedAwaits(have, s.b.up, s.a.down, mask);
    DecidedTaken(cfg, s.b.up, mask);
  }

  lemma NeverFatalAfter(cfg: Config, s: Sys, act: Action)
    requires Inv(InNumber, cfg, s) && Enabled(cfg, s, act) && (act.Decide? ==> OfferAgrees(InNumber, cfg, s))
    ensures Inv(InNumber, cfg, Step(cfg, s, act)) && !Step(cfg, s, act).a.down.stage.DFatal?
  {
    hide Inv, Half, Enabled, Step, OfferAgrees;
    StepKeeps(InNumber, cfg, s, act);
    SwappedHalf(InNumber, cfg, Step(cfg, s, act));
    NeverFatal(InNumber, cfg, Swap(Step(cfg, s, act)));
  }

  lemma EndStage(cfg: Config, s: Sys)
    requires Enabled(cfg, s, EndOfUpload) && !Step(cfg, s, EndOfUpload).a.down.stage.DFatal?
    ensures var t := Step(cfg, s, EndOfUpload);
            Awaited(t.a.down) == Awaited(s.a.down) && t.a.queue == s.a.queue && t.b == s.b && t.ba == s.ba
  {
    hide UploadNeed;
  }

  lemma AnnounceBack(cfg: Config, s: Sys)
    requires Half(InNumber, cfg, s) && s.b.down.stage.DAnnounce?
    ensures !s.a.up.stage.UAck?
  {
    hide PeerInv, CoverInv, GotInv, NetInv;
  }

  /** Whatever does not decide, store or announce leaves what is awaited as it is. */
  lemma FrameAwaits(cfg: Config, s: Sys, t: Sys)
    requires Awaits(s) && t.a.up == s.a.up && t.b.down.got == s.b.down.got
    requires Pending(t.b.down.stage) == Pending(s.b.down.stage)
    requires t.b.queue.entries == s.b.queue.entries || (s.a.up.offered == [] && !s.a.up.stage.UAck?)
    requires Flight(t.ab.back) == Flight(s.ab.back) || !s.a.up.stage.UAck?
    ensures Awaits(t) && Prolongs(cfg, s, t)
  {
    hide HashSet, Flight, Select, Decode;
  }

  lemma DownloaderAwaits(cfg: Config, s: Sys, act: Action)
    requires Inv(InNumber, cfg, s) && Enabled(cfg, s, act) && Awaits(Swap(s))
    requires act.Decide? ==> OfferAgrees(InNumber, cfg, s)
    ensures Awaits(Swap(Step(cfg, s, act))) && Prolongs(cfg, Swap(s), Swap(Step(cfg, s, act)))
  {
    var t := Step(cfg, s, act);
    SwappedHalf(InNumber, cfg, s);
    hide Half, Awaits, Prolongs, Step, Enabled, OfferAgrees, Decided, PeerInv, Inv;
    if act.Decide? {
      DecisionMade(cfg, s);
      DecideAwaits(cfg, s, t);
    } else {
      StepEnv(cfg, s, act);
      if act.Store? {
        StoreAwaits(cfg, s);
        SameAwaits(cfg, Swap(s), Swap(t));
      } else if act.EndOfUpload? {
        NeverFatalAfter(cfg, s, act);
        EndStage(cfg, s);
        SameAwaits(cfg, Swap(s), Swap(t));
      } else {
        DownloaderFrame(cfg, s, act);
        OtherFrame(cfg, s, act);
        FrameAwaits(cfg, Swap(s), Swap(t));
      }
    }
  }

  lemma SameAwaits(cfg: Config, s: Sys, t: Sys)
    requires Awaits(s) && t.a.up == s.a.up && Awaited(t.b.down) == Awaited(s.b.down)
    requires t.b.queue == s.b.queue && t.ab.back == s.ab.back
    ensures Awaits(t) && Prolongs(cfg, s, t)
  {
    hide HashSet, Flight, Select, Decode;
  }

  lemma AnnounceGuard(cfg: Config, s: Sys, act: Action)
    requires act.Announce? && Enabled(cfg, s, act)
    ensures s.a.down.stage.DAnnounce?
  {
  }

  lemma OtherFrame(cfg: Config, s: Sys, act: Action)
    requires Inv(InNumber, cfg, s) && Enabled(cfg, s, act)
    ensures !s.a.queue.done ==> s.b.up.offered == [] && !s.b.up.stage.UAck?
    ensures act.Announce? ==> !s.b.up.stage.UAck?
  {
    hide Half, PeerInv, Enabled;
    SwappedHalf(InNumber, cfg, s);
    InvPeers(InNumber, cfg, s);
    if !s.a.queue.done {
      HashingNoOffer(cfg, Swap(s));
    }
    if act.Announce? {
      AnnounceGuard(cfg, s, act);
      AnnounceBack(cfg, Swap(s));
    }
  }

  // ----- moves and runs -----

  lemma MoveAwaits(cfg: Config, s: Sys, m: Move)
    requires Inv(InNumber, cfg, s) && CanMove(cfg, s, m) && BothAwait(s)
    requires m.act.Decide? ==> OfferAgrees(InNumber, cfg, View(s, m.side))
    ensures BothAwait(Next(cfg, s, m)) && BothProlong(cfg, s, Next(cfg, s, m))
  {
    hide Inv, Awaits, Prolongs, Step, Enabled, OfferAgrees;
    SwapKeeps(InNumber, cfg, s);
    var v := View(s, m.side);
    UploaderAwaits(cfg, v, m.act);
    DownloaderAwaits(cfg, v, m.act);
    assert Swap(Swap(Step(cfg, v, m.act))) == Step(cfg, v, m.act) && Swap(Swap(v)) == v;
  }

  lemma StartAwaits(a: Env, b: Env)
    ensures BothAwait(StartSys(a, b))
  {
  }

  lemma ProlongsOn(cfg: Config, s: Sys, t: Sys, u: Sys)
    requires BothProlong(cfg, s, t) && BothProlong(cfg, t, u)
    ensures BothProlong(cfg, s, u)
  {
    hide Awaited, Taken, Flight;
  }

  lemma ProlongsSelf(cfg: Config, s: Sys)
    ensures BothProlong(cfg, s, s)
  {
    hide Awaited, Taken, Flight;
  }

  lemma {:induction false} RunAwaits(cfg: Config, s: Sys, run: seq<Move>)
    requires Inv(InNumber, cfg, s) && BothAwait(s) && IsRun(cfg, s, run) && Agreeing(InNumber, cfg, s, run)
    ensures BothAwait(End(cfg, s, run)) && BothProlong(cfg, s, End(cfg, s, run))
    decreases |run|
  {
    hide Inv, BothAwait, BothProlong, CanMove, Next, OfferAgrees;
    if run == [] {
      ProlongsSelf(cfg, s);
    } else {
      var t := Next(cfg, s, run[0]);
      MoveAwaits(cfg, s, run[0]);
      MoveKeeps(InNumber, cfg, s, run[0]);
      RunAwaits(cfg, t, run[1..]);
      ProlongsOn(cfg, s, t, End(cfg, t, run[1..]));
    }
  }

  // ----- one image in the place of another -----

  ghost predicate Differ(awaited: seq<ExifHash>, taken: seq<Entry>) {
    exists i :: 0 <= i < |awaited| && i < |taken| && taken[i].hash != awaited[i]
  }

  /** An image was or will be sent in the place of another. */
  ghost predicate Spoilt(cfg: Config, s: Sys) {
    Differ(Awaited(s.b.down), Taken(cfg, s.a.up, Flight(s.ab.back)))
  }

  /** That cannot be made good. */
  lemma StaysSpoilt(cfg: Config, s: Sys, t: Sys)
    requires Spoilt(cfg, s) && Prolongs(cfg, s, t)
    ensures Spoilt(cfg, t)
  {
    hide Awaited, Taken, Flight;
    var awaited, taken := Awaited(s.b.down), Taken(cfg, s.a.up, Flight(s.ab.back));
    var i :| 0 <= i < |awaited| && i < |taken| && taken[i].hash != awaited[i];
    assert Awaited(t.b.down)[i] == awaited[i];
    assert Taken(cfg, t.a.up, Flight(t.ab.back))[i] == taken[i];
  }

  lemma DifferentHash(es: seq<Entry>, e: Entry, f: Entry)
    requires Distinct(es) && e in es && f in es && e != f
    ensures e.hash != f.hash
  {
    var i :| 0 <= i < |es| && es[i] == e;
    var j :| 0 <= j < |es| && es[j] == f;
    assert i < j || j < i;
  }

  /** From an answer that is right in number only, one entry is taken in the place of another. */
  lemma OneForAnother(cfg: Config, offer: seq<Entry>, have: set<ExifHash>) returns (i: nat)
    requires Distinct(offer) && Fits(InNumber, cfg.mask, Flags(HashesOf(offer), have))
    requires !Fits(AsMeant, cfg.mask, Flags(HashesOf(offer), have))
    ensures i < |NotIn(offer, have)| == |ReadFrom(cfg, offer, have)|
    ensures ReadFrom(cfg, offer, have)[i].hash != NotIn(offer, have)[i].hash
  {
    var found := Flags(HashesOf(offer), have);
    var chosen, missing := ReadFrom(cfg, offer, have), NotIn(offer, have);
    if cfg.mask.OneBitPerEntry? {
      OneBitPerEntryAgrees(found);
    } else {
      WrittenAgreement(found);
      WrittenSelection(offer, have);
      AnswerFits(InNumber, Written, offer, have);
      SelectIsNotIn(offer, have);
      assert chosen == Chosen(offer, have) != missing;
      i :| 0 <= i < |missing| && chosen[i] != missing[i];
      InSelect(offer, Decode(Written, Encode(Written, found), |offer|), chosen[i]);
      InNotIn(offer, have, missing[i]);
      DifferentHash(offer, chosen[i], missing[i]);
    }
  }

  lemma OfferDistinct(cfg: Config, p: Peer)
    requires PeerInv(cfg, p) && p.up.stage.UAck?
    ensures Distinct(p.up.stage.offer)
  {
    NotInDistinct(p.queue.entries[..p.up.processed], p.up.received);
    var k := |p.up.offered| - |p.up.stage.offer|;
    assert p.up.offered[k..] == p.up.stage.offer;
  }

  lemma DifferBehind(awaited: seq<ExifHash>, taken: seq<Entry>, missing: seq<Entry>, chosen: seq<Entry>, i: nat)
    requires |awaited| == |taken| && i < |missing| && i < |chosen| && chosen[i].hash != missing[i].hash
    ensures Differ(awaited + HashesOf(missing), taken + chosen)
  {
    var n := |awaited|;
    assert (taken + chosen)[n + i] == chosen[i];
    assert (awaited + HashesOf(missing))[n + i] == missing[i].hash;
  }

  lemma OfferFits(how: Answers, cfg: Config, s: Sys)
    requires s.ba.fwd.inb != [] && OfferNeed(s.ba.fwd.inb) == 0
    ensures OfferAgrees(how, cfg, s) <==> Fits(how, cfg.mask, Flags(Offered(s), HashSet(s.a.queue.entries)))
  {
  }

  lemma OtherOfferDistinct(cfg: Config, s: Sys)
    requires Inv(InNumber, cfg, s) && s.b.up.stage.UAck?
    ensures Distinct(s.b.up.stage.offer)
  {
    InvPeers(InNumber, cfg, s);
    hide Inv, PeerInv;
    OfferDistinct(cfg, s.b);
  }

  /** A decision whose answer is misread spoils the rest. */
  lemma MisreadSpoils(cfg: Config, s: Sys)
    requires Inv(InNumber, cfg, s) && Enabled(cfg, s, Decide) && Awaits(Swap(s))
    requires OfferAgrees(InNumber, cfg, s) && !OfferAgrees(AsMeant, cfg, s)
    ensures Spoilt(cfg, Swap(Step(cfg, s, Decide)))
  {
    hide Inv, Enabled, Step, Fits, Awaited, Taken, ReadFrom, NotIn, HashSet, Flags, Awaits, HashesOf, Differ, Decided;
    hide OfferNeed, Offered, OfferAgrees;
    var t := Step(cfg, s, Decide);
    DecisionMade(cfg, s);
    OfferFits(InNumber, cfg, s);
    OfferFits(AsMeant, cfg, s);
    DecideAwaits(cfg, s, t);
    OtherOfferDistinct(cfg, s);
    var offer, have := s.b.up.stage.offer, HashSet(s.a.queue.entries);
    var i := OneForAnother(cfg, offer, have);
    DifferBehind(Awaited(s.a.down), s.b.up.sent, NotIn(offer, have), ReadFrom(cfg, offer, have), i);
  }

  lemma MoveSpoils(cfg: Config, s: Sys, m: Move)
    requires Inv(InNumber, cfg, s) && CanMove(cfg, s, m) && BothAwait(s) && m.act.Decide?
    requires OfferAgrees(InNumber, cfg, View(s, m.side)) && !OfferAgrees(AsMeant, cfg, View(s, m.side))
    ensures Spoilt(cfg, Next(cfg, s, m)) || Spoilt(cfg, Swap(Next(cfg, s, m)))
  {
    hide Inv, Awaits, Spoilt, Step, Enabled, OfferAgrees;
    SwapKeeps(InNumber, cfg, s);
    MisreadSpoils(cfg, View(s, m.side));
    assert Swap(Swap(Step(cfg, View(s, m.side), m.act))) == Step(cfg, View(s, m.side), m.act);
  }

  /** A run in which some answer is misread comes to a spoilt end. */
  lemma {:induction false} RunSpoils(cfg: Config, s: Sys, run: seq<Move>)
    requires Inv(InNumber, cfg, s) && BothAwait(s) && IsRun(cfg, s, run)
    requires Agreeing(InNumber, cfg, s, run) && !Agreeing(AsMeant, cfg, s, run)
    ensures Spoilt(cfg, End(cfg, s, run)) || Spoilt(cfg, Swap(End(cfg, s, run)))
    decreases |run|
  {
    hide Inv, BothAwait, CanMove, Next, OfferAgrees, Spoilt, Prolongs;
    var t := Next(cfg, s, run[0]);
    MoveAwaits(cfg, s, run[0]);
    MoveKeeps(InNumber, cfg, s, run[0]);
    if Agreeing(AsMeant, cfg, t, run[1..]) {
      MoveSpoils(cfg, s, run[0]);
      RunAwaits(cfg, t, run[1..]);
      var end := End(cfg, t, run[1..]);
      if Spoilt(cfg, t) {
        StaysSpoilt(cfg, t, end);
      } else {
        StaysSpoilt(cfg, Swap(t), Swap(end));
      }
    } else {
      RunSpoils(cfg, t, run[1..]);
    }
  }

  // ----- what is lost in the end -----

  /** No two images look the same on the wire. */
  ghost predicate TellApart(env: Env) {
    forall e, f, r ::
      e in Images(env) && f in Images(env) && Copies(env.files, e, r) && Copies(env.files, f, r) ==> e == f
  }

  lemma SpoiltEnd(cfg: Config, s: Sys) returns (i: nat)
    requires Final(s) && Spoilt(cfg, s)
    ensures i < |s.b.down.got| && i < |s.a.up.sent| && s.a.up.sent[i].hash != s.b.down.got[i].hash
  {
    var awaited, taken := Awaited(s.b.down), Taken(cfg, s.a.up, Flight(s.ab.back));
    assert awaited == GotHashes(s.b.down.got) && taken == s.a.up.sent;
    i :| 0 <= i < |awaited| && i < |taken| && taken[i].hash != awaited[i];
  }

  /** In the end, just the hashes missing from what was offered have something stored under them. */
  lemma GotAtEnd(s: Sys)
    requires Final(s) && Awaits(s)
    ensures var missing := NotIn(s.a.up.offered, HashSet(s.b.queue.entries));
            |s.b.down.got| == |missing| && forall i :: 0 <= i < |missing| ==> s.b.down.got[i].hash == missing[i].hash
  {
    var have := HashSet(s.b.queue.entries);
    var missing := NotIn(s.a.up.offered, have);
    hide HashSet;
    assert NotIn([], have) == [];
    assert GotHashes(s.b.down.got) + [] + HashesOf([]) == HashesOf(missing);
    forall i | 0 <= i < |missing|
      ensures s.b.down.got[i].hash == missing[i].hash
    {
      assert GotHashes(s.b.down.got)[i] == HashesOf(missing)[i];
    }
  }

  lemma OfferedImages(cfg: Config, p: Peer)
    requires PeerInv(cfg, p)
    ensures Distinct(p.up.offered) && forall e :: e in p.up.offered ==> e in Images(p.env)
  {
    var passed := p.queue.entries[..p.up.processed];
    assert passed <= p.queue.entries <= Images(p.env);
    NotInDistinct(passed, p.up.received);
    forall e | e in p.up.offered
      ensures e in Images(p.env)
    {
      InNotIn(passed, p.up.received, e);
    }
  }

  lemma NeverGenuine(a: Env, got: seq<Download>, missing: seq<Entry>, i: nat, sent: Entry, h: ExifHash)
    requires Distinct(missing) && |got| == |missing|
    requires forall j :: 0 <= j < |missing| ==> got[j].hash == missing[j].hash
    requires i < |got| && got[i].hash == h != sent.hash && Copies(a.files, sent, got[i].record)
    requires TellApart(a) && sent in Images(a)
    ensures forall j :: 0 <= j < |got| && got[j].hash == h ==> !Genuine(a, got[j])
  {
    hide Images, Copies;
    forall j | 0 <= j < |got| && got[j].hash == h
      ensures !Genuine(a, got[j])
    {
      assert missing[j].hash == missing[i].hash;
      assert j == i;
    }
  }

  /** What another image was sent for is neither there in the end nor refused. */
  lemma SpoiltLost(cfg: Config, s: Sys) returns (h: ExifHash)
    requires Inv(InNumber, cfg, s) && Final(s) && Awaits(s) && Spoilt(cfg, s) && TellApart(s.a.env)
    ensures h in HashSet(Images(s.a.env)) && h !in HashSet(Images(s.b.env))
    ensures !Has(s.b, s.a.env, h) && !Refused(s.b, s.a.env, h)
  {
    InvPeers(InNumber, cfg, s);
    hide Half, PeerInv, Awaits, Spoilt, TellApart, Images, HashSet, Genuine, Copies;
    HashedAll(cfg, s.b);
    OfferedImages(cfg, s.a);
    var have, offered := HashSet(s.b.queue.entries), s.a.up.offered;
    var missing := NotIn(offered, have);
    GotAtEnd(s);
    var i := SpoiltEnd(cfg, s);
    SentCopied(InNumber, cfg, s, i);
    h := missing[i].hash;
    InNotIn(offered, have, missing[i]);
    NotInDistinct(offered, have);
    InHashSet(Images(s.a.env), h);
    NeverGenuine(s.a.env, s.b.down.got, missing, i, s.a.up.sent[i], h);
  }

  /** A complete run, in which as many entries are taken from each answer as are awaited, brings the images of both
      peers to both if and only if all of its answers are read as they were meant. */
  lemma MeantExactly(cfg: Config, a: Env, b: Env, run: seq<Move>)
    requires ValidEnv(a) && ValidEnv(b) && TellApart(a) && TellApart(b) && cfg.exit.RereadExit?
    requires IsRun(cfg, StartSys(a, b), run) && Agreeing(InNumber, cfg, StartSys(a, b), run)
    requires Final(End(cfg, StartSys(a, b), run))
    ensures var end := End(cfg, StartSys(a, b), run);
            HasUnion(end.a, b) && HasUnion(end.b, a) <==> Agreeing(AsMeant, cfg, StartSys(a, b), run)
  {
    hide Inv, IsRun, End, Agreeing, BothProlong, TellApart, Has, Refused, Images, HashSet, Final, Spoilt, Awaits;
    var s := StartSys(a, b);
    var end := End(cfg, s, run);
    if Agreeing(AsMeant, cfg, s, run) {
      Convergence(cfg, a, b, run);
    } else {
      InitKeeps(InNumber, cfg, a, b);
      StartAwaits(a, b);
      RunAwaits(cfg, s, run);
      RunSpoils(cfg, s, run);
      Reachable(InNumber, cfg, a, b, run);
      EnvKept(cfg, s, run);
      SwapKeeps(InNumber, cfg, end);
      if Spoilt(cfg, end) {
        var h := SpoiltLost(cfg, end);
      } else {
        FinalSwap(end);
        var h := SpoiltLost(cfg, Swap(end));
      }
    }
  }

  lemma FinalSwap(s: Sys)
    requires Final(s)
    ensures Final(Swap(s))
  {
  }
}

// How long two peers can run: every step of a thread uses up some of the work that is left.
module SyncMeasure {
  import opened Codec
  import opened Entries
  import opened FoundMask
  import opened Framing
  import opened Hasher
  import opened FileStore
  import opened SyncModel
  import opened SyncInvariant

  // ----- the work that is left -----

  /** What it takes to write, carry and read the record of an entry. */
  ghost function Cost(files: Files, e: Entry): nat {
    3 * |RecordBytes(RecordOf(files, e))|
  }

  ghost function Costs(files: Files, es: seq<Entry>): nat {
    if es == [] then 0 else Cost(files, es[0]) + Costs(files, es[1..])
  }

  /** The work for entries that the uploader has not come to. */
  ghost function EntriesWork(files: Files, es: seq<Entry>): nat {
    Costs(files, es) + 70 * |es|
  }

  /** The work for paths that the hasher has not come to. */
  ghost function TodoWork(files: Files, todo: seq<Source>): nat {
    if todo == [] then 0
    else (if todo[0].hash.Some? then Cost(files, Entry(todo[0].hash.value, todo[0].path)) + 70 else 0)
         + TodoWork(files, todo[1..])
  }

  ghost function QueueWeight(q: Queue): int {
    2 * |q.todo| + (if q.owed then 1 else 0) + (if q.done then 0 else 1)
    + 10 * (|q.todo| + |q.entries| - q.delivered)
  }

  ghost function DownloadRank(stage: DownloadStage): nat {
    match stage
    case DGet => 10
    case DPublish(_) => 18
    case DNotify(_) => 17
    case DSend(_) => 14
    case DFinish => 9
    case DAnnounce => 6
    case DOffer => 1
    case DRecords(_) => 1
    case DDone => 0
    case DFatal => 0
  }

  ghost function UploadRank(up: Uploader, published: nat): nat {
    match up.stage
    case UWait => 6
    case UMark => 5
    case ULoad => if up.processed < published then 1 else 3
    case UCheck => 2
    case USleep => 1
    case _ => 0
  }

  ghost function OfferWork(files: Files, stage: UploadStage): nat {
    if stage.UAck? then Costs(files, stage.offer) + 4 else 0
  }

  ghost function StreamWeight(c: Stream): nat {
    3 * |c.out| + 2 * |c.wire| + |c.inb|
  }

  ghost function LinkWeight(link: Link): nat {
    StreamWeight(link.fwd) + StreamWeight(link.back)
  }

  /** The work left in a peer's own threads. */
  ghost function PeerWeight(p: Peer): int
    requires p.up.processed <= |p.queue.entries|
  {
    QueueWeight(p.queue) + DownloadRank(p.down.stage) + UploadRank(p.up, p.published)
    + TodoWork(p.env.files, p.queue.todo) + EntriesWork(p.env.files, p.queue.entries[p.up.processed..])
    + OfferWork(p.env.files, p.up.stage)
  }

  ghost predicate Weighed(s: Sys) {
    && s.a.up.processed <= s.a.published <= |s.a.queue.entries|
    && s.b.up.processed <= s.b.published <= |s.b.queue.entries|
  }

  /** All the work that is left. */
  ghost function Weight(s: Sys): int
    requires Weighed(s)
  {
    PeerWeight(s.a) + PeerWeight(s.b) + LinkWeight(s.ab) + LinkWeight(s.ba)
  }

  lemma PeerWeightPositive(cfg: Config, p: Peer)
    requires PeerInv(cfg, p)
    ensures p.up.processed <= p.published <= |p.queue.entries| && PeerWeight(p) >= 0
  {
  }

  lemma WeightPositive(cfg: Config, s: Sys)
    requires Peers(cfg, s)
    ensures Weighed(s) && Weight(s) >= 0
  {
    hide PeerInv;
    PeerWeightPositive(cfg, s.a);
    PeerWeightPositive(cfg, s.b);
  }

  // ----- the steps of one peer's own threads -----

  lemma {:induction false} CostsAppend(files: Files, a: seq<Entry>, b: seq<Entry>)
    ensures Costs(files, a + b) == Costs(files, a) + Costs(files, b)
  {
    if a == [] {
      assert a + b == b;
    } else {
      assert (a + b)[1..] == a[1..] + b;
      CostsAppend(files, a[1..], b);
    }
  }

  lemma {:induction false} CostsNotIn(files: Files, es: seq<Entry>, have: set<ExifHash>)
    ensures Costs(files, NotIn(es, have)) + 70 * |NotIn(es, have)| <= Costs(files, es) + 70 * |es|
    ensures Costs(files, NotIn(es, have)) <= Costs(files, es)
  {
    if es != [] {
      CostsNotIn(files, es[1..], have);
      CostsAppend(files, if es[0].hash in have then [] else [es[0]], NotIn(es[1..], have));
    }
  }

  lemma HashPathWeight(p: Peer)
    requires CanHash(p.queue) && p.up.processed <= |p.queue.entries|
    ensures p.up.processed <= |HashNext(HASHER_RULE, p.queue).entries|
    ensures PeerWeight(p.(queue := HashNext(HASHER_RULE, p.queue))) < PeerWeight(p)
  {
    var q, next, files := p.queue, HashNext(HASHER_RULE, p.queue), p.env.files;
    if |next.entries| > |q.entries| {
      var e := next.entries[|q.entries|];
      assert next.entries[p.up.processed..] == q.entries[p.up.processed..] + [e];
      CostsAppend(files, q.entries[p.up.processed..], [e]);
      assert Costs(files, [e]) == Cost(files, e);
    }
  }

  lemma HasherWeight(p: Peer)
    requires p.up.processed <= |p.queue.entries|
    ensures CanCredit(p.queue) ==> PeerWeight(p.(queue := Credit(HASHER_RULE, p.queue))) < PeerWeight(p)
    ensures CanFinish(p.queue) ==> PeerWeight(p.(queue := Finish(HASHER_RULE, p.queue))) < PeerWeight(p)
  {
  }

  lemma UpdateWeight(p: Peer, act: Action)
    requires UpdatePeer.requires(p, act) && p.up.processed <= |p.queue.entries|
    ensures PeerWeight(UpdatePeer(p, act)) < PeerWeight(p)
  {
  }

  lemma WorkSplits(files: Files, es: seq<Entry>, i: nat, j: nat, received: set<ExifHash>)
    requires i < j <= |es|
    ensures var missing := NotIn(es[i..j], received);
            && EntriesWork(files, es[j..]) + EntriesWork(files, missing) <= EntriesWork(files, es[i..])
            && (missing == [] ==> EntriesWork(files, es[j..]) + 70 <= EntriesWork(files, es[i..]))
  {
    assert es[i..] == es[i..j] + es[j..];
    CostsAppend(files, es[i..j], es[j..]);
    CostsNotIn(files, es[i..j], received);
  }

  lemma WalkRank(p: Peer, up: Uploader)
    requires p.up.processed < up.processed <= |p.queue.entries| && p.up.stage.ULoad?
    requires up.stage.ULoad? || up.stage.UAck?
    ensures PeerWeight(p.(up := up)) - EntriesWork(p.env.files, p.queue.entries[up.processed..])
            - OfferWork(p.env.files, up.stage)
         <= PeerWeight(p) - EntriesWork(p.env.files, p.queue.entries[p.up.processed..]) + 2
    ensures PeerWeight(p.(up := up)) - EntriesWork(p.env.files, p.queue.entries[up.processed..])
            - OfferWork(p.env.files, up.stage)
            < PeerWeight(p) - EntriesWork(p.env.files, p.queue.entries[p.up.processed..])
         || up.stage.ULoad?
  {
  }

  /** A walk over the list pays for the offer and for the records that may follow it. */
  lemma WalkWeight(p: Peer)
    requires p.up.processed < p.published <= |p.queue.entries| && p.up.stage.ULoad?
    ensures var missing := Walk(p).missing;
            && AfterWalk(p).processed <= |p.queue.entries|
            && PeerWeight(p.(up := AfterWalk(p)))
               + (if missing == [] then 0 else 3 * |OfferBytes(HashesOf(missing))|) < PeerWeight(p)
  {
    var es, found, files := p.queue.entries, Walk(p), p.env.files;
    ScanFinds(es, p.up.processed, p.published, p.up.received, []);
    assert found.missing == NotIn(es[p.up.processed..found.processed], p.up.received);
    WorkSplits(files, es, p.up.processed, found.processed, p.up.received);
    WalkRank(p, AfterWalk(p));
  }

  lemma {:induction false} RecordsLength(files: Files, es: seq<Entry>)
    ensures 3 * |Records(files, es)| == Costs(files, es)
  {
    if es != [] {
      RecordsLength(files, es[1..]);
    }
  }

  /** A step within the uploader that neither reads nor writes. */
  lemma IdleWeight(cfg: Config, p: Peer)
    requires p.up.processed <= p.published <= |p.queue.entries|
    ensures p.up.stage.UMark? ==> PeerWeight(p.(up := p.up.(stage := ULoad, updated := true))) < PeerWeight(p)
    ensures p.up.stage.ULoad? && p.up.processed == p.published ==>
              PeerWeight(p.(up := p.up.(stage := UCheck))) < PeerWeight(p)
    ensures p.up.stage.UCheck? ==> PeerWeight(p.(up := p.up.(stage := AfterCheck(cfg, p)))) < PeerWeight(p)
    ensures PeerWeight(p.(up := Wake(p.up))) <= PeerWeight(p) + 2
  {
  }

  lemma StageWeight(p: Peer, down: DownloadStage, up: UploadStage)
    requires p.up.processed <= |p.queue.entries|
    ensures PeerWeight(p.(down := p.down.(stage := down)))
         == PeerWeight(p) - DownloadRank(p.down.stage) + DownloadRank(down)
    ensures PeerWeight(p.(up := p.up.(stage := up)))
         == PeerWeight(p) - UploadRank(p.up, p.published) + UploadRank(p.up.(stage := up), p.published)
            - OfferWork(p.env.files, p.up.stage) + OfferWork(p.env.files, up)
  {
  }

  lemma {:induction false} CostsSelect(files: Files, es: seq<Entry>, found: seq<bool>)
    requires |found| == |es|
    ensures Costs(files, Select(es, found)) <= Costs(files, es)
  {
    if es != [] {
      CostsSelect(files, es[1..], found[1..]);
      CostsAppend(files, if found[0] then [] else [es[0]], Select(es[1..], found[1..]));
    }
  }

  lemma SentWeight(p: Peer, sent: seq<Entry>, found: seq<bool>)
    requires p.up.processed <= |p.queue.entries| && p.up.stage.UAck? && |found| == |p.up.stage.offer|
    ensures PeerWeight(p.(up := p.up.(stage := ULoad, sent := sent)))
            + 3 * |Records(p.env.files, Select(p.up.stage.offer, found))| < PeerWeight(p)
  {
    CostsSelect(p.env.files, p.up.stage.offer, found);
    RecordsLength(p.env.files, Select(p.up.stage.offer, found));
  }

  // ----- every step -----

  /** A step of a peer's thread leaves less work than there was, and the environment adds at most two. */
  ghost predicate Lighter(act: Action, before: int, after: int) {
    if act.Receive? then after == before else if act.Spurious? then after <= before + 2 else after < before
  }

  lemma OwnStepWeight(cfg: Config, s: Sys, act: Action)
    requires Weighed(s) && Enabled(cfg, s, act) && (IsHasherAction(act) || IsUpdateAction(act) || IsEnvironment(act))
    ensures var t := Step(cfg, s, act);
            && t.a.up.processed <= |t.a.queue.entries| && t == s.(a := t.a, toB := t.toB)
            && Lighter(act, PeerWeight(s.a), PeerWeight(t.a))
  {
    if act.HashPath? {
      HashPathWeight(s.a);
    } else if IsHasherAction(act) {
      HasherWeight(s.a);
    } else if IsUpdateAction(act) {
      UpdateWeight(s.a, act);
    } else if act.Spurious? {
      IdleWeight(cfg, s.a);
    }
  }

  lemma DecideWeight(cfg: Config, s: Sys)
    requires Weighed(s) && Enabled(cfg, s, Decide)
    ensures var t := Step(cfg, s, Decide);
            && t == s.(a := s.a.(down := t.a.down), ba := t.ba) && DownloadRank(t.a.down.stage) == 1
            && LinkWeight(t.ba) < LinkWeight(s.ba)
  {
    var hs := Offered(s);
    assert |s.ba.fwd.inb| >= 1 + 20 * |hs|;
  }

  lemma StoreWeight(cfg: Config, s: Sys)
    requires Weighed(s) && Enabled(cfg, s, Store)
    ensures var t := Step(cfg, s, Store);
            && t.a.up == s.a.up && t.a.queue == s.a.queue && t == s.(a := t.a, ba := t.ba)
            && PeerWeight(t.a) == PeerWeight(s.a) && LinkWeight(t.ba) < LinkWeight(s.ba)
  {
    assert |s.ba.fwd.inb| >= 5;
  }

  lemma DownloadStepWeight(cfg: Config, s: Sys, act: Action)
    requires Weighed(s) && Enabled(cfg, s, act)
    requires act.Announce? || act.Decide? || act.RejectOffer? || act.EndOfUpload?
    ensures var t := Step(cfg, s, act);
            && t.a.up == s.a.up && t.a.queue == s.a.queue && t == s.(a := t.a, ba := t.ba)
            && PeerWeight(t.a) + LinkWeight(t.ba) < PeerWeight(s.a) + LinkWeight(s.ba)
  {
    hide PeerWeight;
    if act.Decide? {
      DecideWeight(cfg, s);
    }
    StageWeight(s.a, Step(cfg, s, act).a.down.stage, s.a.up.stage);
  }

  lemma SendMissingWeight(cfg: Config, s: Sys)
    requires Weighed(s) && PeerInv(cfg, s.a) && Enabled(cfg, s, SendMissing)
    ensures var t := Step(cfg, s, SendMissing);
            && t.a.up.processed == s.a.up.processed && t.a.queue == s.a.queue && t == s.(a := t.a, ab := t.ab)
            && PeerWeight(t.a) + LinkWeight(t.ab) < PeerWeight(s.a) + LinkWeight(s.ab)
  {
    hide PeerInv;
    var up := s.a.up;
    var found := Decode(cfg.mask, s.ab.back.inb, |up.stage.offer|);
    SelectedReadable(cfg, s.a, found);
    SendMissingStep(cfg, s, Select(up.stage.offer, found));
    SentWeight(s.a, up.sent + Select(up.stage.offer, found), found);
  }

  lemma UploadStepWeight(cfg: Config, s: Sys, act: Action)
    requires Weighed(s) && Enabled(cfg, s, act) && IsUploadAction(act) && !act.SendMissing?
    ensures var t := Step(cfg, s, act);
            && t.a.queue == s.a.queue && t.a.up.processed <= |t.a.queue.entries| && t == s.(a := t.a, ab := t.ab)
            && PeerWeight(t.a) + LinkWeight(t.ab) < PeerWeight(s.a) + LinkWeight(s.ab)
  {
    hide PeerWeight, AfterWalk, AfterCheck, OfferBytes, HashesOf;
    match act
    case SeeUpdateEnd => StageWeight(s.a, s.a.down.stage, UMark);
    case MarkUpdated => IdleWeight(cfg, s.a);
    case LoadCount => if s.a.up.processed == s.a.published { IdleWeight(cfg, s.a); } else { WalkWeight(s.a); }
    case CheckHashing => IdleWeight(cfg, s.a);
    case EndOfAnswers => StageWeight(s.a, s.a.down.stage, UFatal);
  }

  lemma TransferWeight(cfg: Config, s: Sys, act: Action)
    requires Enabled(cfg, s, act) && (IsTransferAction(act) || act.ReadUpload?)
    ensures var t := Step(cfg, s, act);
            t == s.(ab := t.ab, ba := t.ba) && LinkWeight(t.ab) + LinkWeight(t.ba) < LinkWeight(s.ab) + LinkWeight(s.ba)
  {
    match act
    case WriteUpload(k) => WriteWeight(s.ab.fwd, k);
    case WriteAnswer(k) => WriteWeight(s.ba.back, k);
    case ReadAnswer(k) => ReadWeight(s.ab.back, k);
    case ReadUpload(k) => ReadWeight(s.ba.fwd, k);
  }

  lemma WriteWeight(c: Stream, k: nat)
    requires 1 <= k <= |c.out|
    ensures StreamWeight(WriteSome(c, k)) == StreamWeight(c) - k
  {
  }

  lemma ReadWeight(c: Stream, k: nat)
    requires 1 <= k <= |c.wire|
    ensures StreamWeight(ReadSome(c, k)) == StreamWeight(c) - k
  {
  }

  /** Every step leaves less work, whether answers are read as they were meant or not. */
  lemma StepWeight(cfg: Config, s: Sys, act: Action)
    requires Weighed(s) && PeerInv(cfg, s.a) && Enabled(cfg, s, act) && Weighed(Step(cfg, s, act))
    ensures Lighter(act, Weight(s), Weight(Step(cfg, s, act)))
  {
    hide PeerInv, PeerWeight, LinkWeight;
    if IsHasherAction(act) || IsUpdateAction(act) || IsEnvironment(act) {
      OwnStepWeight(cfg, s, act);
    } else if IsTransferAction(act) || act.ReadUpload? {
      TransferWeight(cfg, s, act);
    } else if act.Store? {
      StoreWeight(cfg, s);
    } else if IsDownloadAction(act) || act.Announce? {
      DownloadStepWeight(cfg, s, act);
    } else if act.SendMissing? {
      SendMissingWeight(cfg, s);
    } else {
      UploadStepWeight(cfg, s, act);
    }
  }
}

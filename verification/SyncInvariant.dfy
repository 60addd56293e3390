// What every step of the two peers keeps.
module SyncInvariant {
  import opened Codec
  import opened Entries
  import opened FoundMask
  import opened Framing
  import opened Hasher
  import opened FileStore
  import opened SyncModel

  // ----- one peer -----

  /** The images to be hashed are files that are not empty and whose size fits the size field. */
  ghost predicate ValidEnv(env: Env) {
    forall s :: s in env.sources && s.hash.Some? ==> 0 < |Contents(env.files, s.path)| < 0x1_0000_0000
  }

  /** All images that a peer starts with: one entry for each hash, in the order of the paths. */
  ghost function Images(env: Env): seq<Entry> {
    Listed(HASHER_RULE, [], env.sources)
  }

  ghost predicate QueueInv(env: Env, q: Queue) {
    && Balanced(HASHER_RULE, q)
    && (forall s :: s in q.todo ==> s in env.sources)
    && (forall e :: e in q.entries ==> Source(e.path, Some(e.hash)) in env.sources)
    && Listed(HASHER_RULE, q.entries, q.todo) == Images(env)
  }

  /** The counters of the update loop, and the phase it has reached. */
  ghost predicate CountInv(p: Peer) {
    var q, stage := p.queue, p.down.stage;
    && p.published <= q.delivered <= |q.entries|
    && (if stage.DPublish? then p.published + stage.n == q.delivered && stage.n >= 1 else p.published == q.delivered)
    && (stage.DNotify? || stage.DSend? ==> 1 <= stage.n <= q.delivered)
    && (p.hashing <==> Updating(stage) && !stage.DAnnounce?)
    && (stage.DFinish? || !p.hashing ==> q.done && q.delivered == |q.entries|)
  }

  ghost predicate UploaderInv(cfg: Config, p: Peer) {
    var up, entries := p.up, p.queue.entries;
    && up.processed <= p.published <= |entries|
    && (if up.updated then !up.stage.UWait? && !up.stage.UMark?
        else (up.stage.UWait? || up.stage.UMark? || up.stage.UFatal?) && up.processed == 0 && up.sent == [])
    && up.offered == NotIn(entries[..up.processed], up.received)
    && (up.stage.USleep? ==> p.hashing)
    && (up.stage.UDone? ==> !p.hashing && (cfg.exit.RereadExit? ==> up.processed == p.published))
    && (up.stage.UAck? ==> 1 <= |up.stage.offer| <= OFFER_HASHES && EndsWith(up.offered, up.stage.offer))
  }

  predicate EndsWith(all: seq<Entry>, last: seq<Entry>) {
    |last| <= |all| && all[|all| - |last|..] == last
  }

  /** No file that was not empty has changed. */
  ghost predicate FilesInv(env: Env, files: Files) {
    forall path :: Contents(env.files, path) != [] ==> Contents(files, path) == Contents(env.files, path)
  }

  ghost predicate PeerInv(cfg: Config, p: Peer) {
    && ValidEnv(p.env)
    && QueueInv(p.env, p.queue)
    && CountInv(p)
    && UploaderInv(cfg, p)
    && FilesInv(p.env, p.files)
  }

  // ----- from one peer to the other -----

  /** What is reported about the hashes of a peer is true. */
  ghost predicate NetInv(hashes: set<ExifHash>, packets: set<seq<byte>>, received: set<ExifHash>) {
    && received <= hashes
    && forall packet :: packet in packets ==> Reports(packet, hashes)
  }

  /** The downloader awaits as many records as are owed, and if answers are read as they were meant, just those. */
  ghost predicate Expects(how: Answers, stage: DownloadStage, owed: seq<Entry>) {
    if owed == [] then stage.DOffer? || stage.DDone?
    else stage.DRecords? && |stage.missing| == |owed| && (how.AsMeant? ==> stage.missing == HashesOf(owed))
  }

  /** The answer to the offer is on its way. */
  ghost predicate Answered(how: Answers, cfg: Config, offer: seq<Entry>, stage: DownloadStage, have: set<ExifHash>,
                           back: seq<byte>)
  {
    && |back| == MaskSize(|offer|)
    && var taken := Select(offer, Decode(cfg.mask, back, |offer|));
    && Expects(how, stage, taken) && (how.AsMeant? ==> taken == NotIn(offer, have))
  }

  /** What is in flight between an uploader and the other peer's downloader, at every stage of either.
      `files` are the uploader's, `have` are the hashes of the downloading peer. */
  ghost predicate LinkInv(how: Answers, cfg: Config, files: Files, up: Uploader, down: Downloader, have: set<ExifHash>,
                          link: Link)
  {
    var pend, back := Flight(link.fwd), Flight(link.back);
    && !up.stage.UFatal? && |down.got| <= |up.sent|
    && var owed := up.sent[|down.got|..];
    if Updating(down.stage) then up.stage.UWait? && pend == [] && back == [] && owed == []
    else
      && (owed != [] ==> |link.fwd.inb| <= |RecordBytes(RecordOf(files, owed[0]))|)
      && if up.stage.UWait? then pend == [] && |back| == 1 && owed == [] && down.stage.DOffer?
         else if up.stage.UAck? then
           && !down.stage.DDone?
           && ((back == [] && pend == Records(files, owed) + OfferBytes(HashesOf(up.stage.offer))
                && Expects(how, down.stage, owed))
               || (pend == [] && owed == [] && Answered(how, cfg, up.stage.offer, down.stage, have, back)))
         else
           && back == [] && pend == Records(files, owed) && Expects(how, down.stage, owed)
           && (down.stage.DDone? ==> up.stage.UDone?)
  }

  /** Only entries were sent. If answers are read as they were meant, the entries processed so far that the other
      peer does not have are the ones sent, and those in an open offer. */
  ghost predicate CoverInv(how: Answers, entries: seq<Entry>, up: Uploader, have: set<ExifHash>) {
    && up.processed <= |entries|
    && (forall e :: e in up.sent ==> e in entries)
    && (how.AsMeant? ==>
          up.sent + (if up.stage.UAck? then NotIn(up.stage.offer, have) else [])
          == NotIn(entries[..up.processed], have))
  }

  /** A download is whole at one of its two paths, in a file that was empty before; or both paths are taken. */
  ghost predicate Kept(p: Peer, d: Download) {
    var plain, hashed := PlainPath(p.env.dir, d.record.name), HashedPath(p.env.dir, d.record.name, d.hash);
    match d.path
    case Some(path) =>
      && path in {plain, hashed}
      && Contents(p.files, path) == d.record.body && Contents(p.env.files, path) == []
    case None => !Free(p.files, p.env.locked, plain) && !Free(p.files, p.env.locked, hashed)
  }

  ghost predicate GotInv(how: Answers, files: Files, sent: seq<Entry>, p: Peer) {
    var got := p.down.got;
    && |got| <= |sent|
    && (forall i :: 0 <= i < |got| ==>
          && got[i].record == RecordOf(files, sent[i]) && Sendable(got[i].record)
          && (how.AsMeant? ==> got[i].hash == sent[i].hash))
    && (forall i :: 0 <= i < |got| ==> Kept(p, got[i]))
    && (forall i, j :: 0 <= i < j < |got| && got[i].path.Some? ==> got[i].path != got[j].path)
  }

  ghost predicate Half(how: Answers, cfg: Config, s: Sys) {
    var have := HashSet(s.b.queue.entries);
    && PeerInv(cfg, s.a)
    && NetInv(have, s.toA, s.a.up.received)
    && LinkInv(how, cfg, s.a.env.files, s.a.up, s.b.down, have, s.ab)
    && CoverInv(how, s.a.queue.entries, s.a.up, have)
    && GotInv(how, s.a.env.files, s.a.up.sent, s.b)
  }

  ghost predicate Inv(how: Answers, cfg: Config, s: Sys) {
    Half(how, cfg, s) && Half(how, cfg, Swap(s))
  }

  lemma InitKeeps(how: Answers, cfg: Config, a: Env, b: Env)
    requires ValidEnv(a) && ValidEnv(b)
    ensures Inv(how, cfg, StartSys(a, b))
  {
    StartPeerInv(cfg, a);
    StartPeerInv(cfg, b);
    assert Half(how, cfg, StartSys(a, b));
    assert Half(how, cfg, StartSys(b, a));
  }

  lemma StartPeerInv(cfg: Config, env: Env)
    requires ValidEnv(env)
    ensures PeerInv(cfg, StartPeer(env))
  {
  }

  // ----- the hasher -----

  ghost predicate Grows(q: Queue, next: Queue) {
    q.entries <= next.entries && next.delivered == q.delivered
  }

  lemma HashPathQueue(q: Queue, env: Env)
    requires QueueInv(env, q) && CanHash(q)
    ensures QueueInv(env, HashNext(HASHER_RULE, q)) && Grows(q, HashNext(HASHER_RULE, q)) && !q.done
  {
    var next := HashNext(HASHER_RULE, q);
    HashNextBalanced(HASHER_RULE, q);
    assert q.todo[0] in q.todo;
    forall e | e in next.entries
      ensures Source(e.path, Some(e.hash)) in env.sources
    {
      if e !in q.entries {
        assert Source(e.path, Some(e.hash)) == q.todo[0];
      }
    }
  }

  lemma HashCreditQueue(q: Queue, env: Env)
    requires QueueInv(env, q) && CanCredit(q)
    ensures QueueInv(env, Credit(HASHER_RULE, q)) && Grows(q, Credit(HASHER_RULE, q)) && !q.done
  {
    DoBalanced(HASHER_RULE, q, DoCredit, 0);
  }

  lemma HashFinishQueue(q: Queue, env: Env)
    requires QueueInv(env, q) && CanFinish(q)
    ensures QueueInv(env, Finish(HASHER_RULE, q)) && Grows(q, Finish(HASHER_RULE, q)) && !q.done
  {
    FinishBalanced(HASHER_RULE, q);
  }

  lemma HasherKeepsPeer(cfg: Config, p: Peer, next: Queue)
    requires PeerInv(cfg, p) && !p.queue.done && Grows(p.queue, next) && QueueInv(p.env, next)
    ensures PeerInv(cfg, p.(queue := next)) && Updating(p.down.stage)
  {
    assert next.entries[..p.up.processed] == p.queue.entries[..p.up.processed];
    CreditsBound(HASHER_RULE, next);
  }

  lemma HasherKeepsLink(how: Answers, cfg: Config, s: Sys, next: Queue)
    requires Half(how, cfg, Swap(s)) && PeerInv(cfg, s.b) && Updating(s.a.down.stage)
    ensures LinkInv(how, cfg, s.b.env.files, s.b.up, s.a.down, HashSet(next.entries), s.ba)
    ensures CoverInv(how, s.b.queue.entries, s.b.up, HashSet(next.entries))
  {
    assert s.b.up.stage.UWait?;
    assert s.b.queue.entries[..0] == [];
  }

  lemma NetGrows(hashes: set<ExifHash>, more: set<ExifHash>, packets: set<seq<byte>>, received: set<ExifHash>)
    requires NetInv(hashes, packets, received) && hashes <= more
    ensures NetInv(more, packets, received)
  {
  }

  lemma CoverGrows(how: Answers, entries: seq<Entry>, more: seq<Entry>, up: Uploader, have: set<ExifHash>)
    requires CoverInv(how, entries, up, have) && entries <= more
    ensures CoverInv(how, more, up, have)
  {
    assert more[..up.processed] == entries[..up.processed];
  }

  lemma HasherHalf(how: Answers, cfg: Config, s: Sys, next: Queue)
    requires Half(how, cfg, s) && PeerInv(cfg, s.a.(queue := next)) && Grows(s.a.queue, next)
    ensures Half(how, cfg, s.(a := s.a.(queue := next)))
  {
    hide PeerInv, LinkInv, CoverInv, GotInv, NetInv;
    CoverGrows(how, s.a.queue.entries, next.entries, s.a.up, HashSet(s.b.queue.entries));
  }

  lemma HasherFrame(how: Answers, cfg: Config, s: Sys, next: Queue)
    requires Half(how, cfg, Swap(s)) && Updating(s.a.down.stage) && Grows(s.a.queue, next)
    ensures Half(how, cfg, Swap(s.(a := s.a.(queue := next))))
  {
    HashSetMonotone(s.a.queue.entries, next.entries);
    NetGrows(HashSet(s.a.queue.entries), HashSet(next.entries), s.toB, s.b.up.received);
    HasherKeepsLink(how, cfg, s, next);
    forall d | Kept(s.a, d)
      ensures Kept(s.a.(queue := next), d)
    {
    }
  }

  lemma HasherKeeps(how: Answers, cfg: Config, s: Sys, next: Queue)
    requires Inv(how, cfg, s) && !s.a.queue.done
    requires Grows(s.a.queue, next) && QueueInv(s.a.env, next)
    ensures Inv(how, cfg, s.(a := s.a.(queue := next)))
  {
    HasherKeepsPeer(cfg, s.a, next);
    HasherHalf(how, cfg, s, next);
    HasherFrame(how, cfg, s, next);
  }

  // ----- the downloader while it sends the update -----

  /** A step of the update loop: it may wake the uploader, and add a datagram. */
  ghost predicate UpdateStep(p: Peer, next: Peer) {
    && next.env == p.env && next.queue.entries == p.queue.entries && next.files == p.files
    && (next.up == p.up || next.up == Wake(p.up))
    && next.down.got == p.down.got && Updating(p.down.stage) && Updating(next.down.stage)
  }

  lemma UpdateHalf(how: Answers, cfg: Config, s: Sys, next: Peer, packets: set<seq<byte>>)
    requires Half(how, cfg, s) && UpdateStep(s.a, next) && PeerInv(cfg, next)
    ensures Half(how, cfg, s.(a := next, toB := packets))
  {
    assert LinkInv(how, cfg, s.a.env.files, next.up, s.b.down, HashSet(s.b.queue.entries), s.ab);
    assert CoverInv(how, next.queue.entries, next.up, HashSet(s.b.queue.entries));
  }

  lemma UpdateFrame(how: Answers, cfg: Config, s: Sys, next: Peer, packets: set<seq<byte>>)
    requires Half(how, cfg, Swap(s)) && UpdateStep(s.a, next)
    requires NetInv(HashSet(s.a.queue.entries), packets, s.b.up.received)
    ensures Half(how, cfg, Swap(s.(a := next, toB := packets)))
  {
    assert LinkInv(how, cfg, s.b.env.files, s.b.up, next.down, HashSet(next.queue.entries), s.ba);
    forall d | Kept(s.a, d)
      ensures Kept(next, d)
    {
    }
  }

  lemma UpdateKeeps(how: Answers, cfg: Config, s: Sys, next: Peer, packets: set<seq<byte>>)
    requires Inv(how, cfg, s) && UpdateStep(s.a, next) && PeerInv(cfg, next)
    requires NetInv(HashSet(s.a.queue.entries), packets, s.b.up.received)
    ensures Inv(how, cfg, s.(a := next, toB := packets))
  {
    UpdateHalf(how, cfg, s, next, packets);
    UpdateFrame(how, cfg, s, next, packets);
  }

  predicate IsUpdateAction(act: Action) {
    act.TakeBatch? || act.Publish? || act.Notify? || act.SendBatch? || act.EndHashing?
  }

  lemma TakeBatchPeer(cfg: Config, p: Peer)
    requires PeerInv(cfg, p) && p.down.stage.DGet? && CanTake(p.queue, UPDATE_HASHES)
    ensures PeerInv(cfg, UpdatePeer(p, TakeBatch)) && UpdateStep(p, UpdatePeer(p, TakeBatch))
  {
    var q, next := p.queue, Take(p.queue, UPDATE_HASHES);
    DoBalanced(HASHER_RULE, q, DoGet, UPDATE_HASHES);
    CreditsBound(HASHER_RULE, next);
    assert QueueInv(p.env, next);
  }

  lemma UpdatePeerKeeps(cfg: Config, p: Peer, act: Action)
    requires PeerInv(cfg, p) && UpdatePeer.requires(p, act) && !act.TakeBatch?
    ensures PeerInv(cfg, UpdatePeer(p, act)) && UpdateStep(p, UpdatePeer(p, act))
  {
    var next := UpdatePeer(p, act);
    assert QueueInv(next.env, next.queue) && FilesInv(next.env, next.files) && ValidEnv(next.env);
    UpdateCounts(cfg, p, act);
  }

  lemma UpdateCounts(cfg: Config, p: Peer, act: Action)
    requires CountInv(p) && UploaderInv(cfg, p) && UpdatePeer.requires(p, act) && !act.TakeBatch?
    ensures CountInv(UpdatePeer(p, act)) && UploaderInv(cfg, UpdatePeer(p, act))
  {
  }

  lemma BatchReported(p: Peer)
    requires BatchPacket.requires(p)
    ensures Reports(BatchPacket(p), HashSet(p.queue.entries))
  {
    hide PacketSet, UpdatePacket;
    var q, n := p.queue, p.down.stage.n;
    var batch := q.entries[q.delivered - n..q.delivered];
    forall h | h in PacketSet(BatchPacket(p))
      ensures h in HashSet(q.entries)
    {
      PacketSetRoundTrip(HashesOf(batch), h);
      var i :| 0 <= i < |batch| && HashesOf(batch)[i] == h;
      assert q.entries[q.delivered - n + i].hash == h;
      InHashSet(q.entries, h);
    }
  }

  lemma UpdateActionKeeps(how: Answers, cfg: Config, s: Sys, act: Action)
    requires Inv(how, cfg, s) && UpdatePeer.requires(s.a, act) && !act.SendBatch?
    requires act.TakeBatch? ==> CanTake(s.a.queue, UPDATE_HASHES)
    ensures Inv(how, cfg, s.(a := UpdatePeer(s.a, act)))
  {
    if act.TakeBatch? {
      TakeBatchPeer(cfg, s.a);
    } else {
      UpdatePeerKeeps(cfg, s.a, act);
    }
    UpdateKeeps(how, cfg, s, UpdatePeer(s.a, act), s.toB);
  }

  lemma NetAdds(how: Answers, cfg: Config, s: Sys, packet: seq<byte>)
    requires Half(how, cfg, Swap(s)) && Reports(packet, HashSet(s.a.queue.entries))
    ensures NetInv(HashSet(s.a.queue.entries), s.toB + {packet}, s.b.up.received)
  {
    hide PeerInv, LinkInv, CoverInv, GotInv;
  }

  lemma SendBatchKeeps(how: Answers, cfg: Config, s: Sys, packet: seq<byte>)
    requires Inv(how, cfg, s) && s.a.down.stage.DSend? && Reports(packet, HashSet(s.a.queue.entries))
    ensures Inv(how, cfg, s.(a := UpdatePeer(s.a, SendBatch), toB := s.toB + {packet}))
  {
    hide PeerInv, LinkInv, CoverInv, GotInv;
    NetAdds(how, cfg, s, packet);
    UpdatePeerKeeps(cfg, s.a, SendBatch);
    UpdateKeeps(how, cfg, s, UpdatePeer(s.a, SendBatch), s.toB + {packet});
  }

  lemma AnnounceKeeps(how: Answers, cfg: Config, s: Sys, b: byte)
    requires Inv(how, cfg, s) && s.a.down.stage.DAnnounce? && s.ba.back.out == []
    ensures Inv(how, cfg, s.(a := s.a.(down := s.a.down.(stage := DOffer)), ba := s.ba.(back := Post(s.ba.back, [b]))))
  {
    var down, ba := s.a.down.(stage := DOffer), s.ba.(back := Post(s.ba.back, [b]));
    AnnouncePeer(cfg, s.a);
    AnnounceHalf(how, cfg, s, down, ba);
    AnnounceLink(how, cfg, s.b.env.files, s.b.up, s.a.down, HashSet(s.a.queue.entries), s.ba, b);
    AnnounceFrame(how, cfg, s, ba);
  }

  lemma AnnounceHalf(how: Answers, cfg: Config, s: Sys, down: Downloader, ba: Link)
    requires Half(how, cfg, s) && PeerInv(cfg, s.a.(down := down))
    ensures Half(how, cfg, s.(a := s.a.(down := down), ba := ba))
  {
  }

  lemma AnnounceFrame(how: Answers, cfg: Config, s: Sys, ba: Link)
    requires Half(how, cfg, Swap(s))
    requires LinkInv(how, cfg, s.b.env.files, s.b.up, s.a.down.(stage := DOffer), HashSet(s.a.queue.entries), ba)
    ensures Half(how, cfg, Swap(s.(a := s.a.(down := s.a.down.(stage := DOffer)), ba := ba)))
  {
    GotStage(how, s.b.env.files, s.b.up.sent, s.a, DOffer);
  }

  lemma AnnouncePeer(cfg: Config, p: Peer)
    requires PeerInv(cfg, p) && p.down.stage.DAnnounce?
    ensures PeerInv(cfg, p.(down := p.down.(stage := DOffer)))
  {
  }

  lemma AnnounceLink(how: Answers, cfg: Config, files: Files, up: Uploader, down: Downloader, have: set<ExifHash>,
                     link: Link,
                     b: byte)
    requires LinkInv(how, cfg, files, up, down, have, link) && down.stage.DAnnounce? && link.back.out == []
    ensures LinkInv(how, cfg, files, up, down.(stage := DOffer), have, link.(back := Post(link.back, [b])))
  {
  }

  // ----- bytes on their way -----

  lemma TransferKeeps(how: Answers, cfg: Config, s: Sys, ab: Link)
    requires Inv(how, cfg, s)
    requires Flight(ab.fwd) == Flight(s.ab.fwd) && Flight(ab.back) == Flight(s.ab.back)
    requires |s.b.down.got| <= |s.a.up.sent|
    requires var owed := s.a.up.sent[|s.b.down.got|..];
             ab.fwd.inb == s.ab.fwd.inb
             || (owed != [] ==> |ab.fwd.inb| <= |RecordBytes(RecordOf(s.a.env.files, owed[0]))|)
    ensures Inv(how, cfg, s.(ab := ab))
  {
    assert Half(how, cfg, s.(ab := ab));
    assert Half(how, cfg, Swap(s.(ab := ab)));
  }

  lemma TransferSame(how: Answers, cfg: Config, s: Sys, ab: Link)
    requires Inv(how, cfg, s) && ab.fwd.inb == s.ab.fwd.inb
    requires Flight(ab.fwd) == Flight(s.ab.fwd) && Flight(ab.back) == Flight(s.ab.back)
    ensures Inv(how, cfg, s.(ab := ab))
  {
    TransferKeeps(how, cfg, s, ab);
  }

  /** The image of an entry can be sent. */
  lemma EntrySendable(env: Env, q: Queue, e: Entry)
    requires ValidEnv(env) && QueueInv(env, q) && e in q.entries
    ensures Sendable(RecordOf(env.files, e))
  {
    assert Source(e.path, Some(e.hash)) in env.sources;
  }

  /** What was sent are entries of the uploader. */
  lemma SentEntries(how: Answers, entries: seq<Entry>, up: Uploader, have: set<ExifHash>, e: Entry)
    requires CoverInv(how, entries, up, have) && e in up.sent
    ensures e in entries && (how.AsMeant? ==> e.hash !in have)
  {
    InNotIn(entries[..up.processed], have, e);
    var all := up.sent + if up.stage.UAck? then NotIn(up.stage.offer, have) else [];
    assert e in all;
  }

  /** Bytes in flight towards a downloader begin with the message it is reading. */
  ghost predicate Reading(how: Answers, p: Peer, stage: DownloadStage, owed: seq<Entry>, up: Uploader,
                          pend: seq<byte>, inb: seq<byte>)
  {
    if owed != [] then
      var r := RecordOf(p.env.files, owed[0]);
      && Expects(how, stage, owed) && Sendable(r)
      && inb <= RecordBytes(r) <= pend
    else
      && stage.DOffer? && up.stage.UAck?
      && pend == OfferBytes(HashesOf(up.stage.offer)) && inb <= pend
  }

  lemma SentSendable(how: Answers, cfg: Config, s: Sys, e: Entry)
    requires Half(how, cfg, s) && e in s.a.up.sent
    ensures Sendable(RecordOf(s.a.env.files, e))
  {
    hide LinkInv, GotInv, NetInv, Sendable;
    SentEntries(how, s.a.queue.entries, s.a.up, HashSet(s.b.queue.entries), e);
    EntrySendable(s.a.env, s.a.queue, e);
  }

  /** A downloader that has bytes in flight reads a record or an offer, and it is one that was sent. */
  lemma ReadingFromLink(how: Answers, cfg: Config, s: Sys)
    requires Half(how, cfg, s) && Flight(s.ab.fwd) != []
    ensures var owed := s.a.up.sent[|s.b.down.got|..];
            Reading(how, s.a, s.b.down.stage, owed, s.a.up, Flight(s.ab.fwd), s.ab.fwd.inb)
  {
    hide PeerInv, CoverInv, GotInv, NetInv, Sendable;
    var owed, pend := s.a.up.sent[|s.b.down.got|..], Flight(s.ab.fwd);
    if owed != [] {
      SentSendable(how, cfg, s, owed[0]);
      var r := RecordBytes(RecordOf(s.a.env.files, owed[0]));
      assert r <= Records(s.a.env.files, owed) <= pend;
      assert s.ab.fwd.inb <= pend;
    }
  }

  // ----- the downloader on the connection (here it is peer b, and peer a uploads) -----

  lemma DownloadPeer(cfg: Config, p: Peer, down: Downloader, files: Files)
    requires PeerInv(cfg, p) && !Updating(p.down.stage) && !Updating(down.stage) && FilesInv(p.env, files)
    ensures PeerInv(cfg, p.(down := down, files := files))
  {
  }

  lemma DownloadHalf(how: Answers, cfg: Config, s: Sys, down: Downloader, files: Files, ab: Link)
    requires Half(how, cfg, s)
    requires LinkInv(how, cfg, s.a.env.files, s.a.up, down, HashSet(s.b.queue.entries), ab)
    requires GotInv(how, s.a.env.files, s.a.up.sent, s.b.(down := down, files := files))
    ensures Half(how, cfg, s.(b := s.b.(down := down, files := files), ab := ab))
  {
  }

  lemma DownloadFrame(how: Answers, cfg: Config, s: Sys, down: Downloader, files: Files, ab: Link)
    requires Half(how, cfg, Swap(s)) && PeerInv(cfg, s.b.(down := down, files := files))
    ensures Half(how, cfg, Swap(s.(b := s.b.(down := down, files := files), ab := ab)))
  {
  }

  lemma DownloadKeeps(how: Answers, cfg: Config, s: Sys, down: Downloader, files: Files, ab: Link)
    requires Inv(how, cfg, s) && !Updating(s.b.down.stage) && !Updating(down.stage) && FilesInv(s.b.env, files)
    requires LinkInv(how, cfg, s.a.env.files, s.a.up, down, HashSet(s.b.queue.entries), ab)
    requires GotInv(how, s.a.env.files, s.a.up.sent, s.b.(down := down, files := files))
    ensures Inv(how, cfg, s.(b := s.b.(down := down, files := files), ab := ab))
  {
    DownloadPeer(cfg, s.b, down, files);
    DownloadHalf(how, cfg, s, down, files, ab);
    DownloadFrame(how, cfg, s, down, files, ab);
  }

  lemma DownloadStageKeeps(how: Answers, cfg: Config, s: Sys, stage: DownloadStage, ab: Link)
    requires Inv(how, cfg, s) && !Updating(s.b.down.stage) && !Updating(stage)
    requires LinkInv(how, cfg, s.a.env.files, s.a.up, s.b.down.(stage := stage), HashSet(s.b.queue.entries), ab)
    ensures Inv(how, cfg, s.(b := s.b.(down := s.b.down.(stage := stage)), ab := ab))
  {
    GotStage(how, s.a.env.files, s.a.up.sent, s.b, stage);
    DownloadKeeps(how, cfg, s, s.b.down.(stage := stage), s.b.files, ab);
    assert s.b.(down := s.b.down.(stage := stage), files := s.b.files) == s.b.(down := s.b.down.(stage := stage));
  }

  lemma GotStage(how: Answers, files: Files, sent: seq<Entry>, p: Peer, stage: DownloadStage)
    requires GotInv(how, files, sent, p)
    ensures GotInv(how, files, sent, p.(down := p.down.(stage := stage)))
    ensures p.(down := p.down.(stage := stage), files := p.files) == p.(down := p.down.(stage := stage))
  {
    KeptAll(p, p.down.(stage := stage));
  }

  /** The answer to the offer that `s.a` has just received will be read as is asked. */
  ghost predicate OfferAgrees(how: Answers, cfg: Config, s: Sys) {
    s.ba.fwd.inb != [] && OfferNeed(s.ba.fwd.inb) == 0 ==>
      Fits(how, cfg.mask, Flags(Offered(s), HashSet(s.a.queue.entries)))
  }

  /** An offer that has arrived is the one that was made, and all that is in flight. */
  lemma OfferArrived(how: Answers, cfg: Config, s: Sys)
    requires Half(how, cfg, s) && s.b.down.stage.DOffer? && s.ab.fwd.inb != [] && OfferNeed(s.ab.fwd.inb) == 0
    ensures s.a.up.stage.UAck? && OfferHashes(s.ab.fwd.inb) == HashesOf(s.a.up.stage.offer)
    ensures Flight(Consume(s.ab.fwd)) == []
  {
    ReadingFromLink(how, cfg, s);
    var hs := HashesOf(s.a.up.stage.offer);
    OfferDelimited(hs, s.ab.fwd.inb);
    OfferRoundTrip(hs);
    assert s.ab.fwd.inb + [] == Flight(s.ab.fwd);
    SameTail(s.ab.fwd.inb, Flight(Consume(s.ab.fwd)), []);
  }

  /** What the uploader takes from an answer that fits, compared with what the downloader awaits. */
  lemma AnswerFits(how: Answers, rule: MaskRule, offer: seq<Entry>, have: set<ExifHash>)
    requires !how.Anyhow? && Fits(how, rule, Flags(HashesOf(offer), have))
    ensures var read := Decode(rule, Encode(rule, Flags(HashesOf(offer), have)), |offer|);
            && |Select(offer, read)| == |MissingHashes(HashesOf(offer), have)|
            && (how.AsMeant? ==> Select(offer, read) == NotIn(offer, have)
                                 && MissingHashes(HashesOf(offer), have) == HashesOf(NotIn(offer, have)))
  {
    SelectIsNotIn(offer, have);
    if how.InNumber? {
      var found, n := Flags(HashesOf(offer), have), |offer|;
      var read := Decode(rule, Encode(rule, found), n);
      hide Encode, Decode;
      assert offer[..n] == offer && read[..n] == read && found[..n] == found;
      SelectCount(offer, read, n);
      SelectCount(offer, found, n);
    }
  }

  lemma AnswerUnderWay(how: Answers, cfg: Config, offer: seq<Entry>, have: set<ExifHash>)
    requires !how.Anyhow? && Fits(how, cfg.mask, Flags(HashesOf(offer), have))
    ensures var hs := HashesOf(offer);
            Answered(how, cfg, offer, AfterOffer(MissingHashes(hs, have)), have, Encode(cfg.mask, Flags(hs, have)))
  {
    AnswerFits(how, cfg.mask, offer, have);
    hide Fits, Encode, Decode, MissingHashes, Select, NotIn;
  }

  lemma AnswerLink(how: Answers, cfg: Config, files: Files, up: Uploader, down: Downloader, have: set<ExifHash>,
                   link: Link, stage: DownloadStage, mask: seq<byte>)
    requires LinkInv(how, cfg, files, up, down, have, link)
    requires up.stage.UAck? && down.stage.DOffer? && link.back.out == []
    requires Flight(link.fwd) != [] && Flight(Consume(link.fwd)) == []
    requires Answered(how, cfg, up.stage.offer, stage, have, mask) && (stage.DOffer? || stage.DRecords?)
    ensures LinkInv(how, cfg, files, up, down.(stage := stage), have, Link(Consume(link.fwd), Post(link.back, mask)))
  {
    hide Answered;
    var owed := up.sent[|down.got|..];
    assert Flight(link.back) == [] && owed == [];
    assert Flight(Post(link.back, mask)) == mask;
  }

  lemma DecideKeeps(how: Answers, cfg: Config, s: Sys, hs: seq<ExifHash>)
    requires Inv(how, cfg, s) && s.b.down.stage.DOffer? && s.ab.back.out == []
    requires s.ab.fwd.inb != [] && OfferNeed(s.ab.fwd.inb) == 0 && hs == OfferHashes(s.ab.fwd.inb)
    requires !how.Anyhow? && Fits(how, cfg.mask, Flags(hs, HashSet(s.b.queue.entries)))
    ensures var have := HashSet(s.b.queue.entries);
            Inv(how, cfg, s.(b := s.b.(down := s.b.down.(stage := AfterOffer(MissingHashes(hs, have)))),
                        ab := Link(Consume(s.ab.fwd), Post(s.ab.back, Encode(cfg.mask, Flags(hs, have))))))
  {
    var have := HashSet(s.b.queue.entries);
    OfferArrived(how, cfg, s);
    AnswerUnderWay(how, cfg, s.a.up.stage.offer, have);
    AnswerLink(how, cfg, s.a.env.files, s.a.up, s.b.down, have, s.ab,
               AfterOffer(MissingHashes(hs, have)), Encode(cfg.mask, Flags(hs, have)));
    DownloadStageKeeps(how, cfg, s, AfterOffer(MissingHashes(hs, have)),
                       Link(Consume(s.ab.fwd), Post(s.ab.back, Encode(cfg.mask, Flags(hs, have)))));
  }

  /** The record that is complete is that of the next entry. */
  lemma CompleteRecord(how: Answers, cfg: Config, s: Sys)
    requires Half(how, cfg, s) && s.b.down.stage.DRecords? && RecordNeed(s.ab.fwd.inb) == 0
    ensures var n := |s.b.down.got|;
            && n < |s.a.up.sent| && |s.b.down.stage.missing| == |s.a.up.sent| - n
            && (how.AsMeant? ==> s.b.down.stage.missing == HashesOf(s.a.up.sent[n..]))
            && ParseRecord(s.ab.fwd.inb) == RecordOf(s.a.env.files, s.a.up.sent[n])
            && s.ab.fwd.inb == RecordBytes(RecordOf(s.a.env.files, s.a.up.sent[n]))
            && Sendable(RecordOf(s.a.env.files, s.a.up.sent[n]))
  {
    var owed := s.a.up.sent[|s.b.down.got|..];
    assert s.ab.fwd.inb != [];
    ReadingFromLink(how, cfg, s);
    var r := RecordOf(s.a.env.files, owed[0]);
    RecordDelimited(r, s.ab.fwd.inb);
    RecordRoundTrip(r);
  }

  /** What follows the records that are owed. */
  function OpenOffer(up: Uploader): seq<byte> {
    if up.stage.UAck? then OfferBytes(HashesOf(up.stage.offer)) else []
  }

  lemma OwedFlight(how: Answers, cfg: Config, files: Files, up: Uploader, down: Downloader, have: set<ExifHash>,
                   link: Link)
    requires LinkInv(how, cfg, files, up, down, have, link) && |down.got| < |up.sent|
    ensures !Updating(down.stage) && !up.stage.UWait? && !up.stage.UFatal?
    ensures Expects(how, down.stage, up.sent[|down.got|..]) && Flight(link.back) == []
    ensures Flight(link.fwd) == Records(files, up.sent[|down.got|..]) + OpenOffer(up)
  {
    hide Records, OfferBytes, Answered;
  }

  lemma RestLink(how: Answers, cfg: Config, files: Files, up: Uploader, down: Downloader, have: set<ExifHash>,
                 link: Link)
    requires |down.got| <= |up.sent| && !Updating(down.stage) && !down.stage.DDone?
    requires !up.stage.UWait? && !up.stage.UFatal? && link.fwd.inb == [] && Flight(link.back) == []
    requires Expects(how, down.stage, up.sent[|down.got|..])
    requires Flight(link.fwd) == Records(files, up.sent[|down.got|..]) + OpenOffer(up)
    ensures LinkInv(how, cfg, files, up, down, have, link)
  {
    hide Records, RecordBytes, OfferBytes, Answered, Expects;
    var r := Records(files, up.sent[|down.got|..]);
    assert r + [] == r;
  }

  lemma StoreLink(how: Answers, cfg: Config, files: Files, up: Uploader, down: Downloader, have: set<ExifHash>,
                  link: Link, d: Download)
    requires LinkInv(how, cfg, files, up, down, have, link) && |down.got| < |up.sent|
    requires down.stage.DRecords? && link.fwd.inb == RecordBytes(RecordOf(files, up.sent[|down.got|]))
    ensures var rest := down.stage.missing[1..];
            LinkInv(how, cfg, files, up, Downloader(AfterOffer(rest), down.got + [d]), have,
                    link.(fwd := Consume(link.fwd)))
  {
    var n := |down.got|;
    var owed, rest := up.sent[n..], up.sent[n + 1..];
    assert rest == owed[1..] && owed[0] == up.sent[n];
    OwedFlight(how, cfg, files, up, down, have, link);
    ExpectsRest(how, down.stage.missing, owed);
    StoreFlight(link.fwd, RecordBytes(RecordOf(files, owed[0])), Records(files, rest), OpenOffer(up));
    hide LinkInv, Expects, OpenOffer, RecordBytes;
    RestLink(how, cfg, files, up, Downloader(AfterOffer(down.stage.missing[1..]), down.got + [d]), have,
             link.(fwd := Consume(link.fwd)));
  }

  lemma ExpectsRest(how: Answers, missing: seq<ExifHash>, owed: seq<Entry>)
    requires owed != [] && Expects(how, DRecords(missing), owed)
    ensures missing != [] && Expects(how, AfterOffer(missing[1..]), owed[1..]) && !AfterOffer(missing[1..]).DDone?
  {
    assert HashesOf(owed)[1..] == HashesOf(owed[1..]);
  }

  lemma StoreFlight(c: Stream, first: seq<byte>, rest: seq<byte>, after: seq<byte>)
    requires Flight(c) == first + rest + after && c.inb == first
    ensures Flight(Consume(c)) == rest + after
  {
    assert first + rest + after == first + (rest + after);
    SameTail(first, Flight(Consume(c)), rest + after);
  }

  lemma SameTail(a: seq<byte>, b: seq<byte>, c: seq<byte>)
    ensures a + b == a + c ==> b == c
  {
    assert (a + b)[|a|..] == b && (a + c)[|a|..] == c;
  }

  /** An earlier download stays as it is, because only a file that was empty is written. */
  lemma StillKept(p: Peer, d: Download, path: Path, body: seq<byte>)
    requires Kept(p, d) && d.record.body != []
    requires Contents(p.files, path) == [] && Contents(p.env.files, path) == []
    ensures Kept(p.(files := p.files[path := body]), d) || body == []
    ensures d.path != Some(path)
  {
  }

  lemma StoreFiles(env: Env, files: Files, h: ExifHash, r: Record)
    requires FilesInv(env, files)
    ensures FilesInv(env, Save(files, env.locked, env.dir, h, r).files)
  {
    SaveOutcome(files, env.locked, env.dir, h, r);
  }

  lemma StoreKept(p: Peer, h: ExifHash, r: Record, d: Download)
    requires FilesInv(p.env, p.files) && Kept(p, d) && Sendable(d.record) && Sendable(r)
    ensures var stored := Save(p.files, p.env.locked, p.env.dir, h, r);
            Kept(p.(files := stored.files), d) && (stored.path.Some? ==> d.path != stored.path)
  {
    var stored := Save(p.files, p.env.locked, p.env.dir, h, r);
    SaveOutcome(p.files, p.env.locked, p.env.dir, h, r);
    hide Save;
    if stored.path.Some? {
      StillKept(p, d, stored.path.value, r.body);
    }
  }

  lemma StoredKept(p: Peer, h: ExifHash, r: Record)
    requires FilesInv(p.env, p.files)
    ensures var stored := Save(p.files, p.env.locked, p.env.dir, h, r);
            Kept(p.(files := stored.files), Download(h, r, stored.path))
  {
    SaveOutcome(p.files, p.env.locked, p.env.dir, h, r);
    hide Save;
  }

  lemma GotOneMore(how: Answers, files: Files, sent: seq<Entry>, p: Peer, next: Peer, d: Download)
    requires GotInv(how, files, sent, p) && |p.down.got| < |sent| && next.down.got == p.down.got + [d]
    requires d.record == RecordOf(files, sent[|p.down.got|]) && Sendable(d.record)
    requires how.AsMeant? ==> d.hash == sent[|p.down.got|].hash
    requires Kept(next, d) && forall i :: 0 <= i < |p.down.got| ==> Kept(next, p.down.got[i])
    requires d.path.Some? ==> forall i :: 0 <= i < |p.down.got| ==> p.down.got[i].path != d.path
    ensures GotInv(how, files, sent, next)
  {
    hide Kept, RecordOf, Sendable;
  }

  /** Whatever hash a record is stored under, every earlier download stays as it is. */
  lemma StoreGot(how: Answers, files: Files, sent: seq<Entry>, p: Peer, stage: DownloadStage, h: ExifHash)
    requires GotInv(how, files, sent, p) && FilesInv(p.env, p.files) && |p.down.got| < |sent|
    requires Sendable(RecordOf(files, sent[|p.down.got|])) && (how.AsMeant? ==> h == sent[|p.down.got|].hash)
    ensures var r := RecordOf(files, sent[|p.down.got|]);
            var stored := Save(p.files, p.env.locked, p.env.dir, h, r);
            && FilesInv(p.env, stored.files)
            && GotInv(how, files, sent, p.(files := stored.files,
                                           down := Downloader(stage, p.down.got + [Download(h, r, stored.path)])))
  {
    var got := p.down.got;
    var r := RecordOf(files, sent[|got|]);
    var stored := Save(p.files, p.env.locked, p.env.dir, h, r);
    hide Save, RecordOf, Kept, FilesInv, Sendable;
    StoreFiles(p.env, p.files, h, r);
    var next := p.(files := stored.files);
    forall i | 0 <= i < |got|
      ensures Kept(next, got[i]) && (stored.path.Some? ==> got[i].path != stored.path)
    {
      StoreKept(p, h, r, got[i]);
    }
    StoredKept(p, h, r);
    var down := Downloader(stage, got + [Download(h, r, stored.path)]);
    KeptAll(next, down);
    hide GotInv;
    GotOneMore(how, files, sent, p, next.(down := down), Download(h, r, stored.path));
  }

  /** Whether a download is kept does not depend on the downloader's stage or list. */
  lemma KeptAll(p: Peer, down: Downloader)
    ensures forall d :: Kept(p, d) ==> Kept(p.(down := down), d)
  {
  }

  lemma StoreKeeps(how: Answers, cfg: Config, s: Sys, stored: Stored)
    requires Inv(how, cfg, s) && s.b.down.stage.DRecords? && s.b.down.stage.missing != []
    requires RecordNeed(s.ab.fwd.inb) == 0
    requires stored == Save(s.b.files, s.b.env.locked, s.b.env.dir, s.b.down.stage.missing[0],
                            ParseRecord(s.ab.fwd.inb))
    ensures var down, r := s.b.down, ParseRecord(s.ab.fwd.inb);
            Inv(how, cfg, s.(b := s.b.(down := Downloader(AfterOffer(down.stage.missing[1..]),
                                                     down.got + [Download(down.stage.missing[0], r, stored.path)]),
                                  files := stored.files),
                        ab := s.ab.(fwd := Consume(s.ab.fwd))))
  {
    var down, r := s.b.down, ParseRecord(s.ab.fwd.inb);
    var d := Download(down.stage.missing[0], r, stored.path);
    var stage := AfterOffer(down.stage.missing[1..]);
    CompleteRecord(how, cfg, s);
    StoreLink(how, cfg, s.a.env.files, s.a.up, down, HashSet(s.b.queue.entries), s.ab, d);
    StoreGot(how, s.a.env.files, s.a.up.sent, s.b, stage, down.stage.missing[0]);
    StorePeer(cfg, s.b);
    DownloadKeeps(how, cfg, s, Downloader(stage, down.got + [d]), stored.files, s.ab.(fwd := Consume(s.ab.fwd)));
  }

  lemma StorePeer(cfg: Config, p: Peer)
    requires PeerInv(cfg, p)
    ensures FilesInv(p.env, p.files)
  {
  }

  /** When the uploader is done and its bytes have arrived, every record was read. */
  lemma NothingUnread(how: Answers, cfg: Config, s: Sys)
    requires Half(how, cfg, s) && s.a.up.stage.UDone? && s.ab.fwd.out == [] && s.ab.fwd.wire == []
    requires UploadNeed(s.b.down.stage, s.ab.fwd.inb) > 0
    ensures s.ab.fwd.inb == [] && s.b.down.stage.DOffer? && |s.b.down.got| == |s.a.up.sent|
  {
    hide PeerInv, CoverInv, GotInv, NetInv, Sendable;
    var owed := s.a.up.sent[|s.b.down.got|..];
    assert Flight(s.ab.fwd) == s.ab.fwd.inb;
    if s.ab.fwd.inb != [] {
      ReadingFromLink(how, cfg, s);
      RecordDelimited(RecordOf(s.a.env.files, owed[0]), s.ab.fwd.inb);
    }
  }

  lemma EndLink(how: Answers, cfg: Config, files: Files, up: Uploader, down: Downloader, have: set<ExifHash>,
                link: Link)
    requires LinkInv(how, cfg, files, up, down, have, link) && up.stage.UDone? && down.stage.DOffer?
    ensures LinkInv(how, cfg, files, up, down.(stage := DDone), have, link)
  {
  }

  /** The end of the upload is met only between offers. */
  lemma EndOfUploadKeeps(how: Answers, cfg: Config, s: Sys)
    requires Inv(how, cfg, s) && s.a.up.stage.UDone? && s.ab.fwd.out == [] && s.ab.fwd.wire == []
    requires UploadNeed(s.b.down.stage, s.ab.fwd.inb) > 0
    ensures s.b.down.stage.DOffer? && s.ab.fwd.inb == []
    ensures Inv(how, cfg, s.(b := s.b.(down := s.b.down.(stage := DDone))))
  {
    NothingUnread(how, cfg, s);
    EndLink(how, cfg, s.a.env.files, s.a.up, s.b.down, HashSet(s.b.queue.entries), s.ab);
    DownloadStageKeeps(how, cfg, s, DDone, s.ab);
    var t := s.(b := s.b.(down := s.b.down.(stage := DDone)));
    assert t.(ab := s.ab) == t;
  }

  /** The count of an offer is never rejected. */
  lemma NeverInvalid(how: Answers, cfg: Config, s: Sys)
    requires Half(how, cfg, s)
    ensures !Invalid(s.b.down.stage, s.ab.fwd.inb)
  {
    if s.b.down.stage.DOffer? && s.ab.fwd.inb != [] {
      ReadingFromLink(how, cfg, s);
      OfferDelimited(HashesOf(s.a.up.stage.offer), s.ab.fwd.inb);
    }
  }

  lemma ReadUploadKeeps(how: Answers, cfg: Config, s: Sys, k: nat)
    requires Inv(how, cfg, s) && 1 <= k <= |s.ab.fwd.wire| && k <= UploadNeed(s.b.down.stage, s.ab.fwd.inb)
    ensures Inv(how, cfg, s.(ab := s.ab.(fwd := ReadSome(s.ab.fwd, k))))
  {
    var link := s.ab.(fwd := ReadSome(s.ab.fwd, k));
    ReadWithin(how, cfg, s, k);
    TransferKeeps(how, cfg, s, link);
  }

  /** A read never goes beyond the record that is read. */
  lemma ReadWithin(how: Answers, cfg: Config, s: Sys, k: nat)
    requires Half(how, cfg, s) && 1 <= k <= |s.ab.fwd.wire| && k <= UploadNeed(s.b.down.stage, s.ab.fwd.inb)
    ensures |s.b.down.got| <= |s.a.up.sent|
    ensures var owed := s.a.up.sent[|s.b.down.got|..];
            owed != [] ==> |s.ab.fwd.inb| + k <= |RecordBytes(RecordOf(s.a.env.files, owed[0]))|
  {
    var owed := s.a.up.sent[|s.b.down.got|..];
    assert |Flight(s.ab.fwd)| >= |s.ab.fwd.wire|;
    ReadingFromLink(how, cfg, s);
    if owed != [] {
      RecordDelimited(RecordOf(s.a.env.files, owed[0]), s.ab.fwd.inb);
    }
  }

  // ----- the uploader -----

  lemma UploadPeer(cfg: Config, p: Peer, up: Uploader)
    requires PeerInv(cfg, p) && UploaderInv(cfg, p.(up := up))
    ensures PeerInv(cfg, p.(up := up))
  {
  }

  /** What a peer's uploader does is not seen on the connection over which the other peer uploads. */
  lemma UploadFrame(how: Answers, cfg: Config, s: Sys, up: Uploader, ab: Link)
    requires Half(how, cfg, Swap(s))
    ensures Half(how, cfg, Swap(s.(a := s.a.(up := up), ab := ab)))
  {
    GotFrame(how, s.b.env.files, s.b.up.sent, s.a, up);
  }

  lemma GotFrame(how: Answers, files: Files, sent: seq<Entry>, p: Peer, up: Uploader)
    requires GotInv(how, files, sent, p)
    ensures GotInv(how, files, sent, p.(up := up))
  {
    forall d | Kept(p, d)
      ensures Kept(p.(up := up), d)
    {
    }
  }

  lemma UploadHalf(how: Answers, cfg: Config, s: Sys, up: Uploader, ab: Link)
    requires Half(how, cfg, s) && up.received == s.a.up.received && UploaderInv(cfg, s.a.(up := up))
    requires LinkInv(how, cfg, s.a.env.files, up, s.b.down, HashSet(s.b.queue.entries), ab)
    requires CoverInv(how, s.a.queue.entries, up, HashSet(s.b.queue.entries))
    requires s.a.up.sent <= up.sent
    ensures Half(how, cfg, s.(a := s.a.(up := up), ab := ab))
  {
    GotMore(how, s.a.env.files, s.a.up.sent, up.sent, s.b);
    UploadPeer(cfg, s.a, up);
  }

  lemma UploadKeeps(how: Answers, cfg: Config, s: Sys, up: Uploader, ab: Link)
    requires Inv(how, cfg, s) && up.received == s.a.up.received && UploaderInv(cfg, s.a.(up := up))
    requires LinkInv(how, cfg, s.a.env.files, up, s.b.down, HashSet(s.b.queue.entries), ab)
    requires CoverInv(how, s.a.queue.entries, up, HashSet(s.b.queue.entries))
    requires s.a.up.sent <= up.sent
    ensures Inv(how, cfg, s.(a := s.a.(up := up), ab := ab))
  {
    UploadHalf(how, cfg, s, up, ab);
    UploadFrame(how, cfg, s, up, ab);
  }

  lemma GotMore(how: Answers, files: Files, sent: seq<Entry>, more: seq<Entry>, p: Peer)
    requires GotInv(how, files, sent, p) && sent <= more
    ensures GotInv(how, files, more, p)
  {
  }

  /** The stages between which nothing is read, written or processed. */
  predicate Idle(stage: UploadStage) {
    stage.UMark? || stage.ULoad? || stage.UCheck? || stage.USleep? || stage.UDone?
  }

  lemma IdleKeeps(how: Answers, cfg: Config, s: Sys, up: Uploader)
    requires Inv(how, cfg, s) && Idle(s.a.up.stage) && Idle(up.stage) && !s.a.up.stage.UDone?
    requires up == s.a.up.(stage := up.stage, updated := up.updated) && UploaderInv(cfg, s.a.(up := up))
    ensures Inv(how, cfg, s.(a := s.a.(up := up)))
  {
    UploadKeeps(how, cfg, s, up, s.ab);
    assert s.(a := s.a.(up := up)) == s.(a := s.a.(up := up), ab := s.ab);
  }

  lemma CheckHashingKeeps(how: Answers, cfg: Config, s: Sys)
    requires Inv(how, cfg, s) && s.a.up.stage.UCheck?
    ensures Inv(how, cfg, s.(a := s.a.(up := s.a.up.(stage := AfterCheck(cfg, s.a)))))
  {
    hide PeerInv, UploaderInv, LinkInv, CoverInv, GotInv, NetInv;
    CheckUploader(cfg, s.a);
    IdleKeeps(how, cfg, s, s.a.up.(stage := AfterCheck(cfg, s.a)));
  }

  lemma CheckUploader(cfg: Config, p: Peer)
    requires PeerInv(cfg, p) && p.up.stage.UCheck?
    ensures UploaderInv(cfg, p.(up := p.up.(stage := AfterCheck(cfg, p))))
  {
  }

  lemma MarkUpdatedKeeps(how: Answers, cfg: Config, s: Sys)
    requires Inv(how, cfg, s) && s.a.up.stage.UMark?
    ensures Inv(how, cfg, s.(a := s.a.(up := s.a.up.(stage := ULoad, updated := true))))
  {
    IdleKeeps(how, cfg, s, s.a.up.(stage := ULoad, updated := true));
  }

  lemma SeeUpdateEndKeeps(how: Answers, cfg: Config, s: Sys)
    requires Inv(how, cfg, s) && s.a.up.stage.UWait? && |s.ab.back.inb| == 1
    ensures Inv(how, cfg, s.(a := s.a.(up := s.a.up.(stage := UMark)), ab := s.ab.(back := Consume(s.ab.back))))
  {
    SeeUpdateEndLink(how, cfg, s.a.env.files, s.a.up, s.b.down, HashSet(s.b.queue.entries), s.ab);
    UploadKeeps(how, cfg, s, s.a.up.(stage := UMark), s.ab.(back := Consume(s.ab.back)));
  }

  lemma SeeUpdateEndLink(how: Answers, cfg: Config, files: Files, up: Uploader, down: Downloader, have: set<ExifHash>,
                         link: Link)
    requires LinkInv(how, cfg, files, up, down, have, link) && up.stage.UWait? && |link.back.inb| == 1
    ensures LinkInv(how, cfg, files, up.(stage := UMark), down, have, link.(back := Consume(link.back)))
  {
    assert |Flight(link.back)| == |link.back.inb| + |Flight(Consume(link.back))|;
  }

  lemma NotInFirst(es: seq<Entry>, i: nat, j: nat, have: set<ExifHash>)
    requires i < j <= |es|
    ensures NotIn(es[i..j], have) == (if es[i].hash in have then [] else [es[i]]) + NotIn(es[i + 1..j], have)
  {
    assert es[i..j][1..] == es[i + 1..j];
  }

  /** What a walk over the list finds: all entries it passes that were not reported, and no more than an
      offer holds; it stops only at the end or when the offer is full. */
  lemma {:induction false} ScanFinds(es: seq<Entry>, processed: nat, total: nat, received: set<ExifHash>,
                                     missing: seq<Entry>)
    requires processed < total <= |es| && |missing| < OFFER_HASHES
    ensures var r := Scan(es, processed, total, received, missing);
            && processed < r.processed <= total
            && r.missing == missing + NotIn(es[processed..r.processed], received)
            && |r.missing| <= OFFER_HASHES
            && (r.processed == total || |r.missing| == OFFER_HASHES)
    decreases total - processed
  {
    var first := if es[processed].hash in received then [] else [es[processed]];
    var more := if es[processed].hash in received then missing else missing + [es[processed]];
    assert more == missing + first;
    if processed + 1 != total && |more| < OFFER_HASHES {
      ScanFinds(es, processed + 1, total, received, more);
      var r := Scan(es, processed + 1, total, received, more);
      var rest := NotIn(es[processed + 1..r.processed], received);
      assert r.missing == missing + first + rest;
      Associates(missing, first, rest);
      NotInFirst(es, processed, r.processed, received);
    } else {
      NotInFirst(es, processed, processed + 1, received);
      assert first + NotIn([], received) == first;
    }
  }

  lemma Associates(a: seq<Entry>, b: seq<Entry>, c: seq<Entry>)
    ensures a + b + c == a + (b + c)
  {
  }

  lemma NotInExtends(es: seq<Entry>, i: nat, j: nat, have: set<ExifHash>)
    requires i <= j <= |es|
    ensures NotIn(es[..j], have) == NotIn(es[..i], have) + NotIn(es[i..j], have)
  {
    assert es[..j] == es[..i] + es[i..j];
    NotInAppend(es[..i], es[i..j], have);
  }

  lemma WalkUploader(cfg: Config, p: Peer)
    requires PeerInv(cfg, p) && p.up.stage.ULoad? && p.up.processed < p.published
    ensures UploaderInv(cfg, p.(up := AfterWalk(p)))
  {
    WalkOffers(p);
    ScanFinds(p.queue.entries, p.up.processed, p.published, p.up.received, []);
  }

  lemma OffersExtend(es: seq<Entry>, i: nat, j: nat, offered: seq<Entry>, missing: seq<Entry>, received: set<ExifHash>)
    requires i <= j <= |es| && offered == NotIn(es[..i], received) && missing == NotIn(es[i..j], received)
    ensures offered + missing == NotIn(es[..j], received) && EndsWith(offered + missing, missing)
  {
    NotInExtends(es, i, j, received);
  }

  /** Every entry passed is offered or was reported. */
  lemma WalkOffers(p: Peer)
    requires p.up.processed < p.published <= |p.queue.entries|
    requires p.up.offered == NotIn(p.queue.entries[..p.up.processed], p.up.received)
    ensures AfterWalk(p).processed <= |p.queue.entries|
    ensures AfterWalk(p).offered == NotIn(p.queue.entries[..AfterWalk(p).processed], p.up.received)
    ensures EndsWith(AfterWalk(p).offered, Walk(p).missing)
  {
    var es, found, received := p.queue.entries, Walk(p), p.up.received;
    ScanFinds(es, p.up.processed, p.published, received, []);
    hide Scan, EndsWith;
    var passed := es[p.up.processed..found.processed];
    assert [] + NotIn(passed, received) == NotIn(passed, received);
    OffersExtend(es, p.up.processed, found.processed, p.up.offered, found.missing, received);
  }

  lemma WalkCovers(how: Answers, p: Peer, have: set<ExifHash>)
    requires p.up.processed < p.published <= |p.queue.entries| && p.up.stage.ULoad? && p.up.received <= have
    requires CoverInv(how, p.queue.entries, p.up, have)
    ensures CoverInv(how, p.queue.entries, AfterWalk(p), have)
  {
    var es, found := p.queue.entries, Walk(p);
    ScanFinds(es, p.up.processed, p.published, p.up.received, []);
    NotInExtends(es, p.up.processed, found.processed, have);
    var passed := es[p.up.processed..found.processed];
    NotInTwice(passed, p.up.received, have);
    assert found.missing == NotIn(passed, p.up.received);
    if how.AsMeant? {
      assert p.up.sent == NotIn(es[..p.up.processed], have);
      if found.missing == [] {
        assert NotIn(passed, have) == [];
      }
    }
  }

  lemma NothingNewKeeps(how: Answers, cfg: Config, s: Sys)
    requires Inv(how, cfg, s) && s.a.up.stage.ULoad?
    ensures Inv(how, cfg, s.(a := s.a.(up := s.a.up.(stage := UCheck))))
  {
    IdleKeeps(how, cfg, s, s.a.up.(stage := UCheck));
  }

  function AfterWalkLink(p: Peer, link: Link): Link
    requires p.up.processed < p.published <= |p.queue.entries| && link.fwd.out == []
  {
    var missing := Walk(p).missing;
    if missing == [] then link else link.(fwd := Post(link.fwd, OfferBytes(HashesOf(missing))))
  }

  lemma WalkKeeps(how: Answers, cfg: Config, s: Sys)
    requires Inv(how, cfg, s) && s.a.up.stage.ULoad? && s.ab.fwd.out == []
    requires s.a.up.processed < s.a.published <= |s.a.queue.entries|
    ensures Inv(how, cfg, s.(a := s.a.(up := AfterWalk(s.a)), ab := AfterWalkLink(s.a, s.ab)))
  {
    WalkUploader(cfg, s.a);
    WalkLink(how, cfg, s);
    UploadKeeps(how, cfg, s, AfterWalk(s.a), AfterWalkLink(s.a, s.ab));
  }

  lemma WalkLink(how: Answers, cfg: Config, s: Sys)
    requires Half(how, cfg, s) && s.a.up.stage.ULoad? && s.ab.fwd.out == []
    requires s.a.up.processed < s.a.published <= |s.a.queue.entries|
    ensures var have := HashSet(s.b.queue.entries);
            && LinkInv(how, cfg, s.a.env.files, AfterWalk(s.a), s.b.down, have, AfterWalkLink(s.a, s.ab))
            && CoverInv(how, s.a.queue.entries, AfterWalk(s.a), have)
  {
    var have, up, missing := HashSet(s.b.queue.entries), AfterWalk(s.a), Walk(s.a).missing;
    WalkCovers(how, s.a, have);
    if missing != [] {
      OfferLink(how, cfg, s.a.env.files, s.a.up, up, s.b.down, have, s.ab, missing);
    }
  }

  lemma OfferLink(how: Answers, cfg: Config, files: Files, up: Uploader, next: Uploader, down: Downloader,
                  have: set<ExifHash>,
                  link: Link, offer: seq<Entry>)
    requires LinkInv(how, cfg, files, up, down, have, link) && up.stage.ULoad? && link.fwd.out == [] && offer != []
    requires next.sent == up.sent && next.stage == UAck(offer)
    ensures LinkInv(how, cfg, files, next, down, have, link.(fwd := Post(link.fwd, OfferBytes(HashesOf(offer)))))
  {
    var owed := up.sent[|down.got|..];
    assert !Updating(down.stage) && Flight(link.fwd) == Records(files, owed);
    var fwd := Post(link.fwd, OfferBytes(HashesOf(offer)));
    assert fwd.inb == link.fwd.inb && Flight(fwd) == Records(files, owed) + OfferBytes(HashesOf(offer));
    assert Flight(link.back) == [] && Expects(how, down.stage, owed) && !down.stage.DDone?;
  }

  /** From the answer that has arrived the uploader takes as many entries as the downloader awaits; if answers are
      read as they were meant, it takes just those that the other peer lacks. */
  lemma AnswerRead(how: Answers, cfg: Config, files: Files, up: Uploader, down: Downloader, have: set<ExifHash>,
                   link: Link)
    requires LinkInv(how, cfg, files, up, down, have, link) && up.stage.UAck? && |up.stage.offer| >= 1
    requires |link.back.inb| == MaskSize(|up.stage.offer|)
    ensures var offer := up.stage.offer;
            var taken := Select(offer, Decode(cfg.mask, link.back.inb, |offer|));
            && Expects(how, down.stage, taken) && (how.AsMeant? ==> taken == NotIn(offer, have))
            && Flight(link.fwd) == [] && |down.got| == |up.sent| && Flight(Consume(link.back)) == []
            && !down.stage.DDone? && !Updating(down.stage)
  {
    var offer, back := up.stage.offer, Flight(link.back);
    assert |back| >= |link.back.inb| >= 1;
    assert up.sent[|down.got|..] == [];
    assert Answered(how, cfg, offer, down.stage, have, back);
    assert |back| == |link.back.inb| + |Flight(Consume(link.back))|;
    assert back == link.back.inb + Flight(Consume(link.back));
    assert back == link.back.inb;
  }

  lemma {:induction false} RecordsUnchanged(env: Env, files: Files, es: seq<Entry>)
    requires FilesInv(env, files)
    requires forall e :: e in es ==> Contents(env.files, e.path) != []
    ensures Records(files, es) == Records(env.files, es)
    ensures forall e :: e in es ==> Contents(files, e.path) != []
  {
    if es != [] {
      RecordsUnchanged(env, files, es[1..]);
    }
  }

  lemma OfferedEntries(cfg: Config, p: Peer, e: Entry)
    requires UploaderInv(cfg, p) && p.up.stage.UAck? && e in p.up.stage.offer
    ensures e in p.queue.entries
  {
    assert e in p.up.offered;
    InNotIn(p.queue.entries[..p.up.processed], p.up.received, e);
  }

  /** Whatever is taken from an offer can be read, and is as it was at the start. */
  lemma SelectedReadable(cfg: Config, p: Peer, found: seq<bool>)
    requires PeerInv(cfg, p) && p.up.stage.UAck? && |found| == |p.up.stage.offer|
    ensures var chosen := Select(p.up.stage.offer, found);
            && Records(p.files, chosen) == Records(p.env.files, chosen)
            && forall e :: e in chosen ==> Contents(p.files, e.path) != []
  {
    var chosen := Select(p.up.stage.offer, found);
    forall e | e in chosen
      ensures Contents(p.env.files, e.path) != []
    {
      InSelect(p.up.stage.offer, found, e);
      OfferedEntries(cfg, p, e);
      EntrySendable(p.env, p.queue, e);
    }
    RecordsUnchanged(p.env, p.files, chosen);
  }

  lemma SentLink(how: Answers, cfg: Config, files: Files, up: Uploader, down: Downloader, have: set<ExifHash>,
                 link: Link, taken: seq<Entry>)
    requires Expects(how, down.stage, taken) && !down.stage.DDone? && !Updating(down.stage)
    requires Flight(link.fwd) == [] && Flight(Consume(link.back)) == [] && |down.got| == |up.sent|
    ensures LinkInv(how, cfg, files, up.(stage := ULoad, sent := up.sent + taken), down, have,
                    Link(Post(link.fwd, Records(files, taken)), Consume(link.back)))
  {
    hide Expects;
    assert (up.sent + taken)[|down.got|..] == taken;
    assert link.fwd.inb == [];
  }

  lemma SendMissingStep(cfg: Config, s: Sys, chosen: seq<Entry>)
    requires Enabled(cfg, s, SendMissing)
    requires chosen == Select(s.a.up.stage.offer, Decode(cfg.mask, s.ab.back.inb, |s.a.up.stage.offer|))
    requires forall e :: e in chosen ==> Contents(s.a.files, e.path) != []
    ensures Step(cfg, s, SendMissing)
         == s.(a := s.a.(up := s.a.up.(stage := ULoad, sent := s.a.up.sent + chosen)),
               ab := Link(Post(s.ab.fwd, Records(s.a.files, chosen)), Consume(s.ab.back)))
  {
  }

  lemma SendMissingKeeps(how: Answers, cfg: Config, s: Sys)
    requires Inv(how, cfg, s) && Enabled(cfg, s, SendMissing)
    ensures Inv(how, cfg, Step(cfg, s, SendMissing))
  {
    var found := Decode(cfg.mask, s.ab.back.inb, |s.a.up.stage.offer|);
    assert PeerInv(cfg, s.a);
    hide PeerInv, LinkInv, CoverInv, GotInv, NetInv, Decode, Select;
    SelectedReadable(cfg, s.a, found);
    SendMissingStep(cfg, s, Select(s.a.up.stage.offer, found));
    SentKeeps(how, cfg, s, found);
  }

  lemma SentKeeps(how: Answers, cfg: Config, s: Sys, found: seq<bool>)
    requires Inv(how, cfg, s) && s.a.up.stage.UAck?
    requires s.ab.fwd.out == [] && |s.ab.back.inb| == MaskSize(|s.a.up.stage.offer|)
    requires found == Decode(cfg.mask, s.ab.back.inb, |s.a.up.stage.offer|)
    ensures var taken := Select(s.a.up.stage.offer, found);
            Inv(how, cfg, s.(a := s.a.(up := s.a.up.(stage := ULoad, sent := s.a.up.sent + taken)),
                             ab := Link(Post(s.ab.fwd, Records(s.a.files, taken)), Consume(s.ab.back))))
  {
    var taken := Select(s.a.up.stage.offer, found);
    var up := s.a.up.(stage := ULoad, sent := s.a.up.sent + taken);
    var ab := Link(Post(s.ab.fwd, Records(s.a.files, taken)), Consume(s.ab.back));
    SentUploader(cfg, s.a, taken);
    SelectedReadable(cfg, s.a, found);
    SentHalf(how, cfg, s, found);
    hide Inv, LinkInv, CoverInv, UploaderInv, PeerInv, Select, Decode;
    UploadKeeps(how, cfg, s, up, ab);
  }

  lemma SentCover(how: Answers, entries: seq<Entry>, up: Uploader, have: set<ExifHash>, taken: seq<Entry>)
    requires CoverInv(how, entries, up, have) && up.stage.UAck? && forall e :: e in taken ==> e in entries
    requires how.AsMeant? ==> taken == NotIn(up.stage.offer, have)
    ensures CoverInv(how, entries, up.(stage := ULoad, sent := up.sent + taken), have)
  {
    hide NotIn;
    assert how.AsMeant? ==> up.sent + taken + [] == up.sent + taken;
  }

  lemma TakenEntries(cfg: Config, p: Peer, found: seq<bool>)
    requires PeerInv(cfg, p) && p.up.stage.UAck? && |found| == |p.up.stage.offer|
    ensures forall e :: e in Select(p.up.stage.offer, found) ==> e in p.queue.entries
  {
    forall e | e in Select(p.up.stage.offer, found)
      ensures e in p.queue.entries
    {
      InSelect(p.up.stage.offer, found, e);
      OfferedEntries(cfg, p, e);
    }
  }

  lemma SentHalf(how: Answers, cfg: Config, s: Sys, found: seq<bool>)
    requires Half(how, cfg, s) && s.a.up.stage.UAck?
    requires s.ab.fwd.out == [] && |s.ab.back.inb| == MaskSize(|s.a.up.stage.offer|)
    requires found == Decode(cfg.mask, s.ab.back.inb, |s.a.up.stage.offer|)
    ensures var have := HashSet(s.b.queue.entries);
            var taken := Select(s.a.up.stage.offer, found);
            var up := s.a.up.(stage := ULoad, sent := s.a.up.sent + taken);
            && LinkInv(how, cfg, s.a.env.files, up, s.b.down, have,
                       Link(Post(s.ab.fwd, Records(s.a.env.files, taken)), Consume(s.ab.back)))
            && CoverInv(how, s.a.queue.entries, up, have)
  {
    var have, up, taken := HashSet(s.b.queue.entries), s.a.up, Select(s.a.up.stage.offer, found);
    TakenEntries(cfg, s.a, found);
    hide LinkInv, CoverInv, GotInv, NetInv, Decode, Select, Expects, Records, HashSet, NotIn;
    AnswerRead(how, cfg, s.a.env.files, up, s.b.down, have, s.ab);
    SentLink(how, cfg, s.a.env.files, up, s.b.down, have, s.ab, taken);
    SentCover(how, s.a.queue.entries, up, have, taken);
  }

  lemma SentUploader(cfg: Config, p: Peer, chosen: seq<Entry>)
    requires PeerInv(cfg, p) && p.up.stage.UAck?
    ensures UploaderInv(cfg, p.(up := p.up.(stage := ULoad, sent := p.up.sent + chosen)))
  {
  }

  lemma AnswerAwaited(how: Answers, cfg: Config, files: Files, up: Uploader, down: Downloader, have: set<ExifHash>,
                      link: Link)
    requires LinkInv(how, cfg, files, up, down, have, link) && (up.stage.UWait? || up.stage.UAck?)
    ensures !down.stage.DDone?
  {
  }

  /** The uploader never meets the end of the answers. */
  lemma AnswersDoNotEnd(how: Answers, cfg: Config, s: Sys)
    requires Half(how, cfg, s)
    ensures !Enabled(cfg, s, EndOfAnswers)
  {
    hide PeerInv, LinkInv, CoverInv, GotInv, NetInv;
    if s.a.up.stage.UWait? || s.a.up.stage.UAck? {
      AnswerAwaited(how, cfg, s.a.env.files, s.a.up, s.b.down, HashSet(s.b.queue.entries), s.ab);
    }
  }

  // ----- the environment -----

  lemma ReceivePeer(cfg: Config, p: Peer, known: set<ExifHash>)
    requires PeerInv(cfg, p) && !p.up.updated
    ensures PeerInv(cfg, p.(up := p.up.(received := p.up.received + known)))
  {
    assert p.queue.entries[..0] == [];
  }

  lemma ReceiveLink(how: Answers, cfg: Config, entries: seq<Entry>, files: Files, up: Uploader, down: Downloader,
                    have: set<ExifHash>,
                    link: Link, received: set<ExifHash>)
    requires LinkInv(how, cfg, files, up, down, have, link) && CoverInv(how, entries, up, have)
    ensures LinkInv(how, cfg, files, up.(received := received), down, have, link)
    ensures CoverInv(how, entries, up.(received := received), have)
  {
  }

  lemma ReceiveHalf(how: Answers, cfg: Config, s: Sys, known: set<ExifHash>)
    requires Half(how, cfg, s) && !s.a.up.updated && known <= HashSet(s.b.queue.entries)
    ensures Half(how, cfg, s.(a := s.a.(up := s.a.up.(received := s.a.up.received + known))))
  {
    var have, received := HashSet(s.b.queue.entries), s.a.up.received + known;
    ReceivePeer(cfg, s.a, known);
    ReceiveLink(how, cfg, s.a.queue.entries, s.a.env.files, s.a.up, s.b.down, have, s.ab, received);
    assert NetInv(have, s.toA, received);
  }

  lemma ReceiveKeeps(how: Answers, cfg: Config, s: Sys, known: set<ExifHash>)
    requires Inv(how, cfg, s) && !s.a.up.updated && known <= HashSet(s.b.queue.entries)
    ensures Inv(how, cfg, s.(a := s.a.(up := s.a.up.(received := s.a.up.received + known))))
  {
    var up := s.a.up.(received := s.a.up.received + known);
    ReceiveHalf(how, cfg, s, known);
    UploadFrame(how, cfg, s, up, s.ab);
    assert s.(a := s.a.(up := up), ab := s.ab) == s.(a := s.a.(up := up));
  }

  lemma PacketsReports(hashes: set<ExifHash>, sent: set<seq<byte>>, received: set<ExifHash>, packets: seq<seq<byte>>)
    requires NetInv(hashes, sent, received) && CanReceive(packets, sent)
    ensures PacketSet(Buffered(packets, UPDATE_BUFFER)) <= hashes
  {
    BufferedHashes(packets, UPDATE_BUFFER, hashes);
  }

  lemma PacketsKeep(how: Answers, cfg: Config, s: Sys, packets: seq<seq<byte>>)
    requires Inv(how, cfg, s) && !s.a.up.updated && CanReceive(packets, s.toA)
    ensures var known := PacketSet(Buffered(packets, UPDATE_BUFFER));
            Inv(how, cfg, s.(a := s.a.(up := s.a.up.(received := s.a.up.received + known))))
  {
    hide PeerInv, LinkInv, CoverInv, GotInv;
    PacketsReports(HashSet(s.b.queue.entries), s.toA, s.a.up.received, packets);
    ReceiveKeeps(how, cfg, s, PacketSet(Buffered(packets, UPDATE_BUFFER)));
  }

  // ----- every step -----

  lemma SwapKeeps(how: Answers, cfg: Config, s: Sys)
    requires Inv(how, cfg, s)
    ensures Inv(how, cfg, Swap(s)) && Swap(Swap(s)) == s
  {
    hide Half;
  }

  predicate IsHasherAction(act: Action) {
    act.HashPath? || act.HashCredit? || act.HashFinish?
  }

  predicate IsDownloadAction(act: Action) {
    act.ReadUpload? || act.Decide? || act.Store? || act.RejectOffer? || act.EndOfUpload?
  }

  predicate IsUploadAction(act: Action) {
    || act.SeeUpdateEnd? || act.MarkUpdated? || act.LoadCount? || act.CheckHashing?
    || act.SendMissing? || act.EndOfAnswers?
  }

  lemma InvQueue(how: Answers, cfg: Config, s: Sys)
    requires Inv(how, cfg, s)
    ensures QueueInv(s.a.env, s.a.queue)
  {
    assert PeerInv(cfg, s.a);
  }

  lemma HasherStepKeeps(how: Answers, cfg: Config, s: Sys, act: Action)
    requires Inv(how, cfg, s) && Enabled(cfg, s, act) && IsHasherAction(act)
    ensures Inv(how, cfg, Step(cfg, s, act))
  {
    hide Inv;
    var q, env := s.a.queue, s.a.env;
    InvQueue(how, cfg, s);
    match act
    case HashPath => HashPathQueue(q, env); HasherKeeps(how, cfg, s, HashNext(HASHER_RULE, q));
    case HashCredit => HashCreditQueue(q, env); HasherKeeps(how, cfg, s, Credit(HASHER_RULE, q));
    case HashFinish => HashFinishQueue(q, env); HasherKeeps(how, cfg, s, Finish(HASHER_RULE, q));
  }

  lemma UpdateStepKeeps(how: Answers, cfg: Config, s: Sys, act: Action)
    requires Inv(how, cfg, s) && Enabled(cfg, s, act) && IsUpdateAction(act)
    ensures Inv(how, cfg, Step(cfg, s, act))
  {
    hide Inv;
    if act.SendBatch? {
      BatchReported(s.a);
      SendBatchKeeps(how, cfg, s, BatchPacket(s.a));
    } else {
      UpdateActionKeeps(how, cfg, s, act);
    }
  }

  lemma DownloadStepKeeps(how: Answers, cfg: Config, s: Sys, act: Action)
    requires Inv(how, cfg, s) && Enabled(cfg, s, act) && IsDownloadAction(act)
    requires act.Decide? ==> !how.Anyhow? && OfferAgrees(how, cfg, s)
    ensures Inv(how, cfg, Step(cfg, s, act))
  {
    hide Inv;
    var r, t := Swap(s), Step(cfg, s, act);
    SwapKeeps(how, cfg, s);
    match act {
      case ReadUpload(k) => ReadUploadKeeps(how, cfg, r, k);
      case Decide => DecideKeeps(how, cfg, r, Offered(s));
      case Store =>
        var record := ParseRecord(s.ba.fwd.inb);
        StoreKeeps(how, cfg, r, Save(s.a.files, s.a.env.locked, s.a.env.dir, s.a.down.stage.missing[0], record));
      case RejectOffer => OfferIsValid(how, cfg, s);
      case EndOfUpload => EndOfUploadKeeps(how, cfg, r);
    }
    assert Inv(how, cfg, Swap(t));
    SwapKeeps(how, cfg, Swap(t));
  }

  lemma SwappedHalf(how: Answers, cfg: Config, s: Sys)
    requires Inv(how, cfg, s)
    ensures Half(how, cfg, Swap(s))
  {
    hide Half;
  }

  lemma OfferIsValid(how: Answers, cfg: Config, s: Sys)
    requires Inv(how, cfg, s)
    ensures !Enabled(cfg, s, RejectOffer)
  {
    hide Inv, Half;
    SwappedHalf(how, cfg, s);
    NeverInvalid(how, cfg, Swap(s));
  }

  lemma NoEndOfAnswers(how: Answers, cfg: Config, s: Sys)
    requires Inv(how, cfg, s)
    ensures !Enabled(cfg, s, EndOfAnswers)
  {
    hide Half;
    AnswersDoNotEnd(how, cfg, s);
  }

  lemma UploadStepKeeps(how: Answers, cfg: Config, s: Sys, act: Action)
    requires Inv(how, cfg, s) && Enabled(cfg, s, act) && IsUploadAction(act)
    ensures Inv(how, cfg, Step(cfg, s, act))
  {
    hide Inv;
    match act
    case SeeUpdateEnd => SeeUpdateEndKeeps(how, cfg, s);
    case MarkUpdated => MarkUpdatedKeeps(how, cfg, s);
    case LoadCount =>
      if s.a.up.processed == s.a.published {
        NothingNewKeeps(how, cfg, s);
      } else {
        WalkKeeps(how, cfg, s);
      }
    case CheckHashing => CheckHashingKeeps(how, cfg, s);
    case SendMissing => SendMissingKeeps(how, cfg, s);
    case EndOfAnswers => NoEndOfAnswers(how, cfg, s);
  }

  lemma WriteUploadKeeps(how: Answers, cfg: Config, s: Sys, k: nat)
    requires Inv(how, cfg, s) && k <= |s.ab.fwd.out|
    ensures Inv(how, cfg, s.(ab := s.ab.(fwd := WriteSome(s.ab.fwd, k))))
  {
    TransferSame(how, cfg, s, s.ab.(fwd := WriteSome(s.ab.fwd, k)));
  }

  lemma ReadAnswerKeeps(how: Answers, cfg: Config, s: Sys, k: nat)
    requires Inv(how, cfg, s) && k <= |s.ab.back.wire|
    ensures Inv(how, cfg, s.(ab := s.ab.(back := ReadSome(s.ab.back, k))))
  {
    TransferSame(how, cfg, s, s.ab.(back := ReadSome(s.ab.back, k)));
  }

  lemma WriteAnswerKeeps(how: Answers, cfg: Config, s: Sys, k: nat)
    requires Inv(how, cfg, s) && k <= |s.ba.back.out|
    ensures Inv(how, cfg, s.(ba := s.ba.(back := WriteSome(s.ba.back, k))))
  {
    SwapKeeps(how, cfg, s);
    TransferSame(how, cfg, Swap(s), s.ba.(back := WriteSome(s.ba.back, k)));
    SwapKeeps(how, cfg, Swap(s).(ab := s.ba.(back := WriteSome(s.ba.back, k))));
  }

  predicate IsTransferAction(act: Action) {
    act.WriteUpload? || act.WriteAnswer? || act.ReadAnswer?
  }

  lemma TransferStepKeeps(how: Answers, cfg: Config, s: Sys, act: Action)
    requires Inv(how, cfg, s) && Enabled(cfg, s, act) && IsTransferAction(act)
    ensures Inv(how, cfg, Step(cfg, s, act))
  {
    hide Inv;
    match act
    case WriteUpload(k) => WriteUploadKeeps(how, cfg, s, k);
    case WriteAnswer(k) => WriteAnswerKeeps(how, cfg, s, k);
    case ReadAnswer(k) => ReadAnswerKeeps(how, cfg, s, k);
  }

  lemma SpuriousKeeps(how: Answers, cfg: Config, s: Sys)
    requires Inv(how, cfg, s) && s.a.up.stage.USleep?
    ensures Inv(how, cfg, s.(a := s.a.(up := Wake(s.a.up))))
  {
    IdleKeeps(how, cfg, s, Wake(s.a.up));
  }

  lemma EnvironmentStepKeeps(how: Answers, cfg: Config, s: Sys, act: Action)
    requires Inv(how, cfg, s) && Enabled(cfg, s, act) && IsEnvironment(act)
    ensures Inv(how, cfg, Step(cfg, s, act))
  {
    hide Inv;
    match act
    case Receive(packets) => PacketsKeep(how, cfg, s, packets);
    case Spurious => SpuriousKeeps(how, cfg, s);
  }

  /** Every step of a peer keeps the invariant, provided that an answer will be read as is asked. */
  lemma StepKeeps(how: Answers, cfg: Config, s: Sys, act: Action)
    requires Inv(how, cfg, s) && Enabled(cfg, s, act)
    requires act.Decide? ==> !how.Anyhow? && OfferAgrees(how, cfg, s)
    ensures Inv(how, cfg, Step(cfg, s, act))
  {
    hide Inv;
    if IsHasherAction(act) {
      HasherStepKeeps(how, cfg, s, act);
    } else if IsUpdateAction(act) {
      UpdateStepKeeps(how, cfg, s, act);
    } else if IsDownloadAction(act) {
      DownloadStepKeeps(how, cfg, s, act);
    } else if IsUploadAction(act) {
      UploadStepKeeps(how, cfg, s, act);
    } else if IsEnvironment(act) {
      EnvironmentStepKeeps(how, cfg, s, act);
    } else if IsTransferAction(act) {
      TransferStepKeeps(how, cfg, s, act);
    } else {
      AnnounceKeeps(how, cfg, s, act.b);
    }
  }

  // ----- each peer by itself, whatever the other one does -----

  /** What holds of two peers even when an answer was misread. */
  ghost predicate Peers(cfg: Config, s: Sys) {
    PeerInv(cfg, s.a) && PeerInv(cfg, s.b)
  }

  lemma InvPeers(how: Answers, cfg: Config, s: Sys)
    requires Inv(how, cfg, s)
    ensures Peers(cfg, s)
  {
    hide PeerInv, LinkInv, CoverInv, GotInv, NetInv;
  }

  lemma DownStagePeer(cfg: Config, p: Peer, stage: DownloadStage)
    requires PeerInv(cfg, p) && !Updating(p.down.stage) && !Updating(stage)
    ensures PeerInv(cfg, p.(down := p.down.(stage := stage)))
  {
    DownloadPeer(cfg, p, p.down.(stage := stage), p.files);
    assert p.(down := p.down.(stage := stage), files := p.files) == p.(down := p.down.(stage := stage));
  }

  lemma StoreStepPeer(cfg: Config, s: Sys)
    requires PeerInv(cfg, s.a) && Enabled(cfg, s, Store)
    ensures PeerInv(cfg, Step(cfg, s, Store).a)
  {
    StoreFiles(s.a.env, s.a.files, s.a.down.stage.missing[0], ParseRecord(s.ba.fwd.inb));
    hide PeerInv, Save;
    DownloadPeer(cfg, s.a, Step(cfg, s, Store).a.down, Step(cfg, s, Store).a.files);
  }

  lemma DownloadStepPeer(cfg: Config, s: Sys, act: Action)
    requires PeerInv(cfg, s.a) && Enabled(cfg, s, act) && IsDownloadAction(act)
    ensures PeerInv(cfg, Step(cfg, s, act).a)
  {
    hide PeerInv;
    if act.Store? {
      StoreStepPeer(cfg, s);
    } else if !act.ReadUpload? {
      DownStagePeer(cfg, s.a, Step(cfg, s, act).a.down.stage);
    }
  }

  lemma UploadStagePeer(cfg: Config, p: Peer)
    requires PeerInv(cfg, p)
    ensures p.up.stage.UWait? ==> PeerInv(cfg, p.(up := p.up.(stage := UMark)))
    ensures p.up.stage.UMark? ==> PeerInv(cfg, p.(up := p.up.(stage := ULoad, updated := true)))
    ensures p.up.stage.ULoad? ==> PeerInv(cfg, p.(up := p.up.(stage := UCheck)))
    ensures p.up.stage.UWait? || p.up.stage.UAck? ==> PeerInv(cfg, p.(up := p.up.(stage := UFatal)))
    ensures PeerInv(cfg, p.(up := Wake(p.up)))
  {
  }

  lemma SendMissingStepPeer(cfg: Config, s: Sys)
    requires PeerInv(cfg, s.a) && Enabled(cfg, s, SendMissing)
    ensures PeerInv(cfg, Step(cfg, s, SendMissing).a)
  {
    hide PeerInv;
    var up := s.a.up;
    var found := Decode(cfg.mask, s.ab.back.inb, |up.stage.offer|);
    SelectedReadable(cfg, s.a, found);
    SendMissingStep(cfg, s, Select(up.stage.offer, found));
    SentUploader(cfg, s.a, Select(up.stage.offer, found));
    UploadPeer(cfg, s.a, up.(stage := ULoad, sent := up.sent + Select(up.stage.offer, found)));
  }

  lemma WalkStepPeer(cfg: Config, s: Sys)
    requires PeerInv(cfg, s.a) && s.a.up.stage.ULoad? && s.a.up.processed < s.a.published <= |s.a.queue.entries|
    ensures PeerInv(cfg, s.a.(up := AfterWalk(s.a)))
  {
    WalkUploader(cfg, s.a);
    hide UploaderInv;
    UploadPeer(cfg, s.a, AfterWalk(s.a));
  }

  lemma CheckStepPeer(cfg: Config, p: Peer)
    requires PeerInv(cfg, p) && p.up.stage.UCheck?
    ensures PeerInv(cfg, p.(up := p.up.(stage := AfterCheck(cfg, p))))
  {
    CheckUploader(cfg, p);
    UploadPeer(cfg, p, p.up.(stage := AfterCheck(cfg, p)));
  }

  lemma UploadStepPeer(cfg: Config, s: Sys, act: Action)
    requires PeerInv(cfg, s.a) && Enabled(cfg, s, act) && IsUploadAction(act)
    ensures PeerInv(cfg, Step(cfg, s, act).a)
  {
    hide PeerInv, AfterWalk, Walk, AfterCheck, Select, Wake;
    if act.SendMissing? {
      SendMissingStepPeer(cfg, s);
    } else if act.CheckHashing? {
      CheckStepPeer(cfg, s.a);
    } else if act.LoadCount? && s.a.up.processed != s.a.published {
      WalkStepPeer(cfg, s);
    } else {
      UploadStagePeer(cfg, s.a);
    }
  }

  lemma EnvironmentPeer(cfg: Config, s: Sys, act: Action)
    requires PeerInv(cfg, s.a) && Enabled(cfg, s, act) && IsEnvironment(act)
    ensures PeerInv(cfg, Step(cfg, s, act).a)
  {
    hide PeerInv, Wake;
    if act.Receive? {
      ReceivePeer(cfg, s.a, PacketSet(Buffered(act.packets, UPDATE_BUFFER)));
    } else {
      UploadStagePeer(cfg, s.a);
    }
  }

  lemma HasherStepPeer(cfg: Config, s: Sys, act: Action)
    requires PeerInv(cfg, s.a) && Enabled(cfg, s, act) && IsHasherAction(act)
    ensures PeerInv(cfg, Step(cfg, s, act).a)
  {
    var q, env := s.a.queue, s.a.env;
    assert QueueInv(env, q);
    hide PeerInv;
    match act
    case HashPath => HashPathQueue(q, env); HasherKeepsPeer(cfg, s.a, HashNext(HASHER_RULE, q));
    case HashCredit => HashCreditQueue(q, env); HasherKeepsPeer(cfg, s.a, Credit(HASHER_RULE, q));
    case HashFinish => HashFinishQueue(q, env); HasherKeepsPeer(cfg, s.a, Finish(HASHER_RULE, q));
  }

  lemma UpdateStepPeer(cfg: Config, s: Sys, act: Action)
    requires PeerInv(cfg, s.a) && Enabled(cfg, s, act) && IsUpdateAction(act)
    ensures PeerInv(cfg, Step(cfg, s, act).a)
  {
    hide PeerInv;
    if act.TakeBatch? {
      TakeBatchPeer(cfg, s.a);
    } else {
      UpdatePeerKeeps(cfg, s.a, act);
    }
  }

  /** What holds of a peer by itself is kept by every one of its steps, also after an answer that was misread. */
  lemma StepPeer(cfg: Config, s: Sys, act: Action)
    requires PeerInv(cfg, s.a) && Enabled(cfg, s, act)
    ensures PeerInv(cfg, Step(cfg, s, act).a)
  {
    hide PeerInv;
    if IsHasherAction(act) {
      HasherStepPeer(cfg, s, act);
    } else if IsUpdateAction(act) {
      UpdateStepPeer(cfg, s, act);
    } else if IsDownloadAction(act) {
      DownloadStepPeer(cfg, s, act);
    } else if IsUploadAction(act) {
      UploadStepPeer(cfg, s, act);
    } else if IsEnvironment(act) {
      EnvironmentPeer(cfg, s, act);
    } else if act.Announce? {
      AnnouncePeer(cfg, s.a);
    }
  }
}

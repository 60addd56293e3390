// What two peers end with, and what holds of every state on the way.
module SyncTheorems {
  import opened Codec
  import opened Entries
  import opened FoundMask
  import opened Framing
  import opened Hasher
  import opened FileStore
  import opened SyncModel
  import opened SyncInvariant
  import opened SyncRuns

  // ----- what the peers end with -----

  /** The record is a copy of the image: the bytes of its file, and what follows the last slash of its path. Of a name
      that has more than 255 bytes, as many are there as are left of its length in one byte. */
  ghost predicate Copies(files: Files, e: Entry, r: Record) {
    var name := Basename(e.path);
    && e.path in files && r.body == files[e.path]
    && r.name == if |name| <= 255 then name else name[..|name| % 256]
  }

  /** What is sent of an image is a copy of it, and nothing else is. */
  lemma RecordCopies(files: Files, e: Entry, r: Record)
    requires Contents(files, e.path) != []
    ensures Copies(files, e, r) <==> r == RecordOf(files, e)
  {
    var name := Basename(e.path);
    assert name[..|name|] == name;
  }

  /** What was downloaded is a copy of the image of `from` that has the hash under which it was downloaded. */
  ghost predicate Genuine(from: Env, d: Download) {
    exists e :: e in Images(from) && e.hash == d.hash && Copies(from.files, e, d.record)
  }

  /** And the file in which it was stored, if it was, has the bytes of the file of that image. */
  ghost predicate Arrived(from: Env, p: Peer, d: Download) {
    exists e :: e in Images(from) && e.hash == d.hash && Copies(from.files, e, d.record) &&
                (d.path.Some? ==> d.path.value in p.files && p.files[d.path.value] == from.files[e.path])
  }

  /** The peer has an image with this hash: its own, or one of `from` that it stored and still has whole. */
  ghost predicate Has(p: Peer, from: Env, h: ExifHash) {
    h in HashSet(p.queue.entries) || exists i :: 0 <= i < |p.down.got| && Keeps(p, from, p.down.got[i], h)
  }

  ghost predicate Keeps(p: Peer, from: Env, d: Download, h: ExifHash) {
    && d.hash == h && Genuine(from, d)
    && d.path.Some? && Contents(p.files, d.path.value) == d.record.body
  }

  /** The peer has received the image of `from` with this hash, and reported a file name conflict for it. */
  ghost predicate Refused(p: Peer, from: Env, h: ExifHash) {
    exists i :: 0 <= i < |p.down.got| && Rejects(from, p.down.got[i], h)
  }

  ghost predicate Rejects(from: Env, d: Download, h: ExifHash) {
    d.hash == h && Genuine(from, d) && d.path.None?
  }

  /** What was uploaded by a peer that is done: the images it has processed that the other peer lacked. */
  lemma SentAtEnd(cfg: Config, s: Sys)
    requires Inv(AsMeant, cfg, s) && Final(s)
    ensures s.a.queue.entries == Images(s.a.env) && s.b.queue.entries == Images(s.b.env)
    ensures s.a.up.processed <= |Images(s.a.env)|
    ensures s.a.up.sent == NotIn(Images(s.a.env)[..s.a.up.processed], HashSet(Images(s.b.env)))
    ensures |s.b.down.got| == |s.a.up.sent|
    ensures forall i :: 0 <= i < |s.a.up.sent| ==> s.b.down.got[i].hash == s.a.up.sent[i].hash
  {
    HashedAll(cfg, s.a);
    HashedAll(cfg, s.b);
    SentToEnd(cfg, s);
  }

  lemma SentToEnd(cfg: Config, s: Sys)
    requires Half(AsMeant, cfg, s) && Final(s)
    ensures s.a.up.sent == NotIn(s.a.queue.entries[..s.a.up.processed], HashSet(s.b.queue.entries))
    ensures |s.b.down.got| == |s.a.up.sent|
    ensures forall i :: 0 <= i < |s.a.up.sent| ==> s.b.down.got[i].hash == s.a.up.sent[i].hash
  {
  }

  /** Something has been downloaded with this hash. */
  ghost predicate Got(got: seq<Download>, h: ExifHash) {
    exists i :: 0 <= i < |got| && got[i].hash == h
  }

  lemma GotMissing(images: seq<Entry>, have: set<ExifHash>, got: seq<Download>, h: ExifHash)
    requires |got| == |NotIn(images, have)|
    requires forall i :: 0 <= i < |got| ==> got[i].hash == NotIn(images, have)[i].hash
    ensures Got(got, h) <==> h in HashSet(images) && h !in have
  {
    var sent := NotIn(images, have);
    InHashSet(images, h);
    if h !in have && h in HashSet(images) {
      var i :| 0 <= i < |images| && images[i].hash == h;
      InNotIn(images, have, images[i]);
      var j :| 0 <= j < |sent| && sent[j] == images[i];
      assert got[j].hash == h;
    }
    if i :| 0 <= i < |got| && got[i].hash == h {
      InNotIn(images, have, sent[i]);
    }
  }

  /** Each download is a copy of the image that was sent in its turn. */
  lemma SentCopied(how: Answers, cfg: Config, s: Sys, i: nat)
    requires Half(how, cfg, s) && i < |s.b.down.got|
    ensures i < |s.a.up.sent| && s.a.up.sent[i] in Images(s.a.env)
    ensures Copies(s.a.env.files, s.a.up.sent[i], s.b.down.got[i].record)
  {
    hide LinkInv, NetInv, Kept, CoverInv, Copies, RecordOf;
    var e := s.a.up.sent[i];
    SentEntries(how, s.a.queue.entries, s.a.up, HashSet(s.b.queue.entries), e);
    assert s.a.queue.entries <= Images(s.a.env) && e in s.a.queue.entries;
    EntryThere(s.a.env, s.a.queue, e);
    RecordCopies(s.a.env.files, e, s.b.down.got[i].record);
  }

  lemma EntryThere(env: Env, q: Queue, e: Entry)
    requires ValidEnv(env) && QueueInv(env, q) && e in q.entries
    ensures Contents(env.files, e.path) != []
  {
    assert Source(e.path, Some(e.hash)) in env.sources;
  }

  /** Everything that was downloaded is the image it is taken for. */
  lemma GotGenuine(cfg: Config, s: Sys)
    requires Half(AsMeant, cfg, s)
    ensures forall i :: 0 <= i < |s.b.down.got| ==> Genuine(s.a.env, s.b.down.got[i]) && Kept(s.b, s.b.down.got[i])
  {
    hide LinkInv, NetInv, Kept, CoverInv, Copies, RecordOf;
    forall i | 0 <= i < |s.b.down.got|
      ensures Genuine(s.a.env, s.b.down.got[i])
    {
      SentCopied(AsMeant, cfg, s, i);
      assert s.a.up.sent[i] in Images(s.a.env);
    }
  }

  lemma HasOrRefused(p: Peer, from: Env, h: ExifHash)
    requires forall i :: 0 <= i < |p.down.got| ==> Genuine(from, p.down.got[i]) && Kept(p, p.down.got[i])
    ensures Has(p, from, h) || Refused(p, from, h) <==> h in HashSet(p.queue.entries) || Got(p.down.got, h)
  {
    hide Genuine;
    if i :| 0 <= i < |p.down.got| && p.down.got[i].hash == h {
      assert Kept(p, p.down.got[i]);
      assert Rejects(from, p.down.got[i], h) || Keeps(p, from, p.down.got[i], h);
    }
  }

  /** A hash is downloaded, stored or refused, exactly if it is that of a processed image that was missing. */
  lemma DownloadedAtEnd(cfg: Config, s: Sys, h: ExifHash)
    requires Inv(AsMeant, cfg, s) && Final(s)
    ensures Has(s.b, s.a.env, h) || Refused(s.b, s.a.env, h)
       <==> h in HashSet(Images(s.b.env)) || h in HashSet(Images(s.a.env)[..s.a.up.processed])
  {
    SentAtEnd(cfg, s);
    GotGenuine(cfg, s);
    hide Inv, Has, Refused, Genuine, Kept;
    GotMissing(Images(s.a.env)[..s.a.up.processed], HashSet(Images(s.b.env)), s.b.down.got, h);
    HasOrRefused(s.b, s.a.env, h);
  }

  /** Every image of peer a has reached peer b, or was refused there. */
  ghost predicate Reached(s: Sys) {
    forall h :: h in HashSet(Images(s.a.env)) ==> Has(s.b, s.a.env, h) || Refused(s.b, s.a.env, h)
  }

  /** A complete run brings every image to the other peer if and only if that peer had the images that the
      uploader left without having processed. */
  lemma ReachedExactly(cfg: Config, s: Sys)
    requires Inv(AsMeant, cfg, s) && Final(s)
    ensures s.a.up.processed <= |Images(s.a.env)|
    ensures Reached(s) <==> HashSet(Images(s.a.env)[s.a.up.processed..]) <= HashSet(Images(s.b.env))
  {
    SentAtEnd(cfg, s);
    var images, n, have := Images(s.a.env), s.a.up.processed, HashSet(Images(s.b.env));
    assert Distinct(images);
    forall h
      ensures h in HashSet(images) <==> h in HashSet(images[..n]) || h in HashSet(images[n..])
      ensures !(h in HashSet(images[..n]) && h in HashSet(images[n..]))
      ensures Has(s.b, s.a.env, h) || Refused(s.b, s.a.env, h) <==> h in have || h in HashSet(images[..n])
    {
      SplitHashSet(images, n, h);
      DownloadedAtEnd(cfg, s, h);
    }
  }

  lemma {:induction false} HashSetAppend(a: seq<Entry>, b: seq<Entry>)
    ensures HashSet(a + b) == HashSet(a) + HashSet(b)
  {
    if b == [] {
      assert a + b == a;
    } else {
      var n := |b| - 1;
      assert (a + b)[..|a + b| - 1] == a + b[..n];
      HashSetAppend(a, b[..n]);
    }
  }

  lemma SplitHashSet(es: seq<Entry>, n: nat, h: ExifHash)
    requires n <= |es| && Distinct(es)
    ensures h in HashSet(es) <==> h in HashSet(es[..n]) || h in HashSet(es[n..])
    ensures !(h in HashSet(es[..n]) && h in HashSet(es[n..]))
  {
    assert es == es[..n] + es[n..];
    HashSetAppend(es[..n], es[n..]);
    InHashSet(es[..n], h);
    InHashSet(es[n..], h);
  }

  // ----- convergence -----

  /** The peer has, or has refused, just the images of both. */
  ghost predicate HasUnion(p: Peer, from: Env) {
    forall h :: Has(p, from, h) || Refused(p, from, h) <==> h in HashSet(Images(p.env)) || h in HashSet(Images(from))
  }

  /** Every image stored from the other peer is the one that belongs to its hash, whole, in a file of its own
      that was empty before; every refusal is due to two paths that are taken. */
  ghost predicate StoredWhole(from: Env, p: Peer) {
    forall i :: 0 <= i < |p.down.got| ==>
      var d := p.down.got[i];
      && Kept(p, d) && Arrived(from, p, d)
      && forall j :: 0 <= j < i && d.path.Some? ==> p.down.got[j].path != d.path
  }

  lemma GenuineArrived(from: Env, p: Peer, d: Download)
    requires ValidEnv(from) && Genuine(from, d) && Kept(p, d)
    ensures Arrived(from, p, d)
  {
    var e :| e in Images(from) && e.hash == d.hash && Copies(from.files, e, d.record);
    ImageThere(from, e);
  }

  lemma ImageThere(env: Env, e: Entry)
    requires ValidEnv(env) && e in Images(env)
    ensures Contents(env.files, e.path) != []
  {
    ListedFrom(HASHER_RULE, [], env.sources, e);
    assert Source(e.path, Some(e.hash)) in env.sources;
  }

  lemma AllArrived(cfg: Config, s: Sys)
    requires Half(AsMeant, cfg, s)
    ensures StoredWhole(s.a.env, s.b)
  {
    GotGenuine(cfg, s);
    assert ValidEnv(s.a.env);
    hide PeerInv, LinkInv, NetInv, CoverInv, Kept, Genuine, Arrived;
    forall i | 0 <= i < |s.b.down.got|
      ensures Arrived(s.a.env, s.b, s.b.down.got[i])
    {
      GenuineArrived(s.a.env, s.b, s.b.down.got[i]);
    }
  }

  lemma UnionAtEnd(cfg: Config, s: Sys)
    requires Inv(AsMeant, cfg, s) && Final(s) && cfg.exit.RereadExit?
    ensures HasUnion(s.b, s.a.env)
    ensures s.a.up.sent == NotIn(Images(s.a.env), HashSet(Images(s.b.env))) && Distinct(s.a.up.sent)
    ensures StoredWhole(s.a.env, s.b) && FilesInv(s.b.env, s.b.files)
  {
    InvPeers(AsMeant, cfg, s);
    SentAtEnd(cfg, s);
    AllArrived(cfg, s);
    hide StoredWhole, Has, Refused;
    var images, sent := Images(s.a.env), s.a.up.sent;
    HashedAll(cfg, s.a);
    assert s.a.up.processed == |images| && images[..|images|] == images;
    NotInDistinct(images, HashSet(Images(s.b.env)));
    forall h
      ensures Has(s.b, s.a.env, h) || Refused(s.b, s.a.env, h)
         <==> h in HashSet(images) || h in HashSet(Images(s.b.env))
    {
      DownloadedAtEnd(cfg, s, h);
    }
  }

  /** Convergence: when two peers that read the entry count once more are done, each has the images of both
      but those that it reports as conflicts; each image that was missing crossed exactly once, and no other;
      every file that was not empty is as it was. */
  lemma Convergence(cfg: Config, a: Env, b: Env, run: seq<Move>)
    requires ValidEnv(a) && ValidEnv(b) && cfg.exit.RereadExit?
    requires IsRun(cfg, StartSys(a, b), run) && Agreeing(AsMeant, cfg, StartSys(a, b), run)
    requires Final(End(cfg, StartSys(a, b), run))
    ensures var end := End(cfg, StartSys(a, b), run);
            && HasUnion(end.a, b) && HasUnion(end.b, a)
            && StoredWhole(b, end.a) && StoredWhole(a, end.b)
            && FilesInv(a, end.a.files) && FilesInv(b, end.b.files)
            && end.a.up.sent == NotIn(Images(a), HashSet(Images(b))) && Distinct(end.a.up.sent)
            && end.b.up.sent == NotIn(Images(b), HashSet(Images(a))) && Distinct(end.b.up.sent)
  {
    hide Inv;
    var end := End(cfg, StartSys(a, b), run);
    Reachable(AsMeant, cfg, a, b, run);
    EnvKept(cfg, StartSys(a, b), run);
    UnionAtEnd(cfg, end);
    SwapKeeps(AsMeant, cfg, end);
    UnionAtEnd(cfg, Swap(end));
  }

  lemma SentOnce(entries: seq<Entry>, up: Uploader, have: set<ExifHash>)
    requires CoverInv(AsMeant, entries, up, have) && Distinct(entries)
    ensures Distinct(up.sent)
    ensures forall e :: e in up.sent ==> e in entries && e.hash !in have
  {
    var all := NotIn(entries[..up.processed], have);
    NotInDistinct(entries[..up.processed], have);
    assert up.sent == all[..|up.sent|];
    forall e | e in up.sent
      ensures e in entries && e.hash !in have
    {
      SentEntries(AsMeant, entries, up, have, e);
    }
  }

  lemma SentAfterUpdate(cfg: Config, s: Sys)
    requires Half(AsMeant, cfg, s)
    ensures Distinct(s.a.queue.entries) && CoverInv(AsMeant, s.a.queue.entries, s.a.up, HashSet(s.b.queue.entries))
    ensures s.a.up.sent != [] ==> !Updating(s.b.down.stage)
  {
    assert Balanced(HASHER_RULE, s.a.queue);
  }

  /** At any time, nothing was sent twice, and nothing that the other peer has. */
  lemma MinimalTransfer(cfg: Config, s: Sys)
    requires Inv(AsMeant, cfg, s)
    ensures Distinct(s.a.up.sent)
    ensures forall e :: e in s.a.up.sent ==> e in s.a.queue.entries && e.hash !in HashSet(s.b.queue.entries)
    ensures s.a.up.sent != [] ==> s.b.queue.entries == Images(s.b.env)
  {
    SentAfterUpdate(cfg, s);
    SentOnce(s.a.queue.entries, s.a.up, HashSet(s.b.queue.entries));
    if s.a.up.sent != [] {
      HashedAll(cfg, s.b);
    }
  }

  // ----- what holds in every state on the way -----

  /** No thread ever gives up: no check of a count or a length fires, and every file to be uploaded is there. */
  lemma NeverFatal(how: Answers, cfg: Config, s: Sys)
    requires Half(how, cfg, s)
    ensures !s.a.up.stage.UFatal? && !s.b.down.stage.DFatal?
    ensures !Invalid(s.b.down.stage, s.ab.fwd.inb) && !Enabled(cfg, s, EndOfAnswers)
  {
    NeverInvalid(how, cfg, s);
    AnswersDoNotEnd(how, cfg, s);
    StagesNotFatal(how, cfg, s);
  }

  lemma StagesNotFatal(how: Answers, cfg: Config, s: Sys)
    requires Half(how, cfg, s)
    ensures !s.a.up.stage.UFatal? && !s.b.down.stage.DFatal?
  {
  }

  /** The bytes in flight from an uploader are just the records that were not yet downloaded, and the open offer
      behind them; or the offer was read, with nothing left to download, and the answer is in flight. */
  ghost predicate InFlight(files: Files, up: Uploader, down: Downloader, link: Link)
    requires |down.got| <= |up.sent|
  {
    var pend, owed, back := Flight(link.fwd), up.sent[|down.got|..], Flight(link.back);
    if up.stage.UAck? then
      || (back == [] && pend == Records(files, owed) + OfferBytes(HashesOf(up.stage.offer)))
      || (pend == [] && owed == [] && |up.stage.offer| <= 8 * |back| < |up.stage.offer| + 8)
    else pend == Records(files, owed)
  }

  lemma LinkInFlight(how: Answers, cfg: Config, files: Files, up: Uploader, down: Downloader, have: set<ExifHash>,
                     link: Link)
    requires LinkInv(how, cfg, files, up, down, have, link)
    ensures |down.got| <= |up.sent| && InFlight(files, up, down, link)
    ensures down.stage.DDone? ==> Flight(link.fwd) == [] && |down.got| == |up.sent|
  {
  }

  /** Framing: the downloads so far are the images sent so far, in their order and whole, up to those in flight. */
  lemma SessionFraming(how: Answers, cfg: Config, s: Sys)
    requires Inv(how, cfg, s)
    ensures |s.b.down.got| <= |s.a.up.sent|
    ensures forall i :: 0 <= i < |s.b.down.got| ==>
              var d, e := s.b.down.got[i], s.a.up.sent[i];
              Copies(s.a.env.files, e, d.record) && (how.AsMeant? ==> d.hash == e.hash)
    ensures InFlight(s.a.env.files, s.a.up, s.b.down, s.ab)
    ensures s.b.down.stage.DDone? ==> Flight(s.ab.fwd) == [] && |s.b.down.got| == |s.a.up.sent|
  {
    forall i | 0 <= i < |s.b.down.got|
      ensures Copies(s.a.env.files, s.a.up.sent[i], s.b.down.got[i].record)
    {
      hide Half, Copies;
      SentCopied(how, cfg, s, i);
    }
    hide PeerInv, LinkInv, CoverInv, NetInv, InFlight, Copies;
    LinkInFlight(how, cfg, s.a.env.files, s.a.up, s.b.down, HashSet(s.b.queue.entries), s.ab);
  }

  /** The uploader stays within the list; its offers are what it passed and was not reported, in order. */
  lemma UploaderCoverage(how: Answers, cfg: Config, s: Sys)
    requires Inv(how, cfg, s)
    ensures s.a.up.processed <= s.a.published <= s.a.queue.delivered <= |s.a.queue.entries|
    ensures s.a.up.offered == NotIn(s.a.queue.entries[..s.a.up.processed], s.a.up.received)
    ensures s.a.up.stage.UAck? ==> 1 <= |s.a.up.stage.offer| <= 26
  {
    assert PeerInv(cfg, s.a);
  }

  /** What was reported is true; once the update is over it does not change any more, and it is over only
      when the other peer has sent all of it. */
  lemma SummaryFrozen(how: Answers, cfg: Config, s: Sys, m: Move)
    requires Inv(how, cfg, s) && CanMove(cfg, s, m)
    ensures s.a.up.received <= HashSet(s.b.queue.entries)
    ensures s.a.up.updated ==>
              && !Updating(s.b.down.stage) && s.b.queue.delivered == |s.b.queue.entries|
              && Next(cfg, s, m).a.up.updated && Next(cfg, s, m).a.up.received == s.a.up.received
  {
    assert PeerInv(cfg, s.b);
    UpdatedMeansSent(how, cfg, s);
    if m.side.B? {
      StepEnv(cfg, Swap(s), m.act);
    } else if s.a.up.updated {
      StepReceived(cfg, s, m.act);
    }
  }

  lemma UpdatedMeansSent(how: Answers, cfg: Config, s: Sys)
    requires Half(how, cfg, s)
    ensures s.a.up.received <= HashSet(s.b.queue.entries)
    ensures s.a.up.updated ==> !Updating(s.b.down.stage)
  {
  }

  lemma StepReceived(cfg: Config, s: Sys, act: Action)
    requires Enabled(cfg, s, act) && s.a.up.updated
    ensures Step(cfg, s, act).a.up.updated && Step(cfg, s, act).a.up.received == s.a.up.received
  {
    hide MissingHashes, Save, Walk, AfterCheck, BatchPacket, Select, HashSet, ParseRecord, Encode, PacketSet;
  }

  /** A peer answers offers, and stores files, only when its own list of images is complete and final. */
  lemma PhaseOrder(how: Answers, cfg: Config, s: Sys, act: Action)
    requires Inv(how, cfg, s) && Enabled(cfg, s, act)
    ensures act.Decide? || act.Store? ==> s.a.queue.done && s.a.queue.entries == Images(s.a.env)
    ensures Step(cfg, s, act).a.files != s.a.files ==> act.Store?
    ensures s.a.queue.done ==> Step(cfg, s, act).a.queue.entries == s.a.queue.entries
  {
    if act.Decide? || act.Store? {
      assert PeerInv(cfg, s.a);
      HashedAll(cfg, s.a);
    }
    StepFiles(cfg, s, act);
    StepEntries(cfg, s, act);
  }

  lemma StepFiles(cfg: Config, s: Sys, act: Action)
    requires Enabled(cfg, s, act)
    ensures Step(cfg, s, act).a.files != s.a.files ==> act.Store?
  {
    hide MissingHashes, Save, Walk, AfterWalk, BatchPacket, Select, HashSet, ParseRecord, Encode, PacketSet;
  }

  lemma StepEntries(cfg: Config, s: Sys, act: Action)
    requires Enabled(cfg, s, act)
    ensures s.a.queue.done ==> Step(cfg, s, act).a.queue.entries == s.a.queue.entries
  {
    hide MissingHashes, Save, Walk, AfterWalk, BatchPacket, Select, HashSet, ParseRecord, Encode, PacketSet;
  }

  lemma BatchTaken(cfg: Config, s: Sys)
    requires Balanced(HASHER_RULE, s.a.queue) && Enabled(cfg, s, TakeBatch)
    ensures var q, n := s.a.queue, Step(cfg, s, TakeBatch).a.queue.delivered - s.a.queue.delivered;
            0 <= n <= 27 && (n < 27 ==> q.done && n == |q.entries| - q.delivered)
  {
    hide Balanced;
    if s.a.queue.done {
      DoneCredits(s.a.queue);
    }
  }

  lemma DoneCredits(q: Queue)
    requires Balanced(HASHER_RULE, q) && q.done
    ensures q.credits == |q.entries| - q.delivered
  {
  }

  /** The datagram has the digests of the batch taken last, the last one in front. */
  ghost predicate Carries(packet: seq<byte>, p: Peer) {
    var q, stage := p.queue, p.down.stage;
    && stage.DSend? && stage.n <= q.delivered <= |q.entries| && |packet| == 20 * stage.n
    && forall k :: q.delivered - stage.n <= k < q.delivered ==>
         packet[20 * (q.delivered - 1 - k)..20 * (q.delivered - k)] == ToDigest(q.entries[k].hash)
  }

  lemma BatchCarries(p: Peer)
    requires p.down.stage.DSend? && p.down.stage.n <= p.queue.delivered <= |p.queue.entries|
    ensures Carries(BatchPacket(p), p)
  {
    var q, n := p.queue, p.down.stage.n;
    var hs := HashesOf(q.entries[q.delivered - n..q.delivered]);
    hide UpdatePacket, ToDigest;
    forall k | q.delivered - n <= k < q.delivered
      ensures BatchPacket(p)[20 * (q.delivered - 1 - k)..20 * (q.delivered - k)] == ToDigest(q.entries[k].hash)
    {
      var i := k - (q.delivered - n);
      PacketBytes(hs, i);
      assert hs[i] == q.entries[k].hash && 20 * (n - 1 - i) + 20 == 20 * (q.delivered - k);
    }
  }

  lemma BatchSent(cfg: Config, s: Sys)
    requires Enabled(cfg, s, SendBatch)
    ensures s.a.down.stage.DSend? && s.a.down.stage.n <= s.a.queue.delivered <= |s.a.queue.entries|
    ensures Step(cfg, s, SendBatch).toB == s.toB + {BatchPacket(s.a)}
  {
    hide BatchPacket;
  }

  /** The update goes out 27 hashes at a time, last one first; fewer are taken only when hashing is over, and then all
      that are left. */
  lemma UpdateBatches(how: Answers, cfg: Config, s: Sys, act: Action)
    requires Inv(how, cfg, s) && Enabled(cfg, s, act)
    ensures act.HashCredit? ==> Step(cfg, s, act).a.queue.credits == s.a.queue.credits + 27
    ensures act.TakeBatch? ==>
              var q, n := s.a.queue, Step(cfg, s, act).a.queue.delivered - s.a.queue.delivered;
              0 <= n <= 27 && (n < 27 ==> q.done && n == |q.entries| - q.delivered)
    ensures act.SendBatch? ==>
              exists packet: seq<byte> :: Step(cfg, s, act).toB == s.toB + {packet} && Carries(packet, s.a)
  {
    assert Balanced(HASHER_RULE, s.a.queue);
    hide Inv, Balanced, Carries;
    if act.TakeBatch? {
      BatchTaken(cfg, s);
    } else if act.SendBatch? {
      BatchSent(cfg, s);
      BatchCarries(s.a);
    }
  }

  /** An uploader that sleeps will be woken: hashing goes on, and a notification, at the latest the one that
      ends hashing, makes it load the count again. The uploader that reads the count once more leaves with every image
      processed. */
  lemma Handshake(how: Answers, cfg: Config, s: Sys)
    requires Inv(how, cfg, s)
    ensures s.a.up.stage.USleep? ==> s.a.hashing && Updating(s.a.down.stage)
    ensures s.a.up.stage.USleep? && s.a.down.stage.DNotify? ==>
              UpdatePeer(s.a, Notify).up == s.a.up.(stage := ULoad)
    ensures s.a.up.stage.USleep? && s.a.down.stage.DFinish? ==>
              UpdatePeer(s.a, EndHashing).up == s.a.up.(stage := ULoad) && !UpdatePeer(s.a, EndHashing).hashing
    ensures s.a.up.stage.USleep? ==> Wake(s.a.up) == s.a.up.(stage := ULoad)
    ensures s.a.up.stage.UDone? && cfg.exit.RereadExit? ==> s.a.up.processed == |Images(s.a.env)|
  {
    hide Inv;
    InvPeers(how, cfg, s);
    PeerHandshake(cfg, s.a);
  }

  /** Leaving when hashing was seen to be over is right exactly if the entry count, read at that moment, is the
      one that was processed; the program as written does not read it, and leaves in any case. */
  lemma ExitExactly(how: Answers, cfg: Config, s: Sys)
    requires Inv(how, cfg, s) && Enabled(cfg, s, CheckHashing) && !s.a.hashing
    ensures s.a.up.processed == |Images(s.a.env)| <==> s.a.up.processed == s.a.published
    ensures Step(cfg, s, CheckHashing).a.up.stage.UDone? <==> cfg.exit.WrittenExit? || s.a.up.processed == s.a.published
    ensures Step(cfg, s, CheckHashing).a.up.processed == s.a.up.processed
  {
    hide Half;
    PublishedAll(how, cfg, s);
  }

  lemma PublishedAll(how: Answers, cfg: Config, s: Sys)
    requires Half(how, cfg, s)
    ensures !s.a.hashing ==> s.a.published == |Images(s.a.env)|
  {
    hide LinkInv, CoverInv, GotInv, NetInv;
    if !s.a.hashing {
      assert QueueInv(s.a.env, s.a.queue);
    }
  }

  lemma PeerHandshake(cfg: Config, p: Peer)
    requires PeerInv(cfg, p)
    ensures p.up.stage.USleep? ==> p.hashing && Updating(p.down.stage)
    ensures p.up.stage.UDone? && cfg.exit.RereadExit? ==> p.up.processed == |Images(p.env)|
  {
    if p.up.stage.UDone? && cfg.exit.RereadExit? {
      assert p.queue.done && p.queue.entries == Images(p.env);
    }
  }
}

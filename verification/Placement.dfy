// The path at which each download is stored, and when none has to be refused.
module Placement {
  import opened Codec
  import opened Entries
  import opened FoundMask
  import opened Framing
  import opened FileStore
  import opened SyncModel
  import opened SyncInvariant
  import opened SyncRuns
  import opened SyncTheorems

  // ----- where downloads go -----

  /** The path was taken when the `i`th download arrived: from the start, or by a download before it. */
  ghost predicate Occupied(p: Peer, i: nat, path: Path)
    requires i <= |p.down.got|
  {
    !Free(p.env.files, p.env.locked, path) || exists j :: 0 <= j < i && p.down.got[j].path == Some(path)
  }

  /** The first of its two paths that was not taken. */
  ghost function PlaceFor(p: Peer, i: nat, name: seq<byte>, hash: ExifHash): Option<Path>
    requires i <= |p.down.got|
  {
    var plain, hashed := PlainPath(p.env.dir, name), HashedPath(p.env.dir, name, hash);
    if !Occupied(p, i, plain) then Some(plain) else if !Occupied(p, i, hashed) then Some(hashed) else None
  }

  /** Files that had no contents at the start have them only from a download. */
  ghost predicate OnlyDownloads(p: Peer) {
    forall path :: Contents(p.files, path) != [] && Contents(p.env.files, path) == [] ==>
      exists j :: 0 <= j < |p.down.got| && p.down.got[j].path == Some(path)
  }

  /** Every download is in its place. */
  ghost predicate Placed(p: Peer) {
    && OnlyDownloads(p)
    && forall i :: 0 <= i < |p.down.got| ==>
         p.down.got[i].path == PlaceFor(p, i, p.down.got[i].record.name, p.down.got[i].hash)
  }

  ghost predicate BothPlaced(s: Sys) {
    Placed(s.a) && Placed(s.b)
  }

  // ----- storing keeps that -----

  /** What is taken now is what was taken from the start, and by the downloads. */
  lemma FreeNow(p: Peer, path: Path)
    requires FilesInv(p.env, p.files) && OnlyDownloads(p)
    requires forall i :: 0 <= i < |p.down.got| ==> Kept(p, p.down.got[i]) && p.down.got[i].record.body != []
    ensures Free(p.files, p.env.locked, path) <==> !Occupied(p, |p.down.got|, path)
  {
    if Occupied(p, |p.down.got|, path) && Free(p.env.files, p.env.locked, path) {
      var j :| 0 <= j < |p.down.got| && p.down.got[j].path == Some(path);
      assert Kept(p, p.down.got[j]);
    }
  }

  /** The peer after one more download. */
  function AfterStore(p: Peer, hash: ExifHash, r: Record, stage: DownloadStage): Peer {
    var stored := Save(p.files, p.env.locked, p.env.dir, hash, r);
    p.(files := stored.files, down := Downloader(stage, p.down.got + [Download(hash, r, stored.path)]))
  }

  /** One more download, in its place. */
  ghost predicate OneMore(p: Peer, next: Peer, d: Download) {
    && next.env == p.env && next.down.got == p.down.got + [d]
    && d.path == PlaceFor(p, |p.down.got|, d.record.name, d.hash)
    && forall path :: d.path != Some(path) ==> Contents(next.files, path) == Contents(p.files, path)
  }

  lemma StoreIsOneMore(p: Peer, hash: ExifHash, r: Record, stage: DownloadStage) returns (d: Download)
    requires FilesInv(p.env, p.files) && OnlyDownloads(p)
    requires forall i :: 0 <= i < |p.down.got| ==> Kept(p, p.down.got[i]) && p.down.got[i].record.body != []
    ensures OneMore(p, AfterStore(p, hash, r, stage), d)
  {
    SaveOutcome(p.files, p.env.locked, p.env.dir, hash, r);
    FreeNow(p, PlainPath(p.env.dir, r.name));
    FreeNow(p, HashedPath(p.env.dir, r.name, hash));
    hide Save, Kept, FilesInv, PlainPath, HashedPath, Free, OnlyDownloads, Occupied;
    d := Download(hash, r, Save(p.files, p.env.locked, p.env.dir, hash, r).path);
  }

  lemma SameOccupied(p: Peer, next: Peer, i: nat, path: Path)
    requires next.env == p.env && i <= |p.down.got| && i <= |next.down.got|
    requires forall j :: 0 <= j < i ==> next.down.got[j] == p.down.got[j]
    ensures Occupied(next, i, path) <==> Occupied(p, i, path)
  {
    hide Free;
    if j :| 0 <= j < i && p.down.got[j].path == Some(path) {
      assert next.down.got[j].path == Some(path);
    }
  }

  lemma OneMorePlaces(p: Peer, next: Peer, d: Download)
    requires Placed(p) && OneMore(p, next, d)
    ensures Placed(next)
  {
    var n := |p.down.got|;
    assert forall j :: 0 <= j < n ==> next.down.got[j] == p.down.got[j];
    forall i: nat, path | i <= n
      ensures Occupied(next, i, path) <==> Occupied(p, i, path)
    {
      SameOccupied(p, next, i, path);
    }
    hide Occupied, PlainPath, HashedPath;
    StoredOnly(p, next, d);
    hide OnlyDownloads;
    forall i: nat | i <= n
      ensures PlaceFor(next, i, next.down.got[i].record.name, next.down.got[i].hash)
           == PlaceFor(p, i, next.down.got[i].record.name, next.down.got[i].hash)
    {
    }
  }

  lemma StoredOnly(p: Peer, next: Peer, d: Download)
    requires OnlyDownloads(p) && OneMore(p, next, d)
    ensures OnlyDownloads(next)
  {
    hide PlaceFor;
    var n := |p.down.got|;
    forall path | Contents(next.files, path) != [] && Contents(next.env.files, path) == []
      ensures exists j :: 0 <= j < |next.down.got| && next.down.got[j].path == Some(path)
    {
      if d.path == Some(path) {
        assert next.down.got[n] == d;
      } else {
        var j :| 0 <= j < n && p.down.got[j].path == Some(path);
        assert next.down.got[j] == p.down.got[j];
      }
    }
  }

  lemma StorePlaces(p: Peer, hash: ExifHash, r: Record, stage: DownloadStage)
    requires FilesInv(p.env, p.files) && Placed(p)
    requires forall i :: 0 <= i < |p.down.got| ==> Kept(p, p.down.got[i]) && p.down.got[i].record.body != []
    ensures Placed(AfterStore(p, hash, r, stage))
  {
    hide Kept, FilesInv, OnlyDownloads, OneMore, AfterStore;
    var d := StoreIsOneMore(p, hash, r, stage);
    OneMorePlaces(p, AfterStore(p, hash, r, stage), d);
  }

  // ----- every step, and runs -----

  lemma StoreIsAfter(cfg: Config, s: Sys)
    requires Enabled(cfg, s, Store)
    ensures s.a.down.stage.DRecords? && s.a.down.stage.missing != [] && RecordNeed(s.ba.fwd.inb) == 0
    ensures var missing := s.a.down.stage.missing;
            Step(cfg, s, Store).a == AfterStore(s.a, missing[0], ParseRecord(s.ba.fwd.inb), AfterOffer(missing[1..]))
  {
    hide Save, ParseRecord, RecordNeed;
  }

  lemma StepGot(cfg: Config, s: Sys, act: Action)
    requires Enabled(cfg, s, act) && !act.Store?
    ensures Step(cfg, s, act).a.down.got == s.a.down.got
  {
    hide MissingHashes, Save, Walk, AfterWalk, BatchPacket, Select, HashSet, ParseRecord, Encode, PacketSet;
  }

  lemma SamePlaced(p: Peer, next: Peer)
    requires Placed(p) && next.env == p.env && next.files == p.files && next.down.got == p.down.got
    ensures Placed(next)
  {
    forall i: nat, path | i <= |p.down.got|
      ensures Occupied(next, i, path) <==> Occupied(p, i, path)
    {
      SameOccupied(p, next, i, path);
    }
    hide Occupied, HashedPath, PlainPath;
  }

  lemma DownloadsKept(how: Answers, cfg: Config, s: Sys)
    requires Half(how, cfg, s)
    ensures forall i :: 0 <= i < |s.b.down.got| ==> Kept(s.b, s.b.down.got[i]) && s.b.down.got[i].record.body != []
  {
    hide PeerInv, LinkInv, CoverInv, NetInv, Kept, RecordOf;
  }

  lemma StepPlaced(how: Answers, cfg: Config, s: Sys, act: Action)
    requires Inv(how, cfg, s) && Enabled(cfg, s, act) && Placed(s.a)
    ensures Placed(Step(cfg, s, act).a)
  {
    hide Placed, Half, PeerInv, Step, Enabled;
    if act.Store? {
      SwappedHalf(how, cfg, s);
      DownloadsKept(how, cfg, Swap(s));
      InvFiles(how, cfg, s);
      StoreIsAfter(cfg, s);
      var missing := s.a.down.stage.missing;
      StorePlaces(s.a, missing[0], ParseRecord(s.ba.fwd.inb), AfterOffer(missing[1..]));
    } else {
      StepGot(cfg, s, act);
      StepFiles(cfg, s, act);
      StepEnv(cfg, s, act);
      SamePlaced(s.a, Step(cfg, s, act).a);
    }
  }

  lemma InvFiles(how: Answers, cfg: Config, s: Sys)
    requires Inv(how, cfg, s)
    ensures FilesInv(s.a.env, s.a.files)
  {
    hide LinkInv, CoverInv, NetInv, GotInv;
  }

  lemma MovePlaced(how: Answers, cfg: Config, s: Sys, m: Move)
    requires Inv(how, cfg, s) && CanMove(cfg, s, m) && BothPlaced(s)
    ensures BothPlaced(Next(cfg, s, m))
  {
    SwapKeeps(how, cfg, s);
    var v := View(s, m.side);
    StepPlaced(how, cfg, v, m.act);
    StepEnv(cfg, v, m.act);
    hide Inv, Placed, Step, Enabled;
  }

  /** In every run in which as many entries are taken from answers as are awaited, every download goes to the first of
      its two paths that was free at the start and is not that of an earlier download, and to none if neither is. */
  lemma {:induction false} RunPlaced(how: Answers, cfg: Config, s: Sys, run: seq<Move>)
    requires !how.Anyhow? && Inv(how, cfg, s) && BothPlaced(s)
    requires IsRun(cfg, s, run) && Agreeing(how, cfg, s, run)
    ensures BothPlaced(End(cfg, s, run))
    decreases |run|
  {
    hide Inv, BothPlaced, CanMove, Next, OfferAgrees;
    if run != [] {
      MovePlaced(how, cfg, s, run[0]);
      MoveKeeps(how, cfg, s, run[0]);
      RunPlaced(how, cfg, Next(cfg, s, run[0]), run[1..]);
    }
  }

  lemma StartPlaced(a: Env, b: Env)
    ensures BothPlaced(StartSys(a, b))
  {
  }

  // ----- when nothing is refused -----

  /** No image has the name that makes its first path the second path of another one. */
  ghost predicate NoLookalikes(env: Env) {
    forall e, f :: e in Images(env) && f in Images(env) ==>
      SentName(f.path) != Lookalike(SentName(e.path), e.hash)
  }

  /** The second path of every image of `from` can be written at the start, and has nothing there. */
  ghost predicate RoomFor(from: Env, env: Env) {
    forall e :: e in Images(from) ==> Free(env.files, env.locked, HashedPath(env.dir, SentName(e.path), e.hash))
  }

  lemma GotOf(cfg: Config, s: Sys, i: nat)
    requires Half(AsMeant, cfg, s) && i < |s.b.down.got|
    ensures i < |s.a.up.sent| && s.a.up.sent[i] in Images(s.a.env) && s.b.down.got[i].hash == s.a.up.sent[i].hash
    ensures s.b.down.got[i].record.name == SentName(s.a.up.sent[i].path) && Kept(s.b, s.b.down.got[i])
  {
    SentCopied(AsMeant, cfg, s, i);
    hide PeerInv, LinkInv, CoverInv, NetInv, Kept, Copies, SentName;
  }

  lemma HashesDiffer(cfg: Config, s: Sys, i: nat, j: nat)
    requires Inv(AsMeant, cfg, s) && i < |s.a.up.sent| && j < |s.a.up.sent| && i != j
    ensures s.a.up.sent[i].hash != s.a.up.sent[j].hash
  {
    hide Inv;
    MinimalTransfer(cfg, s);
    assert i < j || j < i;
  }

  /** The second path of a download is not that of another one. */
  lemma PathsDiffer(cfg: Config, s: Sys, i: nat, j: nat)
    requires Inv(AsMeant, cfg, s) && NoLookalikes(s.a.env) && i < |s.b.down.got| && j < |s.b.down.got| && i != j
    ensures s.b.down.got[j].path != Some(HashedPath(s.b.env.dir, s.b.down.got[i].record.name, s.b.down.got[i].hash))
  {
    hide Half;
    GotOf(cfg, s, i);
    GotOf(cfg, s, j);
    HashesDiffer(cfg, s, i, j);
    hide Inv, PlainPath, HashedPath, SentName, Lookalike, Images;
    var d, other, dir := s.b.down.got[i], s.b.down.got[j], s.b.env.dir;
    if other.path == Some(HashedPath(dir, d.record.name, d.hash)) {
      PlainIsHashed(dir, d.record.name, other.record.name, d.hash);
      if HashedPath(dir, d.record.name, d.hash) == HashedPath(dir, other.record.name, other.hash) {
        HashedPathsApart(dir, d.record.name, other.record.name, d.hash, other.hash);
      }
    }
  }

  /** Where the second paths are free at the start, nothing is refused, whatever names the images have in common. */
  lemma NoneRefused(cfg: Config, s: Sys, i: nat)
    requires Inv(AsMeant, cfg, s) && Placed(s.b) && NoLookalikes(s.a.env) && RoomFor(s.a.env, s.b.env)
    requires i < |s.b.down.got|
    ensures s.b.down.got[i].path.Some?
  {
    GotOf(cfg, s, i);
    hide Inv, PlainPath, HashedPath, SentName, Images, NoLookalikes, Free;
    forall j: nat | j < i
      ensures s.b.down.got[j].path != Some(HashedPath(s.b.env.dir, s.b.down.got[i].record.name, s.b.down.got[i].hash))
    {
      PathsDiffer(cfg, s, i, j);
    }
  }

  /** So a complete run leaves every image at the other peer, and images of one name are all stored there. */
  lemma AllStored(cfg: Config, a: Env, b: Env, run: seq<Move>)
    requires ValidEnv(a) && ValidEnv(b) && cfg.exit.RereadExit? && NoLookalikes(a) && RoomFor(a, b)
    requires IsRun(cfg, StartSys(a, b), run) && Agreeing(AsMeant, cfg, StartSys(a, b), run)
    requires Final(End(cfg, StartSys(a, b), run))
    ensures var end := End(cfg, StartSys(a, b), run);
            && (forall h :: h in HashSet(Images(a)) ==> Has(end.b, a, h))
            && forall i :: 0 <= i < |end.b.down.got| ==> end.b.down.got[i].path.Some?
  {
    hide Inv, BothPlaced, IsRun, End, Agreeing, Final, NoLookalikes, RoomFor, Images, HashSet, StoredWhole, Has;
    var s := StartSys(a, b);
    var end := End(cfg, s, run);
    Convergence(cfg, a, b, run);
    InitKeeps(AsMeant, cfg, a, b);
    StartPlaced(a, b);
    RunPlaced(AsMeant, cfg, s, run);
    Reachable(AsMeant, cfg, a, b, run);
    EnvKept(cfg, s, run);
    assert Placed(end.b) by {
      PlacedB(end);
    }
    hide Placed;
    forall i: nat | i < |end.b.down.got|
      ensures end.b.down.got[i].path.Some?
    {
      NoneRefused(cfg, end, i);
    }
    forall h
      ensures !Refused(end.b, a, h)
    {
    }
  }

  lemma PlacedB(s: Sys)
    requires BothPlaced(s)
    ensures Placed(s.b)
  {
  }
}

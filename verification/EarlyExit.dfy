// What becomes of images when the uploader leaves as it is written: with an entry count that it loaded
// before it saw that hashing was over. What it means for runs to converge.
module EarlyExit {
  import opened Codec
  import opened Entries
  import opened FoundMask
  import opened Hasher
  import opened SyncModel
  import opened SyncInvariant
  import opened SyncRuns
  import opened SyncTheorems
  import opened SyncReach

  // ----- leaving with nothing processed -----

  /** Peer b ends its update before peer a has published anything; peer a hears nothing of it. */
  lemma OtherUpdateFirst(how: Answers, cfg: Config, a: Env, b: Env) returns (t: Sys)
    ensures Reaches(how, cfg, StartSys(a, b), t) && t.a == Updated(StartPeer(a))
    ensures t.b.up == StartPeer(b).up && t.b.env == b && t.ab == StartLink()
  {
    hide Reaches;
    var r := StartSys(b, a);
    var packets, known := TellAll(how, cfg, r, false);
    var told := r.(a := Told(r.a), b := Knowing(r.b, known), toB := packets);
    assert told.b == r.b;
    AnnounceSeen(how, cfg, told);
    var seen := told.(a := told.a.(down := told.a.down.(stage := DOffer)), b := Updated(told.b));
    Onward(how, cfg, r, told, seen);
    OtherReaches(how, cfg, r, seen);
    t := Swap(seen);
  }

  /** The uploader loads a count of zero; then everything is published and heard, and hashing ends; then it looks. */
  lemma LeavesWithNothing(how: Answers, cfg: Config, a: Env, b: Env) returns (t: Sys)
    requires cfg.exit.WrittenExit?
    ensures Reaches(how, cfg, StartSys(a, b), t) && t.a.up.stage.UDone? && t.a.up.processed == 0
    ensures t.a.env == a && t.b.env == b && forall e :: e in Images(a) ==> e.hash in t.b.up.received
  {
    hide Reaches;
    var start := StartSys(a, b);
    var s := OtherUpdateFirst(how, cfg, a, b);
    OnA(how, cfg, start, s, LoadCount);
    var loaded := s.(a := s.a.(up := s.a.up.(stage := UCheck)));
    var packets, known := TellAll(how, cfg, loaded, true);
    var told := loaded.(a := Told(loaded.a), b := Knowing(loaded.b, known), toB := packets);
    Onward(how, cfg, start, loaded, told);
    OnA(how, cfg, start, told, CheckHashing);
    t := told.(a := told.a.(up := told.a.up.(stage := UDone)));
  }

  lemma ReachesGone(how: Answers, cfg: Config, s: Sys, t: Sys)
    requires Reaches(how, cfg, s, t) && s.a.up.stage.UDone?
    ensures t.a.up.processed == s.a.up.processed
  {
    hide IsRun, End, Agreeing;
    var run :| IsRun(cfg, s, run) && Agreeing(how, cfg, s, run) && End(cfg, s, run) == t;
    RunGone(cfg, s, run);
  }

  /** Every image that the other peer lacks can be left behind by a run in which all answers are read as they were
      meant and both peers finish in order. */
  lemma ImageLeftBehind(cfg: Config, a: Env, b: Env, h: ExifHash) returns (end: Sys)
    requires ValidEnv(a) && ValidEnv(b) && cfg.exit.WrittenExit?
    requires h in HashSet(Images(a)) && h !in HashSet(Images(b))
    ensures Reaches(AsMeant, cfg, StartSys(a, b), end) && Final(end)
    ensures !Has(end.b, a, h) && !Refused(end.b, a, h)
  {
    hide Inv, Reaches, Has, Refused, Images, HashSet, CanTell;
    var t := LeavesWithNothing(AsMeant, cfg, a, b);
    AllHeard(a, b, t.b.up.received);
    end := Finishes(AsMeant, cfg, a, b, t);
    ReachesGone(AsMeant, cfg, t, end);
    ReachedInv(AsMeant, cfg, a, b, end);
    SentAtEnd(cfg, end);
    DownloadedAtEnd(cfg, end, h);
    NoneProcessed(Images(a), h);
  }

  lemma NoneProcessed(es: seq<Entry>, h: ExifHash)
    ensures h !in HashSet(es[..0])
  {
  }

  /** What a peer had from the start, it has at the end. */
  lemma OwnAtEnd(cfg: Config, a: Env, b: Env, t: Sys, h: ExifHash)
    requires ValidEnv(a) && ValidEnv(b) && Reaches(Anyhow, cfg, StartSys(a, b), t) && Final(t)
    requires h in HashSet(Images(b))
    ensures t.a.env == a && Has(t.b, a, h)
  {
    hide Reaches, Images, HashSet, PeerInv;
    ReachedPeers(cfg, a, b, t);
    HashedAll(cfg, t.b);
  }

  /** All complete runs bring all images of peer a to peer b. */
  ghost predicate Delivers(cfg: Config, a: Env, b: Env) {
    forall t :: Reaches(Anyhow, cfg, StartSys(a, b), t) && Final(t) ==> Reached(t)
  }

  /** With the exit as it is written, and either mask, all complete runs bring all images of peer a to peer b if and
      only if peer b has them from the start. */
  lemma WrittenExitExactly(cfg: Config, a: Env, b: Env)
    requires ValidEnv(a) && ValidEnv(b) && cfg.exit.WrittenExit?
    ensures Delivers(cfg, a, b) <==> HashSet(Images(a)) <= HashSet(Images(b))
  {
    hide Inv, Reaches, Has, Refused, Images, HashSet;
    if HashSet(Images(a)) <= HashSet(Images(b)) {
      forall t | Reaches(Anyhow, cfg, StartSys(a, b), t) && Final(t)
        ensures Reached(t)
      {
        hide Final;
        ReachedEnvs(cfg, a, b, t);
        forall h | h in HashSet(Images(a))
          ensures Has(t.b, a, h)
        {
          OwnAtEnd(cfg, a, b, t, h);
        }
      }
    } else {
      var h :| h in HashSet(Images(a)) && h !in HashSet(Images(b));
      var end := ImageLeftBehind(cfg, a, b, h);
      ReachesAnyhow(AsMeant, cfg, StartSys(a, b), end);
      ReachedEnvs(cfg, a, b, end);
      assert !Reached(end);
    }
  }

  lemma ReachedEnvs(cfg: Config, a: Env, b: Env, t: Sys)
    requires ValidEnv(a) && ValidEnv(b) && Reaches(Anyhow, cfg, StartSys(a, b), t)
    ensures t.a.env == a && t.b.env == b
  {
    hide Reaches, Peers;
    ReachedPeers(cfg, a, b, t);
  }

  // ----- both ways -----

  /** All complete runs end with the images of both at both, but for those that were refused. */
  ghost predicate Converges(cfg: Config, a: Env, b: Env) {
    forall t :: Reaches(Anyhow, cfg, StartSys(a, b), t) && Final(t) ==> HasUnion(t.a, b) && HasUnion(t.b, a)
  }

  lemma NothingElse(cfg: Config, a: Env, b: Env, t: Sys, h: ExifHash)
    requires ValidEnv(a) && ValidEnv(b) && Reaches(Anyhow, cfg, StartSys(a, b), t) && Final(t)
    requires Has(t.b, a, h) || Refused(t.b, a, h)
    ensures h in HashSet(Images(a)) || h in HashSet(Images(b))
  {
    hide Reaches, Images, HashSet, PeerInv;
    ReachedPeers(cfg, a, b, t);
    HashedAll(cfg, t.b);
    if h !in HashSet(t.b.queue.entries) {
      var i :| 0 <= i < |t.b.down.got| && t.b.down.got[i].hash == h && Genuine(a, t.b.down.got[i]);
      var e :| e in Images(a) && e.hash == h;
      InHashSet(Images(a), h);
    }
  }

  lemma UnionIsReached(cfg: Config, a: Env, b: Env, t: Sys)
    requires ValidEnv(a) && ValidEnv(b) && Reaches(Anyhow, cfg, StartSys(a, b), t) && Final(t)
    ensures HasUnion(t.b, a) <==> Reached(t)
  {
    hide Reaches, Has, Refused, Images, HashSet, Final;
    ReachedEnvs(cfg, a, b, t);
    forall h
      ensures Has(t.b, a, h) || Refused(t.b, a, h) ==> h in HashSet(Images(a)) || h in HashSet(Images(b))
      ensures h in HashSet(Images(b)) ==> Has(t.b, a, h)
    {
      if Has(t.b, a, h) || Refused(t.b, a, h) {
        NothingElse(cfg, a, b, t, h);
      }
      if h in HashSet(Images(b)) {
        OwnAtEnd(cfg, a, b, t, h);
      }
    }
  }

  /** Runs converge if and only if they deliver both ways: a peer never gets anything that neither had. */
  lemma ConvergesBothWays(cfg: Config, a: Env, b: Env)
    requires ValidEnv(a) && ValidEnv(b)
    ensures Converges(cfg, a, b) <==> Delivers(cfg, a, b) && Delivers(cfg, b, a)
  {
    hide Reaches, HasUnion, Reached;
    forall t | Reaches(Anyhow, cfg, StartSys(a, b), t) && Final(t)
      ensures Reaches(Anyhow, cfg, StartSys(b, a), Swap(t)) && Final(Swap(t))
      ensures HasUnion(t.b, a) <==> Reached(t)
      ensures HasUnion(t.a, b) <==> Reached(Swap(t))
    {
      OtherReaches(Anyhow, cfg, StartSys(a, b), t);
      UnionIsReached(cfg, a, b, t);
      UnionIsReached(cfg, b, a, Swap(t));
    }
    forall t | Reaches(Anyhow, cfg, StartSys(b, a), t) && Final(t)
      ensures Reaches(Anyhow, cfg, StartSys(a, b), Swap(t)) && Final(Swap(t)) && Swap(Swap(t)) == t
    {
      OtherReaches(Anyhow, cfg, StartSys(b, a), t);
    }
  }

  /** With the exit as it is written, and either mask, all complete runs converge if and only if both peers have the
      same images from the start. */
  lemma WrittenConvergence(cfg: Config, a: Env, b: Env)
    requires ValidEnv(a) && ValidEnv(b) && cfg.exit.WrittenExit?
    ensures Converges(cfg, a, b) <==> HashSet(Images(a)) == HashSet(Images(b))
  {
    hide Delivers, Converges, Images, HashSet;
    ConvergesBothWays(cfg, a, b);
    WrittenExitExactly(cfg, a, b);
    WrittenExitExactly(cfg, b, a);
  }

  // ----- one image -----

  const HASH := ExifHash(0, 0, 0, 0, 0)
  const NAME: Path := [120]

  // Peer a has one image, peer b has none.
  const ENV_A := Env([Source(NAME, Some(HASH))], map[NAME := [1]], {}, [])
  const ENV_B := Env([], map[], {}, [])

  lemma OneImage()
    ensures ValidEnv(ENV_A) && ValidEnv(ENV_B) && Images(ENV_A) == [Entry(HASH, NAME)] && Images(ENV_B) == []
  {
    var e := Entry(HASH, NAME);
    assert Listed(HASHER_RULE, [e], []) == [e] && [] + [e] == [e];
    assert ENV_A.sources[1..] == [];
    assert Listed(HASHER_RULE, [], ENV_A.sources) == Listed(HASHER_RULE, [e], []);
  }

  /** One image at one peer is enough. */
  lemma OneImageLeftBehind(cfg: Config) returns (end: Sys)
    requires cfg.exit.WrittenExit?
    ensures ValidEnv(ENV_A) && ValidEnv(ENV_B)
    ensures Reaches(AsMeant, cfg, StartSys(ENV_A, ENV_B), end) && Final(end)
    ensures !Has(end.b, ENV_A, HASH) && !Refused(end.b, ENV_A, HASH)
  {
    OneImage();
    InHashSet([Entry(HASH, NAME)], HASH);
    assert [Entry(HASH, NAME)][0].hash == HASH;
    hide Reaches, Has, Refused;
    end := ImageLeftBehind(cfg, ENV_A, ENV_B, HASH);
  }
}

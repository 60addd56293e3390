// Complete runs with the written mask after which an image is lost and another stands under its hash, and exactly
// when there are none.
module MixedUp {
  import opened Codec
  import opened Entries
  import opened FoundMask
  import opened MaskErrors
  import opened FileStore
  import opened SyncModel
  import opened SyncInvariant
  import opened SyncRuns
  import opened SyncTheorems
  import opened SyncReach
  import opened MaskRuns
  import opened Misread
  import opened EarlyExit

  // ----- the first offer, misread -----

  lemma {:induction false} InStepLength(found: seq<bool>, n: nat)
    requires InStep(found) && n <= |found|
    ensures n <= 2 * MissingBefore(found, n) + if n > 0 && found[n - 1] then 1 else 0
  {
    if n > 0 {
      InStepLength(found, n - 1);
    }
  }

  /** What is found in step is found among the first fifteen. */
  lemma FoundInStep(found: seq<bool>, j: nat)
    requires InStep(found) && j < |found| && found[j]
    ensures j <= 14
  {
    InStepLength(found, j);
  }

  lemma FirstOnesMisread(found: seq<bool>, n: nat)
    requires InStep(found) && !AtMostOneEarly(found) && n <= |found| && (n == |found| || n >= 15)
    ensures !AtMostOneEarly(found[..n])
  {
    forall j: nat | j < |found| && found[j]
      ensures j < n && found[..n][j]
    {
      FoundInStep(found, j);
    }
    hide InStep;
  }

  lemma FirstOfferMisread(a: Env, b: Env)
    requires CanTell(InNumber, a, b) && !EarlyOnly(a, b)
    ensures var found := Flags(HashesOf(FirstOffer(Images(a))), HashSet(Images(b)));
            Images(a) != [] && Tells(InNumber, found) && !Tells(AsMeant, found)
  {
    hide HashSet, Images, InStep, AtMostOneEarly;
    var es, offer, have := Images(a), FirstOffer(Images(a)), HashSet(Images(b));
    PartTells(InNumber, es, offer, have);
    FirstOnesMisread(Flags(HashesOf(es), have), |offer|);
    assert Flags(HashesOf(es), have)[..|offer|] == Flags(HashesOf(offer), have);
    if es == [] {
      NoneFoundTells(AsMeant, Flags(HashesOf(es), have));
    }
  }

  lemma ReachedAwaits(cfg: Config, a: Env, b: Env, t: Sys)
    requires ValidEnv(a) && ValidEnv(b) && Reaches(InNumber, cfg, StartSys(a, b), t)
    ensures BothAwait(t)
  {
    hide Inv, IsRun, End, Agreeing, BothAwait;
    var s := StartSys(a, b);
    var run :| IsRun(cfg, s, run) && Agreeing(InNumber, cfg, s, run) && End(cfg, s, run) == t;
    InitKeeps(InNumber, cfg, a, b);
    StartAwaits(a, b);
    RunAwaits(cfg, s, run);
  }

  lemma ReachesSpoilt(cfg: Config, s: Sys, t: Sys)
    requires Inv(InNumber, cfg, s) && BothAwait(s) && Spoilt(cfg, s) && Reaches(InNumber, cfg, s, t)
    ensures Spoilt(cfg, t)
  {
    hide Inv, IsRun, End, Agreeing, Awaits, Spoilt, Prolongs;
    var run :| IsRun(cfg, s, run) && Agreeing(InNumber, cfg, s, run) && End(cfg, s, run) == t;
    RunAwaits(cfg, s, run);
    StaysSpoilt(cfg, s, t);
  }

  /** The answer to the first offer is misread, and all that peer a has was reported to peer b. */
  lemma SpoiltFirst(cfg: Config, a: Env, b: Env) returns (t: Sys)
    requires ValidEnv(a) && ValidEnv(b) && cfg.mask.Written? && CanTell(InNumber, a, b) && !EarlyOnly(a, b)
    ensures Reaches(InNumber, cfg, StartSys(a, b), t) && Spoilt(cfg, t)
    ensures forall e :: e in Images(a) ==> e.hash in t.b.up.received
  {
    hide Reaches, Told, HashesOf, Flags, HashSet, Images, Tells, Fits, Enabled, Step, Spoilt, OfferAgrees;
    hide Awaits, Inv, CanTell, FirstOffer;
    var start, hs, found := StartSys(a, b), HashesOf(FirstOffer(Images(a))),
                            Flags(HashesOf(FirstOffer(Images(a))), HashSet(Images(b)));
    FirstOfferMisread(a, b);
    TellsExactly(InNumber, found);
    TellsExactly(AsMeant, found);
    var s, known := FirstOfferArrives(InNumber, cfg, a, b);
    ToldStages(StartPeer(b));
    CanDecide(InNumber, cfg, s, hs);
    CanDecide(AsMeant, cfg, s, hs);
    ReachedInv(InNumber, cfg, a, b, s);
    ReachedAwaits(cfg, a, b, s);
    SwapKeeps(InNumber, cfg, s);
    MisreadSpoils(cfg, Swap(s));
    OnB(InNumber, cfg, start, s, Decide);
    t := Swap(Step(cfg, Swap(s), Decide));
    DecideUp(cfg, Swap(s));
  }

  lemma DecideUp(cfg: Config, s: Sys)
    requires Enabled(cfg, s, Decide)
    ensures Step(cfg, s, Decide).a.up == s.a.up
  {
    hide MissingHashes, Encode, Flags, HashSet, Offered;
  }

  /** With the written mask, and as many entries taken as are awaited, but not those: there is a run in which both
      peers finish in order although an image of peer a has neither reached peer b nor been refused there. Another
      one was taken for it. The lists may be of any length, and peer b may have any images of its own. */
  lemma ImageMixedUp(cfg: Config, a: Env, b: Env) returns (end: Sys, h: ExifHash)
    requires ValidEnv(a) && ValidEnv(b) && cfg.mask.Written? && TellApart(a)
    requires CanTell(InNumber, a, b) && !EarlyOnly(a, b)
    ensures Reaches(InNumber, cfg, StartSys(a, b), end) && Final(end)
    ensures h in HashSet(Images(a)) && h !in HashSet(Images(b))
    ensures !Has(end.b, a, h) && !Refused(end.b, a, h)
  {
    hide Reaches, Has, Refused, Images, HashSet, TellApart, Inv, CanTell, Spoilt, Awaits, Final;
    var t := SpoiltFirst(cfg, a, b);
    AllHeard(a, b, t.b.up.received);
    ReachedInv(InNumber, cfg, a, b, t);
    ReachedAwaits(cfg, a, b, t);
    end := Finishes(InNumber, cfg, a, b, t);
    ReachesSpoilt(cfg, t, end);
    ReachedInv(InNumber, cfg, a, b, end);
    ReachedAwaits(cfg, a, b, end);
    h := SpoiltLost(cfg, end);
  }

  // ----- exactly when there is none -----

  lemma MixedUpFails(cfg: Config, a: Env, b: Env)
    requires ValidEnv(a) && ValidEnv(b) && cfg.mask.Written? && TellApart(a)
    requires CanTell(InNumber, a, b) && !EarlyOnly(a, b)
    ensures !Delivers(cfg, a, b)
  {
    hide Reaches, Has, Refused, HashSet, Images, CanTell, TellApart;
    var end, h := ImageMixedUp(cfg, a, b);
    ReachesAnyhow(InNumber, cfg, StartSys(a, b), end);
    ReachedEnvs(cfg, a, b, end);
    assert !Reached(end);
  }

  lemma SafeDelivers(cfg: Config, a: Env, b: Env)
    requires ValidEnv(a) && ValidEnv(b) && cfg.exit.RereadExit? && MaskSuffices(AsMeant, cfg, a, b)
    ensures Delivers(cfg, a, b)
  {
    forall t | Reaches(Anyhow, cfg, StartSys(a, b), t) && Final(t)
      ensures Reached(t)
    {
      hide Reaches, Inv, MaskSuffices, Has, Refused;
      ReachesSafely(AsMeant, cfg, a, b, t);
      ReachedInv(AsMeant, cfg, a, b, t);
      UnionAtEnd(cfg, t);
    }
  }

  /** With the exit that reads the count once more, all complete runs bring the images of both to both: for all inputs
      with one bit for each entry, and with the written mask where it suffices. */
  lemma SafeConverges(cfg: Config, a: Env, b: Env)
    requires ValidEnv(a) && ValidEnv(b) && cfg.exit.RereadExit? && MaskSuffices(AsMeant, cfg, a, b)
    ensures Converges(cfg, a, b)
  {
    assert MaskSuffices(AsMeant, cfg, b, a);
    hide MaskSuffices, Converges, Delivers;
    ConvergesBothWays(cfg, a, b);
    SafeDelivers(cfg, a, b);
    SafeDelivers(cfg, b, a);
  }

  /** With the written mask, the exit that reads the count once more, images that differ on the wire, and as many
      entries taken as are awaited: all complete runs bring the images of both to both if and only if the peers have
      at most one in common, among the first eight of either. The lists may be of any length. */
  lemma ConvergenceExactly(cfg: Config, a: Env, b: Env)
    requires ValidEnv(a) && ValidEnv(b) && cfg.mask.Written? && cfg.exit.RereadExit?
    requires TellApart(a) && TellApart(b) && CanTell(InNumber, a, b) && CanTell(InNumber, b, a)
    ensures Converges(cfg, a, b) <==> EarlyOnly(a, b) && EarlyOnly(b, a)
  {
    hide HashSet, Images, CanTell, TellApart, Converges, Delivers;
    ConvergesBothWays(cfg, a, b);
    if !EarlyOnly(a, b) {
      MixedUpFails(cfg, a, b);
    } else if !EarlyOnly(b, a) {
      MixedUpFails(cfg, b, a);
    } else {
      SafeConverges(cfg, a, b);
    }
  }

  // ----- three images, of which peer b has the first and the last -----

  const HASH0 := ExifHash(0, 0, 0, 0, 0)
  const HASH1 := ExifHash(1, 0, 0, 0, 0)
  const HASH2 := ExifHash(2, 0, 0, 0, 0)
  const IMAGES := [Entry(HASH0, [97]), Entry(HASH1, [98]), Entry(HASH2, [99])]
  const FILES: Files := map[[97] := [1], [98] := [2], [99] := [3]]

  const THREE := Env(SourcesOf(IMAGES), FILES, {}, [100])
  const TWO := Env(SourcesOf([IMAGES[0], IMAGES[2]]), FILES, {}, [100])

  lemma ListsOfImages()
    ensures Images(THREE) == IMAGES && Images(TWO) == [IMAGES[0], IMAGES[2]]
    ensures HashSet(IMAGES) == {HASH0, HASH1, HASH2} && HashSet([IMAGES[0], IMAGES[2]]) == {HASH0, HASH2}
  {
    var e0, e1, e2 := IMAGES[0], IMAGES[1], IMAGES[2];
    ListedAll(IMAGES, 0);
    ListedAll([e0, e2], 0);
    assert [e0, e1] + [e2] == IMAGES && [e0] + [e1] == [e0, e1] && [e0] + [e2] == [e0, e2] && [] + [e0] == [e0];
    HashSetSnoc([], e0);
    HashSetSnoc([e0], e1);
    HashSetSnoc([e0, e1], e2);
    HashSetSnoc([e0], e2);
  }

  lemma ValidImages()
    ensures ValidEnv(THREE) && ValidEnv(TWO)
  {
  }

  lemma ApartImages()
    ensures TellApart(THREE)
  {
    ListsOfImages();
    hide Images, Basename;
    forall e, f, r | e in IMAGES && f in IMAGES && Copies(FILES, e, r) && Copies(FILES, f, r)
      ensures e == f
    {
      assert FILES[e.path] == FILES[f.path];
    }
  }

  lemma FoundImages()
    ensures Flags(HashesOf(IMAGES), {HASH0, HASH2}) == [true, false, true]
    ensures !AtMostOneEarly([true, false, true]) && InStep([true, false, true])
  {
    var found := [true, false, true];
    assert found[0] && found[2];
    assert MissingBefore(found, 1) == 0 && MissingBefore(found, 2) == 1;
  }

  /** After a run with the written mask, the image in the middle has not reached the peer that lacked it. */
  lemma MiddleImageLost(cfg: Config) returns (end: Sys)
    requires cfg.mask.Written?
    ensures ValidEnv(THREE) && ValidEnv(TWO)
    ensures Reaches(InNumber, cfg, StartSys(THREE, TWO), end) && Final(end)
    ensures HASH1 in HashSet(Images(THREE)) && !Has(end.b, THREE, HASH1) && !Refused(end.b, THREE, HASH1)
  {
    ValidImages();
    ListsOfImages();
    ApartImages();
    FoundImages();
    hide Reaches, Has, Refused, HashSet, Images, TellApart, AtMostOneEarly, InStep;
    var h;
    end, h := ImageMixedUp(cfg, THREE, TWO);
  }
}

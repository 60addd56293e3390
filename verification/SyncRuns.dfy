// Runs of two peers: what they keep, how they go on and how they end.
module SyncRuns {
  import opened Codec
  import opened Entries
  import opened FoundMask
  import opened MaskErrors
  import opened Framing
  import opened FileStore
  import opened SyncModel
  import opened SyncInvariant
  import opened SyncProgress
  import opened SyncMeasure

  // ----- runs -----

  /** Every answer that is given in the run will be read as is asked. */
  ghost predicate Agreeing(how: Answers, cfg: Config, s: Sys, run: seq<Move>)
    requires IsRun(cfg, s, run)
    decreases |run|
  {
    run != [] ==>
    && (run[0].act.Decide? ==> OfferAgrees(how, cfg, View(s, run[0].side)))
    && Agreeing(how, cfg, Next(cfg, s, run[0]), run[1..])
  }

  lemma MoveKeeps(how: Answers, cfg: Config, s: Sys, m: Move)
    requires !how.Anyhow? && Inv(how, cfg, s) && CanMove(cfg, s, m)
    requires m.act.Decide? ==> OfferAgrees(how, cfg, View(s, m.side))
    ensures Inv(how, cfg, Next(cfg, s, m))
  {
    hide Inv;
    SwapKeeps(how, cfg, s);
    StepKeeps(how, cfg, View(s, m.side), m.act);
    SwapKeeps(how, cfg, Step(cfg, View(s, m.side), m.act));
  }

  /** The invariant holds in every state of every run in which the answers are read as is asked. */
  lemma {:induction false} RunKeeps(how: Answers, cfg: Config, s: Sys, run: seq<Move>)
    requires !how.Anyhow? && Inv(how, cfg, s) && IsRun(cfg, s, run) && Agreeing(how, cfg, s, run)
    ensures Inv(how, cfg, End(cfg, s, run))
    decreases |run|
  {
    hide Inv;
    if run != [] {
      MoveKeeps(how, cfg, s, run[0]);
      RunKeeps(how, cfg, Next(cfg, s, run[0]), run[1..]);
    }
  }

  /** So it holds in every state that two peers can reach from valid inputs. */
  lemma Reachable(how: Answers, cfg: Config, a: Env, b: Env, run: seq<Move>)
    requires !how.Anyhow? && ValidEnv(a) && ValidEnv(b)
    requires IsRun(cfg, StartSys(a, b), run) && Agreeing(how, cfg, StartSys(a, b), run)
    ensures Inv(how, cfg, End(cfg, StartSys(a, b), run))
  {
    hide Inv;
    InitKeeps(how, cfg, a, b);
    RunKeeps(how, cfg, StartSys(a, b), run);
  }

  lemma StepEnv(cfg: Config, s: Sys, act: Action)
    requires Enabled(cfg, s, act)
    ensures Step(cfg, s, act).a.env == s.a.env && Step(cfg, s, act).b == s.b
  {
    hide MissingHashes, Save, Walk, AfterWalk, BatchPacket, Select, HashSet, ParseRecord, Encode, PacketSet;
  }

  lemma MoveEnv(cfg: Config, s: Sys, m: Move)
    requires CanMove(cfg, s, m)
    ensures Next(cfg, s, m).a.env == s.a.env && Next(cfg, s, m).b.env == s.b.env
  {
    StepEnv(cfg, View(s, m.side), m.act);
    hide Step, Enabled;
  }

  lemma {:induction false} EnvKept(cfg: Config, s: Sys, run: seq<Move>)
    requires IsRun(cfg, s, run)
    ensures End(cfg, s, run).a.env == s.a.env && End(cfg, s, run).b.env == s.b.env
    decreases |run|
  {
    hide CanMove, Next;
    if run != [] {
      MoveEnv(cfg, s, run[0]);
      EnvKept(cfg, Next(cfg, s, run[0]), run[1..]);
    }
  }

  // ----- an uploader that has left -----

  lemma StepGone(cfg: Config, s: Sys, act: Action)
    requires Enabled(cfg, s, act) && s.a.up.stage.UDone?
    ensures Step(cfg, s, act).a.up.stage.UDone? && Step(cfg, s, act).a.up.processed == s.a.up.processed
  {
    hide MissingHashes, Save, BatchPacket, Select, HashSet, ParseRecord, Encode, PacketSet;
  }

  lemma MoveGone(cfg: Config, s: Sys, m: Move)
    requires CanMove(cfg, s, m) && s.a.up.stage.UDone?
    ensures Next(cfg, s, m).a.up.stage.UDone? && Next(cfg, s, m).a.up.processed == s.a.up.processed
  {
    if m.side.A? {
      StepGone(cfg, s, m.act);
    } else {
      StepEnv(cfg, Swap(s), m.act);
    }
    hide Step, Enabled;
  }

  lemma {:induction false} RunGone(cfg: Config, s: Sys, run: seq<Move>)
    requires IsRun(cfg, s, run) && s.a.up.stage.UDone?
    ensures End(cfg, s, run).a.up.processed == s.a.up.processed
    decreases |run|
  {
    hide CanMove, Next;
    if run != [] {
      MoveGone(cfg, s, run[0]);
      RunGone(cfg, Next(cfg, s, run[0]), run[1..]);
    }
  }

  // ----- when answers are read as is asked -----

  /** What peer b has of peer a's images is such that written answers to offers of all of them are read as is asked. */
  ghost predicate CanTell(how: Answers, a: Env, b: Env) {
    Tells(how, Flags(HashesOf(Images(a)), HashSet(Images(b))))
  }

  /** The peers have at most one image in common, and it is among the first eight of `a`. */
  ghost predicate EarlyOnly(a: Env, b: Env) {
    CanTell(AsMeant, a, b)
  }

  /** The mask has one bit for each offered hash, or what the peers have in common does not need it. */
  ghost predicate MaskSuffices(how: Answers, cfg: Config, a: Env, b: Env) {
    cfg.mask.OneBitPerEntry? || (CanTell(how, a, b) && CanTell(how, b, a))
  }

  /** Peer b's answers to peer a will be read as is asked: the mask suffices, or everything that the peers have in
      common was reported to peer a, or there will be no more offers. */
  ghost predicate Settled(how: Answers, cfg: Config, s: Sys) {
    || cfg.mask.OneBitPerEntry? || CanTell(how, s.a.env, s.b.env)
    || HashSet(Images(s.a.env)) * HashSet(Images(s.b.env)) <= s.a.up.received
    || s.a.up.stage.UDone?
  }

  ghost predicate BothSettled(how: Answers, cfg: Config, s: Sys) {
    Settled(how, cfg, s) && Settled(how, cfg, Swap(s))
  }

  lemma HashedAll(cfg: Config, p: Peer)
    requires PeerInv(cfg, p) && !Updating(p.down.stage)
    ensures p.queue.done && p.queue.todo == [] && p.queue.entries == Images(p.env) && p.published == |p.queue.entries|
  {
  }

  lemma PartTells(how: Answers, whole: seq<Entry>, es: seq<Entry>, have: set<ExifHash>)
    requires es <= whole && Tells(how, Flags(HashesOf(whole), have))
    ensures Tells(how, Flags(HashesOf(es), have))
  {
    TellsPrefix(how, Flags(HashesOf(whole), have), |es|);
    assert Flags(HashesOf(whole), have)[..|es|] == Flags(HashesOf(es), have);
  }

  lemma RestTells(how: Answers, es: seq<Entry>, k: nat, have: set<ExifHash>)
    requires k <= |es| && Tells(how, Flags(HashesOf(es), have))
    ensures Tells(how, Flags(HashesOf(es[k..]), have))
  {
    TellsSuffix(how, Flags(HashesOf(es), have), k);
    assert Flags(HashesOf(es), have)[k..] == Flags(HashesOf(es[k..]), have);
  }

  /** If an answer about all images would be read as is asked, so is the answer to an offer. */
  lemma OfferTells(how: Answers, cfg: Config, p: Peer, have: set<ExifHash>)
    requires PeerInv(cfg, p) && p.up.stage.UAck? && p.up.received <= have
    requires Tells(how, Flags(HashesOf(Images(p.env)), have))
    ensures Tells(how, Flags(HashesOf(p.up.stage.offer), have))
  {
    var passed := p.queue.entries[..p.up.processed];
    assert passed <= p.queue.entries <= Images(p.env);
    var k := |p.up.offered| - |p.up.stage.offer|;
    assert p.up.offered == NotIn(passed, p.up.received) && p.up.offered[k..] == p.up.stage.offer;
    hide PeerInv, Tells, NotIn;
    PartTells(how, Images(p.env), passed, have);
    TellsLess(how, passed, p.up.received, have);
    RestTells(how, p.up.offered, k, have);
  }

  lemma NoneFoundTells(how: Answers, found: seq<bool>)
    requires forall i :: 0 <= i < |found| ==> !found[i]
    ensures Tells(how, found)
  {
  }

  /** Entries that were reported are not offered. */
  lemma ReportedTells(how: Answers, cfg: Config, p: Peer, have: set<ExifHash>)
    requires PeerInv(cfg, p) && p.up.stage.UAck? && HashSet(Images(p.env)) * have <= p.up.received
    ensures Tells(how, Flags(HashesOf(p.up.stage.offer), have))
  {
    var offer := p.up.stage.offer;
    forall i | 0 <= i < |offer|
      ensures offer[i].hash !in have
    {
      var e := offer[i];
      assert e in p.up.offered;
      InNotIn(p.queue.entries[..p.up.processed], p.up.received, e);
      assert p.queue.entries <= Images(p.env) && e in p.queue.entries && e in Images(p.env);
      InHashSet(Images(p.env), e.hash);
    }
    NoneFoundTells(how, Flags(HashesOf(offer), have));
  }

  lemma OfferSettled(how: Answers, cfg: Config, s: Sys)
    requires Half(how, cfg, s) && PeerInv(cfg, s.b) && s.b.down.stage.DOffer? && s.a.up.stage.UAck?
    requires Settled(how, cfg, s)
    ensures Fits(how, cfg.mask, Flags(HashesOf(s.a.up.stage.offer), HashSet(s.b.queue.entries)))
  {
    HashedAll(cfg, s.b);
    var found := Flags(HashesOf(s.a.up.stage.offer), HashSet(s.b.queue.entries));
    hide LinkInv, CoverInv, GotInv, PeerInv, Tells, Fits, HashSet, Images, Flags;
    if cfg.mask.OneBitPerEntry? {
      OneBitFits(how, found);
    } else {
      if CanTell(how, s.a.env, s.b.env) {
        OfferTells(how, cfg, s.a, HashSet(s.b.queue.entries));
      } else {
        ReportedTells(how, cfg, s.a, HashSet(s.b.queue.entries));
      }
      TellsExactly(how, found);
    }
  }

  lemma DecisionAgrees(how: Answers, cfg: Config, s: Sys)
    requires Inv(how, cfg, s) && s.b.down.stage.DOffer? && Settled(how, cfg, s)
    ensures OfferAgrees(how, cfg, Swap(s))
  {
    if s.ab.fwd.inb != [] && OfferNeed(s.ab.fwd.inb) == 0 {
      OfferArrived(how, cfg, s);
      InvPeers(how, cfg, s);
      hide LinkInv, CoverInv, GotInv, PeerInv, Fits, Settled;
      OfferSettled(how, cfg, s);
    }
  }

  lemma DecisionStage(cfg: Config, s: Sys, m: Move)
    requires CanMove(cfg, s, m) && m.act.Decide?
    ensures View(s, m.side).a.down.stage.DOffer?
  {
  }

  lemma MoveAgrees(how: Answers, cfg: Config, s: Sys, m: Move)
    requires Inv(how, cfg, s) && CanMove(cfg, s, m) && BothSettled(how, cfg, s)
    ensures m.act.Decide? ==> OfferAgrees(how, cfg, View(s, m.side))
  {
    if m.act.Decide? {
      DecisionStage(cfg, s, m);
      hide Inv, CanMove, Settled, OfferAgrees;
      SwapKeeps(how, cfg, s);
      if m.side.A? {
        DecisionAgrees(how, cfg, Swap(s));
      } else {
        DecisionAgrees(how, cfg, s);
      }
    }
  }

  lemma StepSettled(cfg: Config, s: Sys, act: Action)
    requires Enabled(cfg, s, act)
    ensures s.a.up.received <= Step(cfg, s, act).a.up.received
    ensures s.a.up.stage.UDone? ==> Step(cfg, s, act).a.up.stage.UDone?
  {
    hide MissingHashes, Save, Walk, AfterCheck, BatchPacket, Select, HashSet, ParseRecord, Encode, PacketSet;
  }

  lemma MoveSettled(how: Answers, cfg: Config, s: Sys, m: Move)
    requires CanMove(cfg, s, m) && BothSettled(how, cfg, s)
    ensures BothSettled(how, cfg, Next(cfg, s, m))
  {
    var v := View(s, m.side);
    StepEnv(cfg, v, m.act);
    StepSettled(cfg, v, m.act);
    hide Enabled, Step, CanTell, HashSet, Images;
    assert Settled(how, cfg, v) && Settled(how, cfg, Swap(v));
    var t := Step(cfg, v, m.act);
    assert Settled(how, cfg, t) && Settled(how, cfg, Swap(t));
  }

  /** Where both peers' answers will be read as is asked, they are in every run. */
  lemma {:induction false} SafeRunsAgree(how: Answers, cfg: Config, s: Sys, run: seq<Move>)
    requires !how.Anyhow? && Inv(how, cfg, s) && IsRun(cfg, s, run) && BothSettled(how, cfg, s)
    ensures Agreeing(how, cfg, s, run)
    decreases |run|
  {
    hide Inv, CanMove, Next, BothSettled, OfferAgrees;
    if run != [] {
      MoveAgrees(how, cfg, s, run[0]);
      MoveKeeps(how, cfg, s, run[0]);
      MoveSettled(how, cfg, s, run[0]);
      SafeRunsAgree(how, cfg, Next(cfg, s, run[0]), run[1..]);
    }
  }

  /** So they are in every run of two peers for which the mask suffices. */
  lemma SufficientRunsAgree(how: Answers, cfg: Config, a: Env, b: Env, run: seq<Move>)
    requires !how.Anyhow? && ValidEnv(a) && ValidEnv(b) && MaskSuffices(how, cfg, a, b)
    requires IsRun(cfg, StartSys(a, b), run)
    ensures Agreeing(how, cfg, StartSys(a, b), run)
  {
    hide Inv, IsRun, CanTell;
    InitKeeps(how, cfg, a, b);
    SafeRunsAgree(how, cfg, StartSys(a, b), run);
  }

  lemma OneBitAgrees(how: Answers, cfg: Config, s: Sys)
    requires cfg.mask.OneBitPerEntry?
    ensures OfferAgrees(how, cfg, s)
  {
    if s.ba.fwd.inb != [] && OfferNeed(s.ba.fwd.inb) == 0 {
      OneBitFits(how, Flags(Offered(s), HashSet(s.a.queue.entries)));
    }
  }

  /** With one bit for each offered entry, the answers are always read as they were meant. */
  lemma {:induction false} OneBitRunsAgree(how: Answers, cfg: Config, s: Sys, run: seq<Move>)
    requires cfg.mask.OneBitPerEntry? && IsRun(cfg, s, run)
    ensures Agreeing(how, cfg, s, run)
    decreases |run|
  {
    hide CanMove, Next, OfferAgrees;
    if run != [] {
      OneBitAgrees(how, cfg, View(s, run[0].side));
      OneBitRunsAgree(how, cfg, Next(cfg, s, run[0]), run[1..]);
    }
  }

  /** With the written mask, answers are read as they were meant if the peers have at most one image in common,
      early in both lists. */
  lemma EarlyRunsAgree(cfg: Config, a: Env, b: Env, run: seq<Move>)
    requires ValidEnv(a) && ValidEnv(b) && EarlyOnly(a, b) && EarlyOnly(b, a) && IsRun(cfg, StartSys(a, b), run)
    ensures Agreeing(AsMeant, cfg, StartSys(a, b), run)
  {
    hide IsRun, CanTell;
    SufficientRunsAgree(AsMeant, cfg, a, b, run);
  }

  /** So they are between two peers that have no image in common. */
  lemma DisjointRunsAgree(cfg: Config, a: Env, b: Env, run: seq<Move>)
    requires ValidEnv(a) && ValidEnv(b) && HashSet(Images(a)) !! HashSet(Images(b)) && IsRun(cfg, StartSys(a, b), run)
    ensures Agreeing(AsMeant, cfg, StartSys(a, b), run)
  {
    hide IsRun;
    NoneCommon(Images(a), HashSet(Images(b)));
    NoneCommon(Images(b), HashSet(Images(a)));
    EarlyRunsAgree(cfg, a, b, run);
  }

  lemma NoneCommon(es: seq<Entry>, have: set<ExifHash>)
    requires HashSet(es) !! have
    ensures AtMostOneEarly(Flags(HashesOf(es), have))
  {
    forall i | 0 <= i < |es|
      ensures es[i].hash !in have
    {
      InHashSet(es, es[i].hash);
    }
  }

  // ----- termination -----

  ghost function ThreadSteps(run: seq<Move>): nat {
    if run == [] then 0 else (if IsEnvironment(run[0].act) then 0 else 1) + ThreadSteps(run[1..])
  }

  ghost function SpuriousWakeups(run: seq<Move>): nat {
    if run == [] then 0 else (if run[0].act.Spurious? then 1 else 0) + SpuriousWakeups(run[1..])
  }

  lemma MovePeers(cfg: Config, s: Sys, m: Move)
    requires Peers(cfg, s) && CanMove(cfg, s, m)
    ensures Peers(cfg, Next(cfg, s, m))
  {
    var v := View(s, m.side);
    StepPeer(cfg, v, m.act);
    StepEnv(cfg, v, m.act);
    hide PeerInv, Step, Enabled;
  }

  lemma SwapWeight(s: Sys)
    requires Weighed(s)
    ensures Weighed(Swap(s)) && Weight(Swap(s)) == Weight(s)
  {
    hide PeerWeight, LinkWeight;
  }

  lemma MoveWeight(cfg: Config, s: Sys, m: Move)
    requires Peers(cfg, s) && CanMove(cfg, s, m)
    ensures Peers(cfg, Next(cfg, s, m)) && Weighed(s) && Weighed(Next(cfg, s, m))
    ensures Lighter(m.act, Weight(s), Weight(Next(cfg, s, m)))
  {
    hide PeerInv, Weight, Weighed, Enabled, Step;
    var v, t := View(s, m.side), Step(cfg, View(s, m.side), m.act);
    MovePeers(cfg, s, m);
    WeightPositive(cfg, s);
    WeightPositive(cfg, Next(cfg, s, m));
    SwapWeight(s);
    SwapWeight(Next(cfg, s, m));
    assert Swap(Swap(t)) == t;
    StepWeight(cfg, v, m.act);
  }

  /** The threads of two peers make no more steps than there is work at the start, and two more for each time
      that a condition variable wakes up by itself; whatever datagrams are lost, repeated or late, and whether
      answers are read as they were meant or not. */
  lemma {:induction false} Termination(cfg: Config, s: Sys, run: seq<Move>)
    requires Peers(cfg, s) && IsRun(cfg, s, run)
    ensures Peers(cfg, End(cfg, s, run)) && Weighed(s) && Weighed(End(cfg, s, run))
    ensures 0 <= Weight(End(cfg, s, run)) + ThreadSteps(run) <= Weight(s) + 2 * SpuriousWakeups(run)
    decreases |run|
  {
    hide Peers, Weight, Weighed, CanMove, Next;
    WeightPositive(cfg, s);
    if run != [] {
      MoveWeight(cfg, s, run[0]);
      Termination(cfg, Next(cfg, s, run[0]), run[1..]);
    }
  }

  /** So every run of two peers is bounded by the work that their inputs make. */
  lemma RunsEnd(cfg: Config, a: Env, b: Env, run: seq<Move>)
    requires ValidEnv(a) && ValidEnv(b) && IsRun(cfg, StartSys(a, b), run)
    ensures Weighed(StartSys(a, b)) && ThreadSteps(run) <= Weight(StartSys(a, b)) + 2 * SpuriousWakeups(run)
  {
    hide Inv, Peers, Weight, Weighed, IsRun, End;
    var s := StartSys(a, b);
    InitKeeps(InNumber, cfg, a, b);
    InvPeers(InNumber, cfg, s);
    Termination(cfg, s, run);
    WeightPositive(cfg, End(cfg, s, run));
  }

  // ----- progress -----

  /** While the uploader takes as many entries from each answer as are awaited, a run that has not come to its end
      can go on, so a run that cannot go on is complete. */
  lemma DeadlockFreedom(how: Answers, cfg: Config, a: Env, b: Env, run: seq<Move>)
    requires !how.Anyhow? && ValidEnv(a) && ValidEnv(b)
    requires IsRun(cfg, StartSys(a, b), run) && Agreeing(how, cfg, StartSys(a, b), run)
    ensures Final(End(cfg, StartSys(a, b), run))
         || exists m :: CanMove(cfg, End(cfg, StartSys(a, b), run), m) && !IsEnvironment(m.act)
  {
    hide Inv;
    Reachable(how, cfg, a, b, run);
    var end := End(cfg, StartSys(a, b), run);
    if !Final(end) {
      var m := NeverStuck(how, cfg, end);
    }
  }

  lemma GoOn(how: Answers, cfg: Config, s: Sys) returns (m: Move)
    requires !how.Anyhow? && Inv(how, cfg, s) && !Final(s) && BothSettled(how, cfg, s)
    ensures CanMove(cfg, s, m) && Inv(how, cfg, Next(cfg, s, m)) && BothSettled(how, cfg, Next(cfg, s, m))
    ensures m.act.Decide? ==> OfferAgrees(how, cfg, View(s, m.side))
    ensures Weighed(s) && Weighed(Next(cfg, s, m)) && 0 <= Weight(Next(cfg, s, m)) < Weight(s)
  {
    m := NeverStuck(how, cfg, s);
    hide Inv, Weight, Weighed, Peers, CanMove, Next, BothSettled, OfferAgrees;
    MoveAgrees(how, cfg, s, m);
    MoveKeeps(how, cfg, s, m);
    MoveSettled(how, cfg, s, m);
    InvPeers(how, cfg, s);
    MoveWeight(cfg, s, m);
    WeightPositive(cfg, Next(cfg, s, m));
  }

  /** From every state in which both peers' answers will be read as is asked, the threads alone bring both peers to
      their end. */
  lemma {:induction false} Completion(how: Answers, cfg: Config, s: Sys) returns (run: seq<Move>)
    requires !how.Anyhow? && Inv(how, cfg, s) && BothSettled(how, cfg, s)
    ensures IsRun(cfg, s, run) && Agreeing(how, cfg, s, run) && Final(End(cfg, s, run))
    decreases Remaining(how, cfg, s)
  {
    hide Inv, Weight, Weighed, Peers, CanMove, Next, BothSettled, OfferAgrees;
    if Final(s) {
      run := [];
    } else {
      var m := GoOn(how, cfg, s);
      var rest := Completion(how, cfg, Next(cfg, s, m));
      run := [m] + rest;
      assert run[1..] == rest;
    }
  }

  ghost function Remaining(how: Answers, cfg: Config, s: Sys): nat
    requires Inv(how, cfg, s)
  {
    InvPeers(how, cfg, s);
    WeightPositive(cfg, s);
    Weight(s)
  }
}

// States that two peers can reach, put together from the moves of one peer after the other.
module SyncReach {
  import opened Codec
  import opened Entries
  import opened Hasher
  import opened FoundMask
  import opened SyncModel
  import opened SyncInvariant
  import opened SyncMeasure
  import opened SyncRuns

  /** By a run whose answers are read as is asked. */
  ghost predicate Reaches(how: Answers, cfg: Config, s: Sys, t: Sys) {
    exists run :: IsRun(cfg, s, run) && Agreeing(how, cfg, s, run) && End(cfg, s, run) == t
  }

  lemma {:induction false} RunsJoin(how: Answers, cfg: Config, s: Sys, first: seq<Move>, second: seq<Move>)
    requires IsRun(cfg, s, first) && IsRun(cfg, End(cfg, s, first), second)
    requires Agreeing(how, cfg, s, first) && Agreeing(how, cfg, End(cfg, s, first), second)
    ensures IsRun(cfg, s, first + second) && Agreeing(how, cfg, s, first + second)
    ensures End(cfg, s, first + second) == End(cfg, End(cfg, s, first), second)
    decreases |first|
  {
    hide CanMove, Next;
    if first == [] {
      assert first + second == second;
    } else {
      assert (first + second)[1..] == first[1..] + second;
      RunsJoin(how, cfg, Next(cfg, s, first[0]), first[1..], second);
    }
  }

  lemma Onward(how: Answers, cfg: Config, s: Sys, t: Sys, u: Sys)
    requires Reaches(how, cfg, s, t) && Reaches(how, cfg, t, u)
    ensures Reaches(how, cfg, s, u)
  {
    hide IsRun, End, Agreeing;
    var first :| IsRun(cfg, s, first) && Agreeing(how, cfg, s, first) && End(cfg, s, first) == t;
    var second :| IsRun(cfg, t, second) && Agreeing(how, cfg, t, second) && End(cfg, t, second) == u;
    RunsJoin(how, cfg, s, first, second);
  }

  lemma Stays(how: Answers, cfg: Config, s: Sys)
    ensures Reaches(how, cfg, s, s)
  {
    hide CanMove, Next;
    assert IsRun(cfg, s, []) && Agreeing(how, cfg, s, []) && End(cfg, s, []) == s;
  }

  lemma Moves(how: Answers, cfg: Config, s: Sys, m: Move)
    requires CanMove(cfg, s, m) && (m.act.Decide? ==> OfferAgrees(how, cfg, View(s, m.side)))
    ensures Reaches(how, cfg, s, Next(cfg, s, m))
  {
    hide CanMove, Next, OfferAgrees;
    assert [m][1..] == [];
    assert IsRun(cfg, s, [m]) && Agreeing(how, cfg, s, [m]) && End(cfg, s, [m]) == Next(cfg, s, m);
  }

  lemma MovesOn(how: Answers, cfg: Config, s: Sys, t: Sys, m: Move)
    requires Reaches(how, cfg, s, t) && CanMove(cfg, t, m)
    requires m.act.Decide? ==> OfferAgrees(how, cfg, View(t, m.side))
    ensures Reaches(how, cfg, s, Next(cfg, t, m))
  {
    hide Reaches, CanMove, Next, OfferAgrees;
    Moves(how, cfg, t, m);
    Onward(how, cfg, s, t, Next(cfg, t, m));
  }

  /** A move of peer a. */
  lemma OnA(how: Answers, cfg: Config, s: Sys, t: Sys, act: Action)
    requires Reaches(how, cfg, s, t) && Enabled(cfg, t, act) && (act.Decide? ==> OfferAgrees(how, cfg, t))
    ensures Reaches(how, cfg, s, Step(cfg, t, act))
  {
    hide Reaches, Enabled, Step, OfferAgrees;
    MovesOn(how, cfg, s, t, Move(A, act));
  }

  /** A move of peer b. */
  lemma OnB(how: Answers, cfg: Config, s: Sys, t: Sys, act: Action)
    requires Reaches(how, cfg, s, t) && Enabled(cfg, Swap(t), act) && (act.Decide? ==> OfferAgrees(how, cfg, Swap(t)))
    ensures Reaches(how, cfg, s, Swap(Step(cfg, Swap(t), act)))
  {
    hide Reaches, Enabled, Step, OfferAgrees;
    MovesOn(how, cfg, s, t, Move(B, act));
  }

  // ----- reachable states -----

  lemma {:induction false} AnyhowAgrees(cfg: Config, s: Sys, run: seq<Move>)
    requires IsRun(cfg, s, run)
    ensures Agreeing(Anyhow, cfg, s, run)
    decreases |run|
  {
    hide CanMove, Next;
    if run != [] {
      AnyhowAgrees(cfg, Next(cfg, s, run[0]), run[1..]);
    }
  }

  lemma ReachesAnyhow(how: Answers, cfg: Config, s: Sys, t: Sys)
    requires Reaches(how, cfg, s, t)
    ensures Reaches(Anyhow, cfg, s, t)
  {
    hide IsRun, End, Agreeing;
    var run :| IsRun(cfg, s, run) && Agreeing(how, cfg, s, run) && End(cfg, s, run) == t;
    AnyhowAgrees(cfg, s, run);
  }

  lemma ReachedInv(how: Answers, cfg: Config, a: Env, b: Env, t: Sys)
    requires !how.Anyhow? && ValidEnv(a) && ValidEnv(b) && Reaches(how, cfg, StartSys(a, b), t)
    ensures Inv(how, cfg, t) && t.a.env == a && t.b.env == b
  {
    hide Inv, IsRun, End, Agreeing;
    var s := StartSys(a, b);
    var run :| IsRun(cfg, s, run) && Agreeing(how, cfg, s, run) && End(cfg, s, run) == t;
    InitKeeps(how, cfg, a, b);
    RunKeeps(how, cfg, s, run);
    EnvKept(cfg, s, run);
  }

  lemma ReachedPeers(cfg: Config, a: Env, b: Env, t: Sys)
    requires ValidEnv(a) && ValidEnv(b) && Reaches(Anyhow, cfg, StartSys(a, b), t)
    ensures Peers(cfg, t) && t.a.env == a && t.b.env == b
  {
    hide Inv, Peers, IsRun, End, Agreeing, Weight, Weighed;
    var s := StartSys(a, b);
    var run :| IsRun(cfg, s, run) && Agreeing(Anyhow, cfg, s, run) && End(cfg, s, run) == t;
    InitKeeps(InNumber, cfg, a, b);
    InvPeers(InNumber, cfg, s);
    Termination(cfg, s, run);
    EnvKept(cfg, s, run);
  }

  /** Where the mask suffices, every reachable state is reached with answers that are read as is asked. */
  lemma ReachesSafely(how: Answers, cfg: Config, a: Env, b: Env, t: Sys)
    requires !how.Anyhow? && ValidEnv(a) && ValidEnv(b) && MaskSuffices(how, cfg, a, b)
    requires Reaches(Anyhow, cfg, StartSys(a, b), t)
    ensures Reaches(how, cfg, StartSys(a, b), t)
  {
    hide MaskSuffices, IsRun, End, Agreeing;
    var s := StartSys(a, b);
    var run :| IsRun(cfg, s, run) && Agreeing(Anyhow, cfg, s, run) && End(cfg, s, run) == t;
    SufficientRunsAgree(how, cfg, a, b, run);
  }

  /** From a reachable state in which both peers' answers will be read as is asked, both peers can finish. */
  lemma Finishes(how: Answers, cfg: Config, a: Env, b: Env, t: Sys) returns (end: Sys)
    requires !how.Anyhow? && ValidEnv(a) && ValidEnv(b)
    requires Reaches(how, cfg, StartSys(a, b), t) && BothSettled(how, cfg, t)
    ensures Reaches(how, cfg, t, end) && Reaches(how, cfg, StartSys(a, b), end) && Final(end)
  {
    hide Inv, IsRun, End, Agreeing, BothSettled;
    ReachedInv(how, cfg, a, b, t);
    var run := Completion(how, cfg, t);
    end := End(cfg, t, run);
    assert Reaches(how, cfg, t, end);
    hide Reaches;
    Onward(how, cfg, StartSys(a, b), t, end);
  }

  // ----- the other way round -----

  function OtherSides(run: seq<Move>): (r: seq<Move>)
    ensures |r| == |run|
  {
    if run == [] then [] else [OtherSide(run[0])] + OtherSides(run[1..])
  }

  lemma {:induction false} OtherRun(how: Answers, cfg: Config, s: Sys, run: seq<Move>)
    requires IsRun(cfg, s, run)
    ensures IsRun(cfg, Swap(s), OtherSides(run))
    ensures Agreeing(how, cfg, s, run) ==> Agreeing(how, cfg, Swap(s), OtherSides(run))
    ensures End(cfg, Swap(s), OtherSides(run)) == Swap(End(cfg, s, run))
    decreases |run|
  {
    hide CanMove, Next, OfferAgrees;
    if run != [] {
      OtherMove(cfg, s, run[0]);
      OtherRun(how, cfg, Next(cfg, s, run[0]), run[1..]);
      assert OtherSides(run)[1..] == OtherSides(run[1..]);
    }
  }

  lemma OtherReaches(how: Answers, cfg: Config, s: Sys, t: Sys)
    requires Reaches(how, cfg, s, t)
    ensures Reaches(how, cfg, Swap(s), Swap(t))
  {
    hide IsRun, End, Agreeing;
    var run :| IsRun(cfg, s, run) && Agreeing(how, cfg, s, run) && End(cfg, s, run) == t;
    OtherRun(how, cfg, s, run);
  }

  // ----- the hasher and the update, without an interruption -----

  lemma {:induction false} HashAll(how: Answers, cfg: Config, s: Sys)
    requires !s.a.queue.done
    ensures Reaches(how, cfg, s, s.(a := s.a.(queue := RunToEnd(HASHER_RULE, s.a.queue))))
    decreases |s.a.queue.todo|, s.a.queue.owed
  {
    hide Reaches, HashNext;
    var q := s.a.queue;
    Stays(how, cfg, s);
    if q.owed {
      OnA(how, cfg, s, s, HashCredit);
      var t := s.(a := s.a.(queue := Credit(HASHER_RULE, q)));
      HashAll(how, cfg, t);
      Onward(how, cfg, s, t, t.(a := t.a.(queue := RunToEnd(HASHER_RULE, t.a.queue))));
    } else if q.todo == [] {
      OnA(how, cfg, s, s, HashFinish);
    } else {
      OnA(how, cfg, s, s, HashPath);
      HashStep(q);
      var t := s.(a := s.a.(queue := HashNext(HASHER_RULE, q)));
      HashAll(how, cfg, t);
      Onward(how, cfg, s, t, t.(a := t.a.(queue := RunToEnd(HASHER_RULE, t.a.queue))));
    }
  }

  lemma HashStep(q: Queue)
    requires CanHash(q)
    ensures var next := HashNext(HASHER_RULE, q);
            !next.done && next.todo == q.todo[1..] && |next.todo| < |q.todo|
  {
  }

  /** The hasher is done, and a number of entries were reported, published and sent; the uploader is awake. */
  ghost predicate Reporting(p: Peer) {
    && p.queue.done && p.queue.todo == [] && !p.queue.owed && p.down.stage == DGet && !p.up.stage.USleep?
    && p.published == p.queue.delivered && p.queue.delivered + p.queue.credits == |p.queue.entries|
  }

  function AfterBatch(p: Peer, n: nat): Peer
    requires n <= p.queue.credits
  {
    p.(queue := p.queue.(credits := p.queue.credits - n, delivered := p.queue.delivered + n),
       published := p.published + n)
  }

  lemma ReportBatch(how: Answers, cfg: Config, s: Sys, n: nat)
    requires Reporting(s.a) && 0 < n == TakeCount(s.a.queue, UPDATE_HASHES)
    ensures var q := s.a.queue;
            var packet := UpdatePacket(HashesOf(q.entries[q.delivered..q.delivered + n]));
            && Reporting(AfterBatch(s.a, n))
            && Reaches(how, cfg, s, s.(a := AfterBatch(s.a, n), toB := s.toB + {packet}))
  {
    hide Reaches, UpdatePacket, HashesOf;
    Stays(how, cfg, s);
    OnA(how, cfg, s, s, TakeBatch);
    var q := Take(s.a.queue, UPDATE_HASHES);
    var t := s.(a := s.a.(queue := q, down := s.a.down.(stage := DPublish(n))));
    OnA(how, cfg, s, t, Publish);
    t := t.(a := t.a.(published := s.a.published + n, down := s.a.down.(stage := DNotify(n))));
    OnA(how, cfg, s, t, Notify);
    t := t.(a := t.a.(down := s.a.down.(stage := DSend(n))));
    OnA(how, cfg, s, t, SendBatch);
    assert s.a.down.(stage := DGet) == s.a.down;
  }

  /** All entries were reported, and hashing is over. */
  function Reported(p: Peer): Peer {
    p.(queue := Queue([], p.queue.entries, false, 0, |p.queue.entries|, true), published := |p.queue.entries|,
       hashing := false, down := p.down.(stage := DAnnounce))
  }

  lemma ReportEnd(how: Answers, cfg: Config, s: Sys)
    requires Reporting(s.a) && s.a.queue.credits == 0
    ensures Reaches(how, cfg, s, s.(a := Reported(s.a)))
  {
    hide Reaches;
    Stays(how, cfg, s);
    OnA(how, cfg, s, s, TakeBatch);
    var t := s.(a := s.a.(down := s.a.down.(stage := DFinish)));
    assert Take(s.a.queue, UPDATE_HASHES) == s.a.queue;
    OnA(how, cfg, s, t, EndHashing);
  }

  /** A peer to which these hashes were reported. */
  function Knowing(p: Peer, known: set<ExifHash>): Peer {
    p.(up := p.up.(received := known))
  }

  lemma OnePacket(packet: seq<byte>, sent: set<seq<byte>>)
    requires |packet| % 20 == 0 && |packet| <= UPDATE_BUFFER && packet in sent
    ensures Buffered([packet], UPDATE_BUFFER) == packet && CanReceive([packet], sent)
  {
    var none: seq<seq<byte>> := [];
    assert [packet][1..] == none && Buffered(none, UPDATE_BUFFER - |packet|) == [];
    assert packet[..|packet|] + [] == packet;
  }

  lemma PacketArrives(how: Answers, cfg: Config, s: Sys, packet: seq<byte>)
    requires packet in s.toB && !s.b.up.updated && |packet| % 20 == 0 && |packet| <= UPDATE_BUFFER
    ensures Reaches(how, cfg, s, s.(b := Knowing(s.b, s.b.up.received + PacketSet(packet))))
  {
    OnePacket(packet, s.toB);
    hide Reaches, PacketSet, Buffered, CanReceive;
    Stays(how, cfg, s);
    OnB(how, cfg, s, s, Receive([packet]));
  }

  lemma BatchSize(batch: seq<Entry>)
    requires |batch| <= UPDATE_HASHES
    ensures |UpdatePacket(HashesOf(batch))| % 20 == 0 && |UpdatePacket(HashesOf(batch))| <= UPDATE_BUFFER
  {
  }

  /** A batch is reported, and the datagram arrives. */
  lemma HearBatch(how: Answers, cfg: Config, s: Sys, n: nat) returns (packets: set<seq<byte>>, known: set<ExifHash>)
    requires Reporting(s.a) && 0 < n == TakeCount(s.a.queue, UPDATE_HASHES) && !s.b.up.updated
    ensures Reporting(AfterBatch(s.a, n)) && s.b.up.received <= known
    ensures Reaches(how, cfg, s, s.(a := AfterBatch(s.a, n), b := Knowing(s.b, known), toB := packets))
    ensures var q := s.a.queue;
            forall e :: e in q.entries[q.delivered..q.delivered + n] ==> e.hash in known
  {
    var q := s.a.queue;
    var batch := q.entries[q.delivered..q.delivered + n];
    var packet := UpdatePacket(HashesOf(batch));
    BatchSize(batch);
    hide Reaches, UpdatePacket, PacketSet;
    ReportBatch(how, cfg, s, n);
    packets := s.toB + {packet};
    var t := s.(a := AfterBatch(s.a, n), toB := packets);
    PacketArrives(how, cfg, t, packet);
    known := s.b.up.received + PacketSet(packet);
    Onward(how, cfg, s, t, t.(b := Knowing(s.b, known)));
    forall i | 0 <= i < |batch|
      ensures batch[i].hash in known
    {
      assert HashesOf(batch)[i] == batch[i].hash;
      PacketSetRoundTrip(HashesOf(batch), batch[i].hash);
    }
  }

  lemma HeardParts(es: seq<Entry>, i: nat, j: nat, known: set<ExifHash>)
    requires i <= j <= |es|
    requires forall e :: e in es[i..j] ==> e.hash in known
    requires forall e :: e in es[j..] ==> e.hash in known
    ensures forall e :: e in es[i..] ==> e.hash in known
  {
    assert es[i..] == es[i..j] + es[j..];
  }

  /** A peer whose uploader does not sleep can report everything, and the other peer hears all of it or nothing. */
  lemma {:induction false} ReportAll(how: Answers, cfg: Config, s: Sys, heard: bool)
    returns (packets: set<seq<byte>>, known: set<ExifHash>)
    requires Reporting(s.a) && (heard ==> !s.b.up.updated)
    ensures Reaches(how, cfg, s, s.(a := Reported(s.a), b := Knowing(s.b, known), toB := packets))
    ensures s.b.up.received <= known && (!heard ==> known == s.b.up.received)
    ensures heard ==> forall e :: e in s.a.queue.entries[s.a.queue.delivered..] ==> e.hash in known
    decreases s.a.queue.credits
  {
    hide Reaches, UpdatePacket, HashesOf;
    var q := s.a.queue;
    if q.credits == 0 {
      ReportEnd(how, cfg, s);
      packets, known := s.toB, s.b.up.received;
      assert s.(a := Reported(s.a), b := Knowing(s.b, known), toB := packets) == s.(a := Reported(s.a));
    } else {
      var n := TakeCount(q, UPDATE_HASHES);
      var first := s.b.up.received;
      if heard {
        packets, first := HearBatch(how, cfg, s, n);
      } else {
        ReportBatch(how, cfg, s, n);
        packets := s.toB + {UpdatePacket(HashesOf(q.entries[q.delivered..q.delivered + n]))};
        assert Knowing(s.b, first) == s.b;
      }
      var t := s.(a := AfterBatch(s.a, n), b := Knowing(s.b, first), toB := packets);
      packets, known := ReportAll(how, cfg, t, heard);
      Onward(how, cfg, s, t, t.(a := Reported(t.a), b := Knowing(t.b, known), toB := packets));
      assert Reported(t.a) == Reported(s.a) && Knowing(t.b, known) == Knowing(s.b, known);
      if heard {
        HeardParts(q.entries, q.delivered, q.delivered + n, known);
      }
    }
  }

  /** A peer that has hashed and reported all its images without an interruption. */
  ghost function Told(p: Peer): Peer {
    var all := Listed(HASHER_RULE, [], p.queue.todo);
    p.(queue := Queue([], all, false, 0, |all|, true), published := |all|, hashing := false,
       down := p.down.(stage := DAnnounce))
  }

  ghost predicate Fresh(p: Peer) {
    p.queue == Start(p.queue.todo) && p.down.stage == DGet && p.published == 0 && !p.up.stage.USleep?
  }

  lemma HashedReports(p: Peer)
    requires Fresh(p)
    ensures var h := p.(queue := RunToEnd(HASHER_RULE, p.queue));
            Reporting(h) && h.queue.delivered == 0 && Reported(h) == Told(p)
  {
    RunToEndBalanced(HASHER_RULE, p.queue);
  }

  /** A peer can hash and report everything before anyone else moves, and be heard or not. */
  lemma TellAll(how: Answers, cfg: Config, s: Sys, heard: bool) returns (packets: set<seq<byte>>, known: set<ExifHash>)
    requires Fresh(s.a) && (heard ==> !s.b.up.updated)
    ensures Reaches(how, cfg, s, s.(a := Told(s.a), b := Knowing(s.b, known), toB := packets))
    ensures s.b.up.received <= known && (!heard ==> known == s.b.up.received)
    ensures heard ==> forall e :: e in Listed(HASHER_RULE, [], s.a.queue.todo) ==> e.hash in known
  {
    hide Reaches, RunToEnd, Told, Reported, Reporting, Knowing;
    HashAll(how, cfg, s);
    HashedReports(s.a);
    var t := s.(a := s.a.(queue := RunToEnd(HASHER_RULE, s.a.queue)));
    packets, known := ReportAll(how, cfg, t, heard);
    assert t.a.queue.entries[0..] == t.a.queue.entries;
    Onward(how, cfg, s, t, t.(a := Reported(t.a), b := Knowing(t.b, known), toB := packets));
  }

  /** A peer that has heard all has heard of what it has in common. */
  lemma AllHeard(a: Env, b: Env, known: set<ExifHash>)
    requires forall e :: e in Images(a) ==> e.hash in known
    ensures HashSet(Images(b)) * HashSet(Images(a)) <= known
  {
    hide Images;
    forall h | h in HashSet(Images(a))
      ensures h in known
    {
      InHashSet(Images(a), h);
      var i :| 0 <= i < |Images(a)| && Images(a)[i].hash == h;
      assert Images(a)[i] in Images(a);
    }
  }

  // ----- the end of the update -----

  /** The other peer's uploader has seen the end of the update. */
  function Updated(p: Peer): Peer {
    p.(up := p.up.(stage := ULoad, updated := true))
  }

  const EMPTY := Stream([], [], [])

  lemma AnnounceSeen(how: Answers, cfg: Config, s: Sys)
    requires s.a.down.stage == DAnnounce && s.b.up.stage == UWait && s.ba.back == EMPTY && s.ba.fwd.out == []
    ensures Reaches(how, cfg, s, s.(a := s.a.(down := s.a.down.(stage := DOffer)), b := Updated(s.b)))
  {
    hide Reaches;
    Stays(how, cfg, s);
    OnA(how, cfg, s, s, Announce(0));
    var t := s.(a := s.a.(down := s.a.down.(stage := DOffer)), ba := s.ba.(back := Stream([0], [], [])));
    OnA(how, cfg, s, t, WriteAnswer(1));
    assert WriteSome(t.ba.back, 1) == Stream([], [0], []);
    t := t.(ba := s.ba.(back := Stream([], [0], [])));
    EndArrives(how, cfg, s, t);
    t := t.(ba := s.ba.(back := Stream([], [], [0])));
    EndSeen(how, cfg, s, t);
    assert s.ba.(back := EMPTY) == s.ba;
  }

  lemma EndArrives(how: Answers, cfg: Config, s: Sys, t: Sys)
    requires Reaches(how, cfg, s, t) && t.b.up.stage == UWait && t.ba.back == Stream([], [0], []) && t.ba.fwd.out == []
    ensures Reaches(how, cfg, s, t.(ba := t.ba.(back := Stream([], [], [0]))))
  {
    hide Reaches;
    OnB(how, cfg, s, t, ReadAnswer(1));
    assert ReadSome(t.ba.back, 1) == Stream([], [], [0]);
  }

  lemma EndSeen(how: Answers, cfg: Config, s: Sys, t: Sys)
    requires Reaches(how, cfg, s, t) && t.b.up.stage == UWait && t.ba.back == Stream([], [], [0])
    ensures Reaches(how, cfg, s, t.(b := Updated(t.b), ba := t.ba.(back := EMPTY)))
  {
    hide Reaches;
    OnB(how, cfg, s, t, SeeUpdateEnd);
    var u := t.(b := t.b.(up := t.b.up.(stage := UMark)), ba := t.ba.(back := EMPTY));
    OnB(how, cfg, s, u, MarkUpdated);
  }

  // ----- bytes from peer a to peer b -----

  /** A message that the downloader reads on to its end gets across, byte by byte. */
  lemma {:induction false} Crosses(how: Answers, cfg: Config, s: Sys, msg: seq<byte>, rest: seq<byte>, i: nat)
    requires i <= |msg| && s.ab.fwd == Stream(msg[i..] + rest, [], msg[..i]) && s.ab.back.out == []
    requires forall j :: i <= j < |msg| ==> Reads(s.b.down.stage, msg[..j])
    ensures Reaches(how, cfg, s, s.(ab := s.ab.(fwd := Stream(rest, [], msg))))
    decreases |msg| - i
  {
    hide Reaches;
    if i == |msg| {
      Stays(how, cfg, s);
      assert msg[i..] + rest == rest && msg[..i] == msg;
    } else {
      var b := msg[i];
      var left := msg[i + 1..] + rest;
      assert msg[i..] + rest == [b] + left && msg[..i + 1] == msg[..i] + [b];
      ByteCrosses(how, cfg, s, b, left);
      var t := s.(ab := s.ab.(fwd := Stream(left, [], msg[..i + 1])));
      Crosses(how, cfg, t, msg, rest, i + 1);
      Onward(how, cfg, s, t, t.(ab := t.ab.(fwd := Stream(rest, [], msg))));
    }
  }

  /** With these bytes read, the downloader reads on. */
  predicate Reads(stage: DownloadStage, inb: seq<byte>) {
    !Invalid(stage, inb) && UploadNeed(stage, inb) > 0
  }

  lemma ByteCrosses(how: Answers, cfg: Config, s: Sys, b: byte, left: seq<byte>)
    requires s.ab.fwd.out == [b] + left && s.ab.fwd.wire == [] && s.ab.back.out == []
    requires Reads(s.b.down.stage, s.ab.fwd.inb)
    ensures Reaches(how, cfg, s, s.(ab := s.ab.(fwd := Stream(left, [], s.ab.fwd.inb + [b]))))
  {
    hide Reaches;
    Stays(how, cfg, s);
    OnA(how, cfg, s, s, WriteUpload(1));
    var fwd := Stream(left, [b], s.ab.fwd.inb);
    assert WriteSome(s.ab.fwd, 1) == fwd;
    var t := s.(ab := s.ab.(fwd := fwd));
    OnB(how, cfg, s, t, ReadUpload(1));
    assert ReadSome(fwd, 1) == Stream(left, [], s.ab.fwd.inb + [b]);
  }
}

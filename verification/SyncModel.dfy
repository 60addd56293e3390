// The synchronisation of two peers as a system of threads over byte streams and datagrams.
module SyncModel {
  import opened Codec
  import opened Entries
  import opened FoundMask
  import opened Framing
  import opened Hasher
  import opened FileStore

  /** What the uploader does when it has seen that hashing is over: leave, or read the entry count once more. */
  datatype ExitRule = WrittenExit | RereadExit

  datatype Config = Config(capacity: positive, mask: MaskRule, exit: ExitRule)

  /** What a peer starts with: the paths it hashes, its files, the paths it cannot write, its directory. */
  datatype Env = Env(sources: seq<Source>, files: Files, locked: set<Path>, dir: Path)

  const HASHER_RULE := Rule(UPDATE_HASHES, true)

  // ----- byte streams -----

  /** One direction of a connection: bytes still to be written, bytes on the way, bytes read so far. */
  datatype Stream = Stream(out: seq<byte>, wire: seq<byte>, inb: seq<byte>)

  function Flight(c: Stream): seq<byte> {
    c.inb + c.wire + c.out
  }

  predicate CanWrite(capacity: positive, c: Stream, k: nat) {
    1 <= k <= |c.out| && |c.wire| + k <= capacity
  }

  function WriteSome(c: Stream, k: nat): (r: Stream)
    requires k <= |c.out|
    ensures Flight(r) == Flight(c)
  {
    assert c.out == c.out[..k] + c.out[k..];
    c.(wire := c.wire + c.out[..k], out := c.out[k..])
  }

  function ReadSome(c: Stream, k: nat): (r: Stream)
    requires k <= |c.wire|
    ensures Flight(r) == Flight(c)
  {
    assert c.wire == c.wire[..k] + c.wire[k..];
    c.(inb := c.inb + c.wire[..k], wire := c.wire[k..])
  }

  function Post(c: Stream, bytes: seq<byte>): (r: Stream)
    requires c.out == []
    ensures Flight(r) == Flight(c) + bytes
  {
    c.(out := bytes)
  }

  function Consume(c: Stream): (r: Stream)
    ensures c.inb + Flight(r) == Flight(c)
  {
    assert c.inb + (c.wire + c.out) == c.inb + c.wire + c.out;
    c.(inb := [])
  }

  // ----- threads -----

  /** UWait: for the byte that ends the update; UMark: about to freeze the received hashes; ULoad: about to load
      the entry count; UCheck: nothing new was counted, about to test whether hashing is over; USleep: on the
      condition variable; UAck: waiting for the answer to an offer. */
  datatype UploadStage = UWait | UMark | ULoad | UCheck | USleep | UAck(offer: seq<Entry>) | UDone | UFatal

  /** `offered` and `sent` record what was put into offers and what was uploaded. */
  datatype Uploader = Uploader(stage: UploadStage, processed: nat, updated: bool, received: set<ExifHash>,
                               offered: seq<Entry>, sent: seq<Entry>)

  /** DGet to DSend: the loop that sends the update; DFinish: about to announce the end of hashing to the
      uploader; DAnnounce: about to write the byte that ends the update; then offers and records are read. */
  datatype DownloadStage =
    | DGet | DPublish(n: nat) | DNotify(n: nat) | DSend(n: nat) | DFinish | DAnnounce
    | DOffer | DRecords(missing: seq<ExifHash>) | DDone | DFatal

  /** A downloaded image and the path where it was stored, if it was. */
  datatype Download = Download(hash: ExifHash, record: Record, path: Option<Path>)

  /** `got` records what was downloaded. */
  datatype Downloader = Downloader(stage: DownloadStage, got: seq<Download>)

  datatype Peer = Peer(env: Env, queue: Queue, published: nat, hashing: bool,
                       up: Uploader, down: Downloader, files: Files)

  /** The connection over which one peer uploads: its bytes, and the answers. */
  datatype Link = Link(fwd: Stream, back: Stream)

  /** Two peers. `toA` and `toB` hold every datagram ever sent: each may arrive never, once or often, in any order. */
  datatype Sys = Sys(a: Peer, b: Peer, ab: Link, ba: Link, toA: set<seq<byte>>, toB: set<seq<byte>>)

  function Swap(s: Sys): Sys {
    Sys(s.b, s.a, s.ba, s.ab, s.toB, s.toA)
  }

  function StartPeer(env: Env): Peer {
    Peer(env, Start(env.sources), 0, true, Uploader(UWait, 0, false, {}, [], []), Downloader(DGet, []), env.files)
  }

  function StartLink(): Link {
    Link(Stream([], [], []), Stream([], [], []))
  }

  function StartSys(a: Env, b: Env): Sys {
    Sys(StartPeer(a), StartPeer(b), StartLink(), StartLink(), {}, {})
  }

  predicate Updating(stage: DownloadStage) {
    stage.DGet? || stage.DPublish? || stage.DNotify? || stage.DSend? || stage.DFinish? || stage.DAnnounce?
  }

  // ----- the uploader's choices -----

  datatype Scanned = Scanned(processed: nat, missing: seq<Entry>)

  /** Walks on from entry `processed` until `total` entries are passed or the offer is full. */
  function Scan(es: seq<Entry>, processed: nat, total: nat, received: set<ExifHash>, missing: seq<Entry>): Scanned
    requires processed < total <= |es|
    decreases total - processed
  {
    var more := if es[processed].hash in received then missing else missing + [es[processed]];
    if processed + 1 != total && |more| < OFFER_HASHES then Scan(es, processed + 1, total, received, more)
    else Scanned(processed + 1, more)
  }

  /** The walk of an uploader that sees entries it has not processed. */
  function Walk(p: Peer): Scanned
    requires p.up.processed < p.published <= |p.queue.entries|
  {
    Scan(p.queue.entries, p.up.processed, p.published, p.up.received, [])
  }

  /** If all entries it passes were reported, there is nothing to offer. */
  function AfterWalk(p: Peer): Uploader
    requires p.up.processed < p.published <= |p.queue.entries|
  {
    var found := Walk(p);
    p.up.(stage := if found.missing == [] then p.up.stage else UAck(found.missing),
          processed := found.processed, offered := p.up.offered + found.missing)
  }

  /** With the lock held: sleep while hashing goes on. The program leaves otherwise. */
  function AfterCheck(cfg: Config, p: Peer): UploadStage {
    if p.hashing then USleep
    else if cfg.exit.RereadExit? && p.published != p.up.processed then ULoad
    else UDone
  }

  function RecordOf(files: Files, e: Entry): Record {
    Record(SentName(e.path), Contents(files, e.path))
  }

  function Records(files: Files, es: seq<Entry>): seq<byte> {
    if es == [] then [] else RecordBytes(RecordOf(files, es[0])) + Records(files, es[1..])
  }

  function Wake(up: Uploader): Uploader {
    if up.stage.USleep? then up.(stage := ULoad) else up
  }

  // ----- the steps of peer a -----

  datatype Action =
    // the hasher
    | HashPath | HashCredit | HashFinish
    // the downloader, first sending the update
    | TakeBatch | Publish | Notify | SendBatch | EndHashing | Announce(b: byte)
    // the downloader on the connection over which the peer uploads
    | WriteAnswer(k: nat) | ReadUpload(k: nat) | Decide | Store | RejectOffer | EndOfUpload
    // the uploader
    | WriteUpload(k: nat) | ReadAnswer(k: nat) | SeeUpdateEnd | MarkUpdated | LoadCount | CheckHashing
    | SendMissing | EndOfAnswers
    // the environment: the update receiver's buffer is filled by datagrams, the condition variable wakes up by itself
    | Receive(packets: seq<seq<byte>>) | Spurious

  predicate IsEnvironment(act: Action) {
    act.Receive? || act.Spurious?
  }

  function UploadNeed(stage: DownloadStage, inb: seq<byte>): nat {
    if stage.DOffer? then OfferNeed(inb) else if stage.DRecords? then RecordNeed(inb) else 0
  }

  predicate Invalid(stage: DownloadStage, inb: seq<byte>) {
    stage.DOffer? && inb != [] && inb[0] > OFFER_HASHES
  }

  function AnswerNeed(up: Uploader): nat {
    match up.stage
    case UWait => 1
    case UAck(offer) => MaskSize(|offer|)
    case _ => 0
  }

  /** The receiver takes note of what it reads only if that is a number of whole hashes. */
  predicate CanReceive(packets: seq<seq<byte>>, sent: set<seq<byte>>) {
    (forall p :: p in packets ==> p in sent) && |Buffered(packets, UPDATE_BUFFER)| % 20 == 0
  }

  predicate Enabled(cfg: Config, s: Sys, act: Action) {
    var p, up, down := s.a, s.a.up, s.a.down;
    match act
    case HashPath => CanHash(p.queue)
    case HashCredit => CanCredit(p.queue)
    case HashFinish => CanFinish(p.queue)
    case TakeBatch => down.stage.DGet? && CanTake(p.queue, UPDATE_HASHES)
    case Publish => down.stage.DPublish?
    case Notify => down.stage.DNotify?
    case SendBatch => down.stage.DSend? && down.stage.n <= p.queue.delivered <= |p.queue.entries|
    case EndHashing => down.stage.DFinish?
    case Announce(b) => down.stage.DAnnounce? && s.ba.back.out == []
    case WriteAnswer(k) => CanWrite(cfg.capacity, s.ba.back, k)
    case ReadUpload(k) =>
      && s.ba.back.out == [] && !Invalid(down.stage, s.ba.fwd.inb)
      && 1 <= k <= |s.ba.fwd.wire| && k <= UploadNeed(down.stage, s.ba.fwd.inb)
    case RejectOffer => Invalid(down.stage, s.ba.fwd.inb)
    case Decide =>
      && down.stage.DOffer? && s.ba.back.out == [] && s.ba.fwd.inb != []
      && !Invalid(down.stage, s.ba.fwd.inb) && OfferNeed(s.ba.fwd.inb) == 0
    case Store =>
      down.stage.DRecords? && down.stage.missing != [] && s.ba.back.out == [] && RecordNeed(s.ba.fwd.inb) == 0
    case EndOfUpload =>
      && (down.stage.DOffer? || down.stage.DRecords?) && s.ba.back.out == [] && s.b.up.stage.UDone?
      && s.ba.fwd.out == [] && s.ba.fwd.wire == [] && UploadNeed(down.stage, s.ba.fwd.inb) > 0
    case WriteUpload(k) => CanWrite(cfg.capacity, s.ab.fwd, k)
    case ReadAnswer(k) =>
      && s.ab.fwd.out == [] && 1 <= k <= |s.ab.back.wire| && |s.ab.back.inb| + k <= AnswerNeed(up)
    case SeeUpdateEnd => up.stage.UWait? && |s.ab.back.inb| == 1
    case MarkUpdated => up.stage.UMark?
    case LoadCount => up.stage.ULoad? && s.ab.fwd.out == [] && up.processed <= p.published <= |p.queue.entries|
    case CheckHashing => up.stage.UCheck?
    case SendMissing =>
      up.stage.UAck? && s.ab.fwd.out == [] && |s.ab.back.inb| == MaskSize(|up.stage.offer|)
    case EndOfAnswers =>
      && s.ab.fwd.out == [] && |s.ab.back.inb| < AnswerNeed(up) && s.b.down.stage.DDone?
      && s.ab.back.out == [] && s.ab.back.wire == []
    case Receive(packets) => CanReceive(packets, s.toA) && !up.updated
    case Spurious => up.stage.USleep?
  }

  /** The hashes that the downloader of `s.a` has just been offered. */
  function Offered(s: Sys): seq<ExifHash>
    requires s.ba.fwd.inb != [] && OfferNeed(s.ba.fwd.inb) == 0
  {
    OfferHashes(s.ba.fwd.inb)
  }

  /** The loop that sends the update: take a batch, publish its size, notify the uploader, send it;
      when there is no batch any more, hashing is over. */
  function UpdatePeer(p: Peer, act: Action): Peer
    requires match act
             case TakeBatch => p.down.stage.DGet?
             case Publish => p.down.stage.DPublish?
             case Notify => p.down.stage.DNotify?
             case SendBatch => p.down.stage.DSend?
             case EndHashing => p.down.stage.DFinish?
             case _ => false
  {
    var down, stage := p.down, p.down.stage;
    match act
    case TakeBatch =>
      var n := TakeCount(p.queue, UPDATE_HASHES);
      p.(queue := Take(p.queue, UPDATE_HASHES), down := down.(stage := if n == 0 then DFinish else DPublish(n)))
    case Publish => p.(published := p.published + stage.n, down := down.(stage := DNotify(stage.n)))
    case Notify => p.(up := Wake(p.up), down := down.(stage := DSend(stage.n)))
    case SendBatch => p.(down := down.(stage := DGet))
    case EndHashing => p.(hashing := false, up := Wake(p.up), down := down.(stage := DAnnounce))
  }

  /** The datagram that reports the batch taken last. */
  function BatchPacket(p: Peer): seq<byte>
    requires p.down.stage.DSend? && p.down.stage.n <= p.queue.delivered <= |p.queue.entries|
  {
    UpdatePacket(HashesOf(p.queue.entries[p.queue.delivered - p.down.stage.n..p.queue.delivered]))
  }

  /** What the downloader waits for when it awaits the records of these images. */
  function AfterOffer(missing: seq<ExifHash>): DownloadStage {
    if missing == [] then DOffer else DRecords(missing)
  }

  function Step(cfg: Config, s: Sys, act: Action): Sys
    requires Enabled(cfg, s, act)
  {
    var p, up, down, stage := s.a, s.a.up, s.a.down, s.a.down.stage;
    match act
    case HashPath => s.(a := p.(queue := HashNext(HASHER_RULE, p.queue)))
    case HashCredit => s.(a := p.(queue := Credit(HASHER_RULE, p.queue)))
    case HashFinish => s.(a := p.(queue := Finish(HASHER_RULE, p.queue)))
    case TakeBatch => s.(a := UpdatePeer(p, act))
    case Publish => s.(a := UpdatePeer(p, act))
    case Notify => s.(a := UpdatePeer(p, act))
    case SendBatch => s.(a := UpdatePeer(p, act), toB := s.toB + {BatchPacket(p)})
    case EndHashing => s.(a := UpdatePeer(p, act))
    case Announce(b) => s.(a := p.(down := down.(stage := DOffer)), ba := s.ba.(back := Post(s.ba.back, [b])))
    case WriteAnswer(k) => s.(ba := s.ba.(back := WriteSome(s.ba.back, k)))
    case ReadUpload(k) => s.(ba := s.ba.(fwd := ReadSome(s.ba.fwd, k)))
    case RejectOffer => s.(a := p.(down := down.(stage := DFatal)))
    case Decide =>
      var have, hs := HashSet(p.queue.entries), Offered(s);
      var missing := MissingHashes(hs, have);
      s.(a := p.(down := down.(stage := AfterOffer(missing))),
         ba := Link(Consume(s.ba.fwd), Post(s.ba.back, Encode(cfg.mask, Flags(hs, have)))))
    case Store =>
      var r, hash, rest := ParseRecord(s.ba.fwd.inb), stage.missing[0], stage.missing[1..];
      var stored := Save(p.files, p.env.locked, p.env.dir, hash, r);
      s.(a := p.(files := stored.files,
                 down := Downloader(AfterOffer(rest),
                                    down.got + [Download(hash, r, stored.path)])),
         ba := s.ba.(fwd := Consume(s.ba.fwd)))
    case EndOfUpload =>
      s.(a := p.(down := down.(stage := if stage.DOffer? && s.ba.fwd.inb == [] then DDone else DFatal)))
    case WriteUpload(k) => s.(ab := s.ab.(fwd := WriteSome(s.ab.fwd, k)))
    case ReadAnswer(k) => s.(ab := s.ab.(back := ReadSome(s.ab.back, k)))
    case SeeUpdateEnd => s.(a := p.(up := up.(stage := UMark)), ab := s.ab.(back := Consume(s.ab.back)))
    case MarkUpdated => s.(a := p.(up := up.(stage := ULoad, updated := true)))
    case LoadCount =>
      if up.processed == p.published then s.(a := p.(up := up.(stage := UCheck)))
      else
        var missing := Walk(p).missing;
        s.(a := p.(up := AfterWalk(p)),
           ab := if missing == [] then s.ab else s.ab.(fwd := Post(s.ab.fwd, OfferBytes(HashesOf(missing)))))
    case CheckHashing => s.(a := p.(up := up.(stage := AfterCheck(cfg, p))))
    case SendMissing =>
      var offer := up.stage.offer;
      var chosen := Select(offer, Decode(cfg.mask, s.ab.back.inb, |offer|));
      if exists e :: e in chosen && Contents(p.files, e.path) == [] then s.(a := p.(up := up.(stage := UFatal)))
      else s.(a := p.(up := up.(stage := ULoad, sent := up.sent + chosen)),
              ab := Link(Post(s.ab.fwd, Records(p.files, chosen)), Consume(s.ab.back)))
    case EndOfAnswers => s.(a := p.(up := up.(stage := UFatal)))
    case Receive(packets) =>
      s.(a := p.(up := up.(received := up.received + PacketSet(Buffered(packets, UPDATE_BUFFER)))))
    case Spurious => s.(a := p.(up := Wake(up)))
  }

  // ----- the steps of either peer, and runs -----

  datatype Side = A | B

  datatype Move = Move(side: Side, act: Action)

  function View(s: Sys, side: Side): Sys {
    if side.A? then s else Swap(s)
  }

  predicate CanMove(cfg: Config, s: Sys, m: Move) {
    Enabled(cfg, View(s, m.side), m.act)
  }

  function Next(cfg: Config, s: Sys, m: Move): Sys
    requires CanMove(cfg, s, m)
  {
    View(Step(cfg, View(s, m.side), m.act), m.side)
  }

  function OtherSide(m: Move): Move {
    m.(side := if m.side.A? then B else A)
  }

  /** What one peer can do, the other one can do in its place. */
  lemma OtherMove(cfg: Config, s: Sys, m: Move)
    requires CanMove(cfg, s, m)
    ensures View(Swap(s), OtherSide(m).side) == View(s, m.side)
    ensures CanMove(cfg, Swap(s), OtherSide(m)) && Next(cfg, Swap(s), OtherSide(m)) == Swap(Next(cfg, s, m))
  {
    hide Enabled, Step;
    assert Swap(Swap(s)) == s;
  }

  ghost predicate IsRun(cfg: Config, s: Sys, run: seq<Move>)
    decreases |run|
  {
    run == [] || (CanMove(cfg, s, run[0]) && IsRun(cfg, Next(cfg, s, run[0]), run[1..]))
  }

  ghost function End(cfg: Config, s: Sys, run: seq<Move>): Sys
    requires IsRun(cfg, s, run)
    decreases |run|
  {
    if run == [] then s else End(cfg, Next(cfg, s, run[0]), run[1..])
  }

  predicate PeerDone(p: Peer) {
    p.up.stage.UDone? && p.down.stage.DDone?
  }

  predicate Final(s: Sys) {
    PeerDone(s.a) && PeerDone(s.b)
  }
}

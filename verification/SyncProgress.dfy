// Two peers never wait for each other: until both are done, one of their threads can go on.
module SyncProgress {
  import opened Codec
  import opened Entries
  import opened FoundMask
  import opened Framing
  import opened FileStore
  import opened SyncModel
  import opened SyncInvariant

  ghost predicate Goes(cfg: Config, s: Sys, m: Move) {
    CanMove(cfg, s, m) && !IsEnvironment(m.act)
  }

  /** A hasher or an update loop that has not finished can go on. */
  lemma UpdateGoes(cfg: Config, s: Sys) returns (m: Move)
    requires PeerInv(cfg, s.a) && (!s.a.queue.done || Updating(s.a.down.stage))
    requires s.a.down.stage.DAnnounce? ==> s.ba.back.out == []
    ensures Goes(cfg, s, m)
  {
    var q, stage := s.a.queue, s.a.down.stage;
    m := Move(A, if !q.done then (if q.owed then HashCredit else if q.todo == [] then HashFinish else HashPath)
                 else if stage.DGet? then TakeBatch else if stage.DPublish? then Publish
                 else if stage.DNotify? then Notify else if stage.DSend? then SendBatch
                 else if stage.DFinish? then EndHashing else Announce(0));
  }

  // ----- on the connection over which peer a uploads, both updates having been sent -----

  ghost predicate Open(how: Answers, cfg: Config, s: Sys) {
    && Half(how, cfg, s) && !Updating(s.a.down.stage) && !Updating(s.b.down.stage)
    && !(s.a.up.stage.UDone? && s.b.down.stage.DDone?)
  }

  /** What the uploader waits for is just what is in flight. */
  lemma AnswerInFlight(how: Answers, cfg: Config, s: Sys)
    requires Open(how, cfg, s) && Flight(s.ab.back) != []
    ensures Flight(s.ab.fwd) == [] && |Flight(s.ab.back)| == AnswerNeed(s.a.up) >= 1
    ensures s.a.up.stage.UWait? || s.a.up.stage.UAck?
  {
  }

  lemma AnswerGoes(how: Answers, cfg: Config, s: Sys) returns (m: Move)
    requires Open(how, cfg, s) && Flight(s.ab.back) != []
    ensures Goes(cfg, s, m)
  {
    AnswerInFlight(how, cfg, s);
    m := WaitGoes(cfg, s);
  }

  /** An uploader that waits for what is in flight reads on, is written to, or takes the answer. */
  lemma WaitGoes(cfg: Config, s: Sys) returns (m: Move)
    requires (s.a.up.stage.UWait? || s.a.up.stage.UAck?) && s.ab.fwd.out == []
    requires |Flight(s.ab.back)| == AnswerNeed(s.a.up) >= 1
    ensures Goes(cfg, s, m)
  {
    var back := s.ab.back;
    assert |Flight(back)| == |back.inb| + |back.wire| + |back.out|;
    if back.wire != [] {
      m := Move(A, ReadAnswer(1));
    } else if back.out != [] {
      m := Move(B, WriteAnswer(1));
    } else if s.a.up.stage.UWait? {
      m := Move(A, SeeUpdateEnd);
    } else {
      m := Move(A, SendMissing);
    }
  }

  lemma UploadStage(how: Answers, cfg: Config, s: Sys)
    requires Open(how, cfg, s) && Flight(s.ab.fwd) != []
    ensures s.b.down.stage.DOffer? || (s.b.down.stage.DRecords? && s.b.down.stage.missing != [])
    ensures !Invalid(s.b.down.stage, s.ab.fwd.inb)
  {
    hide PeerInv, LinkInv, CoverInv, GotInv, NetInv;
    ReadingFromLink(how, cfg, s);
    NeverInvalid(how, cfg, s);
  }

  /** Bytes on their way to the downloader are written, read, or taken as a whole message. */
  lemma UploadGoes(how: Answers, cfg: Config, s: Sys) returns (m: Move)
    requires Open(how, cfg, s) && Flight(s.ab.back) == [] && Flight(s.ab.fwd) != []
    requires s.ab.fwd.out == [] && s.ab.fwd.wire == [] ==> UploadNeed(s.b.down.stage, s.ab.fwd.inb) == 0
    ensures Goes(cfg, s, m)
  {
    UploadStage(how, cfg, s);
    hide Open, Goes, Invalid, UploadNeed;
    if UploadNeed(s.b.down.stage, s.ab.fwd.inb) == 0 {
      m := MessageGoes(cfg, s);
    } else if s.ab.fwd.wire != [] {
      m := ReadGoes(cfg, s);
    } else {
      m := WriteGoes(cfg, s);
    }
  }

  lemma ReadGoes(cfg: Config, s: Sys) returns (m: Move)
    requires s.ab.back.out == [] && s.ab.fwd.wire != []
    requires !Invalid(s.b.down.stage, s.ab.fwd.inb) && UploadNeed(s.b.down.stage, s.ab.fwd.inb) > 0
    ensures Goes(cfg, s, m)
  {
    hide Invalid, UploadNeed;
    m := Move(B, ReadUpload(1));
  }

  lemma WriteGoes(cfg: Config, s: Sys) returns (m: Move)
    requires s.ab.fwd.out != [] && s.ab.fwd.wire == []
    ensures Goes(cfg, s, m)
  {
    m := Move(A, WriteUpload(1));
  }

  lemma MessageGoes(cfg: Config, s: Sys) returns (m: Move)
    requires s.b.down.stage.DOffer? || (s.b.down.stage.DRecords? && s.b.down.stage.missing != [])
    requires s.ab.back.out == [] && UploadNeed(s.b.down.stage, s.ab.fwd.inb) == 0
    requires !Invalid(s.b.down.stage, s.ab.fwd.inb)
    ensures Goes(cfg, s, m)
  {
    m := Move(B, if s.b.down.stage.DOffer? then Decide else Store);
  }

  lemma WholeRead(how: Answers, p: Peer, stage: DownloadStage, owed: seq<Entry>, up: Uploader, inb: seq<byte>)
    requires Reading(how, p, stage, owed, up, inb, inb) && (up.stage.UAck? ==> |up.stage.offer| <= OFFER_HASHES)
    ensures UploadNeed(stage, inb) == 0
  {
    hide HashesOf, RecordOf;
    if owed != [] {
      RecordDelimited(RecordOf(p.env.files, owed[0]), inb);
    } else {
      OfferDelimited(HashesOf(up.stage.offer), inb);
    }
  }

  /** When every byte was read, a whole message was read. */
  lemma WholeMessage(how: Answers, cfg: Config, s: Sys)
    requires Open(how, cfg, s) && Flight(s.ab.fwd) != [] && s.ab.fwd.out == [] && s.ab.fwd.wire == []
    ensures UploadNeed(s.b.down.stage, s.ab.fwd.inb) == 0
  {
    assert s.a.up.stage.UAck? ==> |s.a.up.stage.offer| <= OFFER_HASHES;
    assert Flight(s.ab.fwd) == s.ab.fwd.inb;
    hide Half, Reading;
    ReadingFromLink(how, cfg, s);
    WholeRead(how, s.a, s.b.down.stage, s.a.up.sent[|s.b.down.got|..], s.a.up, s.ab.fwd.inb);
  }

  lemma SilentGoes(how: Answers, cfg: Config, s: Sys) returns (m: Move)
    requires Open(how, cfg, s) && Flight(s.ab.back) == [] && Flight(s.ab.fwd) == []
    ensures Goes(cfg, s, m)
  {
    assert s.ab.fwd.out == [] && s.ab.fwd.wire == [] && s.ab.fwd.inb == [] && s.ab.back.out == [];
    SilentStage(how, cfg, s);
    m := StageGoes(cfg, s);
  }

  lemma StageGoes(cfg: Config, s: Sys) returns (m: Move)
    requires s.ab.fwd.out == [] && s.ab.fwd.wire == [] && s.ab.fwd.inb == [] && s.ab.back.out == []
    requires s.a.up.stage.UMark? || s.a.up.stage.ULoad? || s.a.up.stage.UCheck? || s.a.up.stage.UDone?
    requires s.a.up.stage.UDone? ==> s.b.down.stage.DOffer?
    requires s.a.up.processed <= s.a.published <= |s.a.queue.entries|
    ensures Goes(cfg, s, m)
  {
    var stage := s.a.up.stage;
    m := if stage.UDone? then Move(B, EndOfUpload)
         else Move(A, if stage.UMark? then MarkUpdated else if stage.ULoad? then LoadCount else CheckHashing);
  }

  lemma RecordsNotEmpty(files: Files, es: seq<Entry>)
    ensures es != [] ==> Records(files, es) != []
  {
    if es != [] {
      assert |RecordBytes(RecordOf(files, es[0]))| > 0;
    }
  }

  /** With nothing in flight, the uploader neither waits nor sleeps; and when it is done, the downloader
      is between offers. */
  lemma SilentStage(how: Answers, cfg: Config, s: Sys)
    requires Open(how, cfg, s) && Flight(s.ab.back) == [] && Flight(s.ab.fwd) == []
    ensures s.a.up.stage.UMark? || s.a.up.stage.ULoad? || s.a.up.stage.UCheck? || s.a.up.stage.UDone?
    ensures s.a.up.stage.UDone? ==> s.b.down.stage.DOffer?
  {
    var owed := s.a.up.sent[|s.b.down.got|..];
    RecordsNotEmpty(s.a.env.files, owed);
  }

  lemma LinkGoes(how: Answers, cfg: Config, s: Sys) returns (m: Move)
    requires Open(how, cfg, s)
    ensures Goes(cfg, s, m)
  {
    if Flight(s.ab.back) != [] {
      m := AnswerGoes(how, cfg, s);
    } else if Flight(s.ab.fwd) != [] {
      if s.ab.fwd.out == [] && s.ab.fwd.wire == [] {
        WholeMessage(how, cfg, s);
      }
      m := UploadGoes(how, cfg, s);
    } else {
      m := SilentGoes(how, cfg, s);
    }
  }

  lemma UpdatingGoes(how: Answers, cfg: Config, s: Sys) returns (m: Move)
    requires PeerInv(cfg, s.a) && Half(how, cfg, Swap(s)) && Updating(s.a.down.stage)
    ensures Goes(cfg, s, m)
  {
    assert Flight(s.ba.back) == [];
    m := UpdateGoes(cfg, s);
  }

  lemma OtherGoes(cfg: Config, s: Sys, m: Move)
    requires Goes(cfg, Swap(s), m)
    ensures Goes(cfg, s, OtherSide(m))
  {
    OtherMove(cfg, Swap(s), m);
  }

  /** In every state that the invariant allows, except the one in which both peers are done, a thread can go on. */
  lemma NeverStuck(how: Answers, cfg: Config, s: Sys) returns (m: Move)
    requires Inv(how, cfg, s) && !Final(s)
    ensures Goes(cfg, s, m)
  {
    assert Half(how, cfg, s) && Half(how, cfg, Swap(s));
    if Updating(s.a.down.stage) {
      m := UpdatingGoes(how, cfg, s);
    } else if Updating(s.b.down.stage) {
      m := UpdatingGoes(how, cfg, Swap(s));
      OtherGoes(cfg, s, m);
      m := OtherSide(m);
    } else if !(s.a.up.stage.UDone? && s.b.down.stage.DDone?) {
      m := LinkGoes(how, cfg, s);
    } else {
      m := LinkGoes(how, cfg, Swap(s));
      OtherGoes(cfg, s, m);
      m := OtherSide(m);
    }
  }
}

/**
One boot of the loader as a function of the medium and of everything the hardware decides:
which reads succeed, which sectors of the write arrive, how the launch ends, where power is lost.
*/
module BootProtocol {
  import opened Bytes
  import opened Records
  import opened Environment
  import opened Disk

  /** A board and its checksum. Nothing below depends on what the checksum computes. */
  datatype Config = Config(board: Board, crc: seq<Byte> -> Word)

  /** A failed read leaves anything in the buffer. */
  datatype ReadOutcome = ReadDone | ReadFailed(left: Copy)

  /** Where power is lost, if it is. */
  datatype Stage = AtRead | AtWrite | AtFlush | AtReadback | AtLoad | Never

  datatype Launch = NotLoaded | Returned | TookOver

  /**
  What the hardware does during one boot. Of the sectors of a write, those accepted are what later
  reads see; those settled are on the medium even if power is lost before a flush.
  */
  datatype Oracle = Oracle(
    readA: ReadOutcome, readB: ReadOutcome,
    accepted: set<int>, settled: set<int>, writeDone: bool, flushDone: bool,
    readback: ReadOutcome, launch: Launch, cut: Stage)

  datatype Reason = InvalidEnvironment | NoneLeft | AttemptNotPersisted | NotRetired

  datatype End = Recovery(reason: Reason) | PowerLost | Running | Reset

  datatype Event = Wrote(slot: int) | Verified | Launched(entry: int)

  datatype Boot = Boot(medium: Medium, log: seq<Event>, end: End)

  datatype Status = Persisted | Refused | Cut

  datatype Store = Store(medium: Medium, log: seq<Event>, status: Status)

  // ----- the two copies as one register -----

  /** The slot read_environment selects when both reads succeed. */
  function Pick(crc: seq<Byte> -> Word, a: Copy, b: Copy): (slot: int)
    ensures -1 <= slot <= 1
  {
    Slot(ValidCopy(crc, a), a[4], ValidCopy(crc, b), b[4])
  }

  function First(cfg: Config, medium: Medium): (copy: Copy)
    requires cfg.board.Fits(medium)
  {
    CopyAt(medium, cfg.board.first)
  }

  function Second(cfg: Config, medium: Medium): (copy: Copy)
    requires cfg.board.Fits(medium)
  {
    CopyAt(medium, cfg.board.second)
  }

  function Newest(cfg: Config, medium: Medium): (slot: int)
    requires cfg.board.Fits(medium)
    ensures -1 <= slot <= 1
  {
    Pick(cfg.crc, First(cfg, medium), Second(cfg, medium))
  }

  /** The records the medium durably holds. */
  ghost function Stored(cfg: Config, medium: Medium): (rs: Option<seq<Record>>)
    requires cfg.board.Fits(medium)
    ensures rs.Some? ==> WellFormed(rs.value)
  {
    var slot := Newest(cfg, medium);
    if slot < 0 then None else Decoded(CopyAt(medium, cfg.board.Base(slot)))
  }

  /** The state every boot keeps (BootKeepsSound): readable, and both copies zero past their first sector. */
  ghost predicate Sound(cfg: Config, medium: Medium) {
    && cfg.board.Fits(medium)
    && Stored(cfg, medium).Some?
    && Tidy(First(cfg, medium)) && Tidy(Second(cfg, medium))
  }

  /** Only the spare copy has to be zero past its first sector: the selected one is because it decodes. */
  lemma SoundBySpare(cfg: Config, medium: Medium)
    requires cfg.board.Fits(medium) && Stored(cfg, medium).Some?
    requires Tidy(CopyAt(medium, cfg.board.Base(1 - Newest(cfg, medium))))
    ensures Sound(cfg, medium)
  {
    DecodedIsTidy(CopyAt(medium, cfg.board.Base(Newest(cfg, medium))));
  }

  // ----- reading -----

  function Seen(view: Medium, base: nat, outcome: ReadOutcome): (copy: Copy)
    requires base + ENV_BLOCKS <= |view|
  {
    match outcome
    case ReadDone => CopyAt(view, base)
    case ReadFailed(left) => left
  }

  function SlotSeen(cfg: Config, medium: Medium, o: Oracle): (slot: int)
    requires cfg.board.Fits(medium)
    ensures -1 <= slot <= 1
  {
    var a, b := Seen(medium, cfg.board.first, o.readA), Seen(medium, cfg.board.second, o.readB);
    Slot(o.readA.ReadDone? && ValidCopy(cfg.crc, a), a[4], o.readB.ReadDone? && ValidCopy(cfg.crc, b), b[4])
  }

  /** The first four bytes of a copy, least significant first, are the checksum of the bytes from the sixth on. */
  ghost predicate ChecksumHolds(crc: seq<Byte> -> Word, copy: Copy) {
    (copy[0] as int) + 256 * (copy[1] as int) + 65536 * (copy[2] as int) + 16777216 * (copy[3] as int)
      == crc(copy[5..])
  }

  /**
  What a boot selects, in terms of bytes: only a copy that was read and whose checksum holds, none only if
  there is none, and of two the one with the greater flag, where 0 follows 255.
  */
  lemma SlotSeenMeans(cfg: Config, medium: Medium, o: Oracle)
    requires cfg.board.Fits(medium)
    ensures var a, b := CopyAt(medium, cfg.board.first), CopyAt(medium, cfg.board.second);
      var goodA := o.readA == ReadDone && ChecksumHolds(cfg.crc, a);
      var goodB := o.readB == ReadDone && ChecksumHolds(cfg.crc, b);
      SlotSeen(cfg, medium, o) ==
        if goodA && goodB then
          (if (a[4] == 255 && b[4] == 0) || (a[4] < b[4] && !(a[4] == 0 && b[4] == 255)) then 1 else 0)
        else if goodA then 0 else if goodB then 1 else -1
  {
    hide CopyAt, Slot;
  }

  /** The read of the newest copy succeeds; the other one may fail. */
  ghost predicate Reliable(cfg: Config, medium: Medium, o: Oracle)
    requires cfg.board.Fits(medium)
  {
    if Newest(cfg, medium) == 0 then o.readA.ReadDone? else o.readB.ReadDone?
  }

  /** A boot selects the newest copy exactly when it can read it: otherwise it falls back to the older one. */
  lemma SeesNewestIff(cfg: Config, medium: Medium, o: Oracle)
    requires cfg.board.Fits(medium) && Newest(cfg, medium) >= 0
    ensures SlotSeen(cfg, medium, o) == Newest(cfg, medium) <==> Reliable(cfg, medium, o)
  {
  }

  /** The boot acts on a copy other than the newest: it selects one, and that one decodes. */
  ghost predicate FallsBack(cfg: Config, medium: Medium, o: Oracle)
    requires cfg.board.Fits(medium)
  {
    var slot := SlotSeen(cfg, medium, o);
    && o.cut != AtRead && slot >= 0 && slot != Newest(cfg, medium)
    && Decoded(CopyAt(medium, cfg.board.Base(slot))).Some?
  }

  // ----- writing -----

  function Pending(cfg: Config, flag: Byte, rs: seq<Record>): (copy: Copy)
    requires WellFormed(rs)
  {
    TextWidth(rs);
    Image(cfg.crc, NextFlag(flag), Text(rs))
  }

  /** The sectors on the medium when power is lost or the write is refused before a flush. */
  function Settled(cfg: Config, o: Oracle): (which: set<int>)
    ensures which <= o.accepted
    ensures !cfg.board.cached ==> which == o.accepted
    ensures cfg.board.cached ==> forall i :: i in which <==> i in o.accepted && i in o.settled
  {
    if cfg.board.cached then o.accepted * o.settled else o.accepted
  }

  /** persist_environment: write the spare copy, flush where there is a cache, read back, compare. */
  function Persist(cfg: Config, medium: Medium, slot: int, flag: Byte, rs: seq<Record>, o: Oracle): (s: Store)
    requires cfg.board.Fits(medium) && (slot == 0 || slot == 1)
    ensures |s.medium| == |medium|
  {
    if !WellFormed(rs) then Store(medium, [], Refused)
    else
      var base := cfg.board.Base(1 - slot);
      var pending := Pending(cfg, flag, rs);
      var view := Landed(medium, base, pending, o.accepted);
      var early := Landed(medium, base, pending, Settled(cfg, o));
      var wrote := [Wrote(1 - slot)];
      if o.cut == AtWrite then Store(early, wrote, Cut)
      else if !o.writeDone then Store(early, wrote, Refused)
      else if cfg.board.cached && o.cut == AtFlush then Store(early, wrote, Cut)
      else if cfg.board.cached && !o.flushDone then Store(early, wrote, Refused)
      else if o.cut == AtReadback then Store(view, wrote, Cut)
      else if o.readback.ReadFailed? || CopyAt(view, base) != pending then Store(view, wrote, Refused)
      else Store(view, wrote + [Verified], Persisted)
  }

  /** A copy prepared over a valid one, with the next flag, is selected and decodes to the new records. */
  lemma OtherReplaced(crc: seq<Byte> -> Word, copy: Copy, rs: seq<Record>)
    requires ValidCopy(crc, copy) && WellFormed(rs)
    ensures |Text(rs)| <= VALUE_LIMIT
    ensures var renewed := Image(crc, NextFlag(copy[4]), Text(rs));
      && Tidy(renewed) && Decoded(renewed) == Some(rs)
      && Pick(crc, copy, renewed) == 1 && Pick(crc, renewed, copy) == 0
  {
    hide ValidCopy, Decoded, Image, Tidy;
    ImageReads(crc, NextFlag(copy[4]), rs);
    NextFlagWins(copy[4]);
  }

  /** The newest copy is a valid one. */
  lemma NewestValid(cfg: Config, medium: Medium)
    requires cfg.board.Fits(medium) && Newest(cfg, medium) >= 0
    ensures ValidCopy(cfg.crc, CopyAt(medium, cfg.board.Base(Newest(cfg, medium))))
  {
    hide CopyAt, ValidCopy;
  }

  /** What is stored depends on the two copies alone. */
  lemma StoredInCopies(cfg: Config, medium: Medium, after: Medium, slot: int)
    requires Sound(cfg, medium) && cfg.board.Fits(after) && 0 <= slot <= 1
    requires CopyAt(after, cfg.board.Base(slot)) == CopyAt(medium, cfg.board.Base(slot))
    requires CopyAt(after, cfg.board.Base(1 - slot)) == CopyAt(medium, cfg.board.Base(1 - slot))
    ensures Sound(cfg, after) && Stored(cfg, after) == Stored(cfg, medium) && Newest(cfg, after) == Newest(cfg, medium)
  {
    hide CopyAt, Decoded, Tidy, ValidCopy, Slot;
  }

  /**
  Crash atomicity. Whichever valid copy the boot has selected, the newest or an older one, and whatever
  subset of the other copy's sectors arrives: the medium durably holds exactly the records it held or
  exactly the new ones, and stays in the state that makes the next write atomic.
  */
  lemma TornWriteAtomic(cfg: Config, medium: Medium, slot: int, rs: seq<Record>, which: set<int>)
    requires Sound(cfg, medium) && WellFormed(rs) && 0 <= slot <= 1
    requires ValidCopy(cfg.crc, CopyAt(medium, cfg.board.Base(slot)))
    ensures var base, kept := cfg.board.Base(1 - slot), CopyAt(medium, cfg.board.Base(slot));
      var after := Landed(medium, base, Pending(cfg, kept[4], rs), which);
      && Sound(cfg, after)
      && CopyAt(after, cfg.board.Base(slot)) == kept
      && (if 0 in which then Stored(cfg, after) == Some(rs) && Newest(cfg, after) == 1 - slot
          else
            && Stored(cfg, after) == Stored(cfg, medium) && Newest(cfg, after) == Newest(cfg, medium)
            && CopyAt(after, base) == CopyAt(medium, base))
  {
    hide CopyAt, Image, Decoded, Tidy, ValidCopy, Slot, Landed, Text;
    var base, kept := cfg.board.Base(1 - slot), CopyAt(medium, cfg.board.Base(slot));
    var pending := Pending(cfg, kept[4], rs);
    OtherReplaced(cfg.crc, kept, rs);
    TornCopy(medium, base, pending, which);
    LandedElsewhere(cfg.board, medium, slot, pending, which);
    if 0 !in which {
      StoredInCopies(cfg, medium, Landed(medium, base, pending, which), slot);
    }
  }

  /**
  Without that state the checksum is what protects: a mixture it refuses is never selected.
  */
  lemma MixtureRefused(cfg: Config, medium: Medium, copy: Copy, which: set<int>)
    requires cfg.board.Fits(medium) && Newest(cfg, medium) >= 0
    ensures var slot := Newest(cfg, medium);
      var after := Landed(medium, cfg.board.Base(1 - slot), copy, which);
      !ChecksumHolds(cfg.crc, CopyAt(after, cfg.board.Base(1 - slot))) ==> Stored(cfg, after) == Stored(cfg, medium)
  {
    hide CopyAt, Decoded, Landed;
    LandedElsewhere(cfg.board, medium, Newest(cfg, medium), copy, which);
  }

  /** The shape of every persist: which sectors the medium ends with, and what the log then says. */
  lemma PersistForm(cfg: Config, medium: Medium, slot: int, flag: Byte, rs: seq<Record>, o: Oracle)
    requires cfg.board.Fits(medium) && (slot == 0 || slot == 1)
    ensures var s := Persist(cfg, medium, slot, flag, rs, o);
      && s.log <= [Wrote(1 - slot), Verified]
      && (s.status == Persisted <==> s.log == [Wrote(1 - slot), Verified])
      && (!WellFormed(rs) ==> s.medium == medium)
      && (WellFormed(rs) ==>
        var base, pending := cfg.board.Base(1 - slot), Pending(cfg, flag, rs);
        && (s.medium == Landed(medium, base, pending, o.accepted)
            || s.medium == Landed(medium, base, pending, Settled(cfg, o)))
        && (s.status == Persisted ==>
          s.medium == Landed(medium, base, pending, o.accepted) && CopyAt(s.medium, base) == pending))
  {
  }

  /**
  From whichever valid copy it starts, one persist moves the register to the new records or not at all, and
  reports success only if it did.
  */
  lemma PersistAtomic(cfg: Config, medium: Medium, slot: int, rs: seq<Record>, o: Oracle)
    requires Sound(cfg, medium) && WellFormed(rs) && 0 <= slot <= 1
    requires ValidCopy(cfg.crc, CopyAt(medium, cfg.board.Base(slot)))
    ensures var s := Persist(cfg, medium, slot, CopyAt(medium, cfg.board.Base(slot))[4], rs, o);
      && Sound(cfg, s.medium)
      && (Stored(cfg, s.medium) == Some(rs) || Stored(cfg, s.medium) == Stored(cfg, medium))
      && (s.status == Persisted ==> Stored(cfg, s.medium) == Some(rs))
  {
    var flag := CopyAt(medium, cfg.board.Base(slot))[4];
    hide CopyAt, Landed, Pending, Sound, Stored, Newest, Persist, ValidCopy;
    PersistForm(cfg, medium, slot, flag, rs, o);
    TornWriteAtomic(cfg, medium, slot, rs, o.accepted);
    TornWriteAtomic(cfg, medium, slot, rs, Settled(cfg, o));
    if 0 !in o.accepted && Persist(cfg, medium, slot, flag, rs, o).status == Persisted {
      ReadbackMeansStored(cfg, medium, slot, rs, o.accepted);
    }
  }

  /** If the readback matches, the new records are stored: even when no sector arrived and they were before. */
  lemma ReadbackMeansStored(cfg: Config, medium: Medium, slot: int, rs: seq<Record>, which: set<int>)
    requires Sound(cfg, medium) && WellFormed(rs) && 0 <= slot <= 1
    requires ValidCopy(cfg.crc, CopyAt(medium, cfg.board.Base(slot)))
    requires var base, pending := cfg.board.Base(1 - slot), Pending(cfg, CopyAt(medium, cfg.board.Base(slot))[4], rs);
      CopyAt(Landed(medium, base, pending, which), base) == pending
    ensures var pending := Pending(cfg, CopyAt(medium, cfg.board.Base(slot))[4], rs);
      Stored(cfg, Landed(medium, cfg.board.Base(1 - slot), pending, which)) == Some(rs)
  {
    hide CopyAt, Image, Decoded, Tidy, ValidCopy, Slot, Landed, Text;
    OtherReplaced(cfg.crc, CopyAt(medium, cfg.board.Base(slot)), rs);
    TornWriteAtomic(cfg, medium, slot, rs, which);
  }

  /**
  From the newest copy the readback cannot match unless the first sector arrived: the copy written over
  does not carry the new flag.
  */
  lemma ReadbackNeedsSector(cfg: Config, medium: Medium, rs: seq<Record>, which: set<int>)
    requires Sound(cfg, medium) && WellFormed(rs) && 0 !in which
    ensures var slot := Newest(cfg, medium);
      var base := cfg.board.Base(1 - slot);
      var pending := Pending(cfg, CopyAt(medium, cfg.board.Base(slot))[4], rs);
      CopyAt(Landed(medium, base, pending, which), base) != pending
  {
    hide CopyAt, Image, Decoded, Tidy, ValidCopy, Slot, Landed, Text;
    NewestValid(cfg, medium);
    var slot := Newest(cfg, medium);
    OtherReplaced(cfg.crc, CopyAt(medium, cfg.board.Base(slot)), rs);
    TornWriteAtomic(cfg, medium, slot, rs, which);
  }

  /**
  When a persist succeeds, when power ends it, and what is durable then: it succeeds only if every stage the
  board has reports success and the readback is the copy written.
  */
  lemma PersistOutcome(cfg: Config, medium: Medium, slot: int, flag: Byte, rs: seq<Record>, o: Oracle)
    requires cfg.board.Fits(medium) && (slot == 0 || slot == 1)
    ensures var s, base := Persist(cfg, medium, slot, flag, rs, o), cfg.board.Base(1 - slot);
      var written := o.cut != AtWrite && o.writeDone;
      var flushed := written && (cfg.board.cached ==> o.cut != AtFlush && o.flushDone);
      && (!WellFormed(rs) ==> s == Store(medium, [], Refused))
      && (WellFormed(rs) ==>
        var pending := Pending(cfg, flag, rs);
        var view := Landed(medium, base, pending, o.accepted);
        && s.medium == (if flushed then view else Landed(medium, base, pending, Settled(cfg, o)))
        && (s.status == Persisted <==>
              flushed && o.cut != AtReadback && o.readback == ReadDone && CopyAt(view, base) == pending)
        && (s.status == Cut <==>
              || o.cut == AtWrite
              || (written && cfg.board.cached && o.cut == AtFlush)
              || (flushed && o.cut == AtReadback)))
  {
  }

  // ----- one boot -----

  /** The records after the selected entry spends an attempt, or a confirmed one is retired. */
  function Spend(rs: seq<Record>, i: int): (after: seq<Record>)
    requires 0 <= i < |rs|
  {
    rs[i := rs[i].(tries := if rs[i].tries > 0 then rs[i].tries - 1 else 0)]
  }

  /** The part of a boot from the launch on; tries is the selected entry's counter as it then stands. */
  function LaunchPhase(cfg: Config, medium: Medium, slot: int, flag: Byte, rs: seq<Record>, i: int,
                       log: seq<Event>, o: Oracle): (b: Boot)
    requires cfg.board.Fits(medium) && (slot == 0 || slot == 1) && 0 <= i < |rs|
    ensures |b.medium| == |medium|
  {
    if o.cut == AtLoad then Boot(medium, log, PowerLost)
    else
      var log := if o.launch == NotLoaded then log else log + [Launched(i)];
      if o.launch == TookOver then Boot(medium, log, Running)
      else if rs[i].tries < 0 then
        var s := Persist(cfg, medium, slot, flag, Spend(rs, i), o);
        var end := match s.status case Persisted => Reset case Refused => Recovery(NotRetired) case Cut => PowerLost;
        Boot(s.medium, log + s.log, end)
      else Boot(medium, log, Reset)
  }

  /** mica_file_boot from the first read of the environment on. */
  ghost function BootOnce(cfg: Config, medium: Medium, o: Oracle): (b: Boot)
    requires cfg.board.Fits(medium)
    ensures cfg.board.Fits(b.medium)
  {
    var slot := SlotSeen(cfg, medium, o);
    if o.cut == AtRead then Boot(medium, [], PowerLost)
    else if slot < 0 then Boot(medium, [], Recovery(InvalidEnvironment))
    else
      var copy := CopyAt(medium, cfg.board.Base(slot));
      var read := Decoded(copy);
      if read.None? then Boot(medium, [], Recovery(InvalidEnvironment))
      else
        var rs := read.value;
        var i := Next(rs);
        if i < 0 then Boot(medium, [], Recovery(NoneLeft))
        else if rs[i].tries > 0 then
          var s := Persist(cfg, medium, slot, copy[4], Spend(rs, i), o);
          match s.status
          case Persisted => LaunchPhase(cfg, s.medium, slot, copy[4], Spend(rs, i), i, s.log, o)
          case Refused => Boot(s.medium, s.log, Recovery(AttemptNotPersisted))
          case Cut => Boot(s.medium, s.log, PowerLost)
        else LaunchPhase(cfg, medium, slot, copy[4], rs, i, [], o)
  }

  lemma SpendKeepsForm(rs: seq<Record>, i: int)
    requires WellFormed(rs) && 0 <= i < |rs|
    ensures WellFormed(Spend(rs, i))
  {
  }

  /** How the events of one boot can go: at most one write, to the spare slot, in one of these orders. */
  ghost predicate SafeLog(log: seq<Event>, spare: int, i: int, tries: int) {
    if tries > 0 then
      log <= [Wrote(spare), Verified, Launched(i)]
    else
      log <= [Wrote(spare), Verified] || log <= [Launched(i), Wrote(spare), Verified]
  }

  /** A launch phase adds at most a launch, and writes only to retire a confirmed entry. */
  lemma LaunchForm(cfg: Config, medium: Medium, slot: int, flag: Byte, rs: seq<Record>, i: int,
                   log: seq<Event>, o: Oracle)
    requires cfg.board.Fits(medium) && (slot == 0 || slot == 1) && 0 <= i < |rs|
    ensures var b := LaunchPhase(cfg, medium, slot, flag, rs, i, log, o);
      && (rs[i].tries >= 0 ==>
        && b.medium == medium && (b.log == log || b.log == log + [Launched(i)])
        && (b.end == PowerLost || b.end == Running || b.end == Reset))
      && (rs[i].tries < 0 && log == [] ==>
        && SafeLog(b.log, 1 - slot, i, rs[i].tries)
        && var s := Persist(cfg, medium, slot, flag, Spend(rs, i), o);
        && (b.medium == medium || b.medium == s.medium)
        && (b.end == Reset ==> b.medium == s.medium && s.status == Persisted)
        && (b.end == PowerLost || b.end == Running || b.end == Reset || b.end == Recovery(NotRetired)))
  {
    hide CopyAt, Landed, Pending, WellFormed, Persist, Spend, Settled;
    PersistForm(cfg, medium, slot, flag, Spend(rs, i), o);
  }

  /**
  One safe write per boot, whatever the medium holds and the hardware does: at most one environment write,
  to the slot not selected, and an entry with attempts is launched only after the readback matched.
  */
  lemma OneSafeWrite(cfg: Config, medium: Medium, o: Oracle)
    requires cfg.board.Fits(medium)
    ensures var b := BootOnce(cfg, medium, o);
      var slot := SlotSeen(cfg, medium, o);
      b.log == [] ||
      (&& slot >= 0
       && var read := Decoded(CopyAt(medium, cfg.board.Base(slot)));
       && read.Some?
       && var i := Next(read.value);
       && i >= 0
       && SafeLog(b.log, 1 - slot, i, read.value[i].tries))
  {
    hide CopyAt, Landed, Pending, Decoded, ValidCopy, Persist, LaunchPhase, SlotSeen;
    var slot := SlotSeen(cfg, medium, o);
    if slot >= 0 {
      var copy := CopyAt(medium, cfg.board.Base(slot));
      if Decoded(copy).Some? && Next(Decoded(copy).value) >= 0 {
        var rs := Decoded(copy).value;
        var i := Next(rs);
        PersistForm(cfg, medium, slot, copy[4], Spend(rs, i), o);
        var s := Persist(cfg, medium, slot, copy[4], Spend(rs, i), o);
        LaunchForm(cfg, s.medium, slot, copy[4], Spend(rs, i), i, s.log, o);
        LaunchForm(cfg, medium, slot, copy[4], rs, i, [], o);
      }
    }
  }

  /** Every block outside one region is the same. */
  ghost predicate SameOutside(medium: Medium, after: Medium, base: nat) {
    && |after| == |medium|
    && forall k :: 0 <= k < |medium| && !(base <= k < base + ENV_BLOCKS) ==> after[k] == medium[k]
  }

  lemma PersistOutside(cfg: Config, medium: Medium, slot: int, flag: Byte, rs: seq<Record>, o: Oracle)
    requires cfg.board.Fits(medium) && (slot == 0 || slot == 1)
    ensures SameOutside(medium, Persist(cfg, medium, slot, flag, rs, o).medium, cfg.board.Base(1 - slot))
  {
  }

  /** Nothing outside the region of the copy not selected is ever written. */
  lemma OnlySpareWritten(cfg: Config, medium: Medium, o: Oracle)
    requires cfg.board.Fits(medium)
    ensures var b, slot := BootOnce(cfg, medium, o), SlotSeen(cfg, medium, o);
      if slot < 0 then b.medium == medium else SameOutside(medium, b.medium, cfg.board.Base(1 - slot))
  {
    hide CopyAt, Landed, Pending, Decoded, ValidCopy, Persist, LaunchPhase, SlotSeen;
    var slot := SlotSeen(cfg, medium, o);
    if slot >= 0 {
      var copy := CopyAt(medium, cfg.board.Base(slot));
      if Decoded(copy).Some? && Next(Decoded(copy).value) >= 0 {
        var rs := Decoded(copy).value;
        var i := Next(rs);
        PersistOutside(cfg, medium, slot, copy[4], Spend(rs, i), o);
        var s := Persist(cfg, medium, slot, copy[4], Spend(rs, i), o);
        LaunchForm(cfg, s.medium, slot, copy[4], Spend(rs, i), i, s.log, o);
        LaunchForm(cfg, medium, slot, copy[4], rs, i, [], o);
      }
    }
  }

  function LaunchCount(log: seq<Event>, i: int): (n: nat) {
    multiset(log)[Launched(i)]
  }

  /** What one boot may do to the register, with no copies, flags or sectors in sight. */
  ghost predicate RegisterStep(rs: seq<Record>, b: Boot, after: seq<Record>) {
    var i := Next(rs);
    && (after == rs || (i >= 0 && after == Spend(rs, i)))
    && (i < 0 || b.end == Recovery(InvalidEnvironment) ==> b.log == [] && after == rs)
    && (i < 0 ==> b.end == Recovery(NoneLeft) || b.end == Recovery(InvalidEnvironment) || b.end == PowerLost)
    && (forall j :: LaunchCount(b.log, j) <= if j == i then 1 else 0)
    && (i >= 0 && rs[i].tries > 0 && LaunchCount(b.log, i) > 0 ==> after == Spend(rs, i))
    && (b.end == Reset ==> i >= 0 && after == Spend(rs, i))
    && (b.end == Recovery(NoneLeft) ==> i < 0)
  }

  /** A safe log launches at most the selected entry, once, and one with attempts only after the readback. */
  lemma SafeLogLaunches(log: seq<Event>, spare: int, i: int, tries: int)
    requires SafeLog(log, spare, i, tries)
    ensures forall j :: LaunchCount(log, j) <= if j == i then 1 else 0
    ensures tries > 0 && LaunchCount(log, i) > 0 ==> log == [Wrote(spare), Verified, Launched(i)]
  {
    PrefixesOfThree(log, Wrote(spare), Verified, Launched(i));
    PrefixesOfThree(log, Launched(i), Wrote(spare), Verified);
    assert log <= [Wrote(spare), Verified] ==> log == [] || log == [Wrote(spare)] || log == [Wrote(spare), Verified];
  }

  lemma PrefixesOfThree(log: seq<Event>, a: Event, b: Event, c: Event)
    ensures log <= [a, b, c] ==> log == [] || log == [a] || log == [a, b] || log == [a, b, c]
  {
  }

  /** A persist's log launches nothing, and a launch before or behind it is one launch. */
  lemma PersistLogs(log: seq<Event>, slot: int)
    requires log <= [Wrote(1 - slot), Verified]
    ensures forall i :: LaunchCount(log, i) == 0
    ensures forall i :: LaunchCount(log + [Launched(i)], i) == 1 && LaunchCount([Launched(i)] + log, i) == 1
  {
    assert log == [] || log == [Wrote(1 - slot)] || log == [Wrote(1 - slot), Verified];
  }

  lemma LaunchOutcome(cfg: Config, medium: Medium, slot: int, flag: Byte, rs: seq<Record>, i: int,
                      log: seq<Event>, o: Oracle)
    requires cfg.board.Fits(medium) && (slot == 0 || slot == 1) && 0 <= i < |rs|
    requires log <= [Wrote(1 - slot), Verified] && (rs[i].tries < 0 ==> log == [])
    ensures var b := LaunchPhase(cfg, medium, slot, flag, rs, i, log, o);
      var persisted := Persist(cfg, medium, slot, flag, Spend(rs, i), o).status;
      && LaunchCount(b.log, i) == (if o.cut != AtLoad && o.launch != NotLoaded then 1 else 0)
      && b.end ==
        if o.cut == AtLoad then PowerLost
        else if o.launch == TookOver then Running
        else if rs[i].tries >= 0 || persisted == Persisted then Reset
        else if persisted == Refused then Recovery(NotRetired)
        else PowerLost
  {
    hide CopyAt, Landed, Pending, WellFormed, Persist, Spend, Settled, LaunchCount;
    PersistForm(cfg, medium, slot, flag, Spend(rs, i), o);
    PersistLogs(log, slot);
    var s := Persist(cfg, medium, slot, flag, Spend(rs, i), o);
    PersistLogs(s.log, slot);
    assert log == [] ==> log + [Launched(i)] == [Launched(i)] && log + s.log == s.log;
  }

  /**
  How a boot ends and whether it launches, as exact conditions: an entry with attempts is launched if and only
  if its counter was persisted and an image was loaded, and a boot resets if and only if the counter was
  persisted, for a confirmed entry after the launch, and nothing took over.
  */
  lemma BootOutcome(cfg: Config, medium: Medium, o: Oracle)
    requires cfg.board.Fits(medium)
    ensures var b, slot := BootOnce(cfg, medium, o), SlotSeen(cfg, medium, o);
      var read := if slot < 0 then None else Decoded(CopyAt(medium, cfg.board.Base(slot)));
      && (b.end == Recovery(InvalidEnvironment) <==> o.cut != AtRead && read.None?)
      && (b.end == Recovery(NoneLeft) <==> o.cut != AtRead && read.Some? && Next(read.value) < 0)
      && (o.cut == AtRead || read.None? || Next(read.value) < 0 ==> b.medium == medium && b.log == [])
      && (o.cut != AtRead && read.Some? && Next(read.value) >= 0 ==>
        var rs, flag := read.value, CopyAt(medium, cfg.board.Base(slot))[4];
        var i := Next(rs);
        var persisted := Persist(cfg, medium, slot, flag, Spend(rs, i), o).status;
        var reached := o.cut != AtLoad && (rs[i].tries > 0 ==> persisted == Persisted);
        && LaunchCount(b.log, i) == (if reached && o.launch != NotLoaded then 1 else 0)
        && (b.end == Running <==> reached && o.launch == TookOver)
        && (b.end == Reset <==> reached && o.launch != TookOver && persisted == Persisted)
        && (b.end == Recovery(AttemptNotPersisted) <==> rs[i].tries > 0 && persisted == Refused)
        && (b.end == Recovery(NotRetired) <==>
              reached && rs[i].tries < 0 && o.launch != TookOver && persisted == Refused))
  {
    hide CopyAt, Landed, Pending, Decoded, ValidCopy, Persist, SlotSeen, NextFrom, WellFormed, Settled, LaunchPhase,
      LaunchCount;
    var slot := SlotSeen(cfg, medium, o);
    if slot >= 0 && Decoded(CopyAt(medium, cfg.board.Base(slot))).Some? {
      var rs, flag := Decoded(CopyAt(medium, cfg.board.Base(slot))).value, CopyAt(medium, cfg.board.Base(slot))[4];
      var i := Next(rs);
      if i >= 0 {
        var s := Persist(cfg, medium, slot, flag, Spend(rs, i), o);
        PersistForm(cfg, medium, slot, flag, Spend(rs, i), o);
        PersistLogs(s.log, slot);
        PersistLogs([], slot);
        LaunchOutcome(cfg, medium, slot, flag, rs, i, [], o);
        LaunchOutcome(cfg, s.medium, slot, flag, Spend(rs, i), i, s.log, o);
      }
    }
  }

  /** With the newest copy readable, a boot works on the stored records and their slot. */
  lemma BootUnfolds(cfg: Config, medium: Medium, o: Oracle)
    requires Sound(cfg, medium) && Reliable(cfg, medium, o) && o.cut != AtRead
    ensures var b, rs, slot := BootOnce(cfg, medium, o), Stored(cfg, medium).value, Newest(cfg, medium);
      var i, flag := Next(rs), CopyAt(medium, cfg.board.Base(slot))[4];
      && slot >= 0
      && (i < 0 ==> b == Boot(medium, [], Recovery(NoneLeft)))
      && (i >= 0 ==> SafeLog(b.log, 1 - slot, i, rs[i].tries))
      && (i >= 0 && rs[i].tries > 0 ==>
        var s := Persist(cfg, medium, slot, flag, Spend(rs, i), o);
        b == match s.status
             case Persisted => LaunchPhase(cfg, s.medium, slot, flag, Spend(rs, i), i, s.log, o)
             case Refused => Boot(s.medium, s.log, Recovery(AttemptNotPersisted))
             case Cut => Boot(s.medium, s.log, PowerLost))
      && (i >= 0 && rs[i].tries < 0 ==> b == LaunchPhase(cfg, medium, slot, flag, rs, i, [], o))
  {
    hide CopyAt, Decoded, ValidCopy, Slot, Persist, LaunchPhase, WellFormed;
    SeesNewestIff(cfg, medium, o);
    OneSafeWrite(cfg, medium, o);
    assert [] <= [Wrote(1 - Newest(cfg, medium)), Verified];
  }

  /** The attempt path: the launch comes after the persist, so a launch means the counter is down. */
  lemma AttemptRefines(cfg: Config, medium: Medium, o: Oracle)
    requires Sound(cfg, medium) && Reliable(cfg, medium, o) && o.cut != AtRead
    requires var rs := Stored(cfg, medium).value; Next(rs) >= 0 && rs[Next(rs)].tries > 0
    ensures var b := BootOnce(cfg, medium, o);
      && Sound(cfg, b.medium)
      && RegisterStep(Stored(cfg, medium).value, b, Stored(cfg, b.medium).value)
  {
    hide CopyAt, Persist, LaunchPhase, Stored, SafeLog, WellFormed, BootOnce, NextFrom, Landed, Pending, Settled,
      Decoded, ValidCopy, Tidy, SlotSeen;
    BootUnfolds(cfg, medium, o);
    var rs := Stored(cfg, medium).value;
    var slot, i := Newest(cfg, medium), Next(rs);
    var flag := CopyAt(medium, cfg.board.Base(slot))[4];
    var b, s := BootOnce(cfg, medium, o), Persist(cfg, medium, slot, flag, Spend(rs, i), o);
    SafeLogLaunches(b.log, 1 - slot, i, rs[i].tries);
    SpendKeepsForm(rs, i);
    NewestValid(cfg, medium);
    PersistAtomic(cfg, medium, slot, Spend(rs, i), o);
    PersistForm(cfg, medium, slot, flag, Spend(rs, i), o);
    if s.status == Persisted {
      LaunchForm(cfg, s.medium, slot, flag, Spend(rs, i), i, s.log, o);
    }
  }

  /** The confirmed path: the launch comes first, and a reset means the entry was retired. */
  lemma ConfirmedRefines(cfg: Config, medium: Medium, o: Oracle)
    requires Sound(cfg, medium) && Reliable(cfg, medium, o) && o.cut != AtRead
    requires var rs := Stored(cfg, medium).value; Next(rs) >= 0 && rs[Next(rs)].tries < 0
    ensures var b := BootOnce(cfg, medium, o);
      && Sound(cfg, b.medium)
      && RegisterStep(Stored(cfg, medium).value, b, Stored(cfg, b.medium).value)
  {
    hide CopyAt, Persist, LaunchPhase, Stored, SafeLog, WellFormed, BootOnce, NextFrom, Landed, Pending, Settled,
      Decoded, ValidCopy, Tidy, SlotSeen;
    BootUnfolds(cfg, medium, o);
    var rs := Stored(cfg, medium).value;
    var slot, i := Newest(cfg, medium), Next(rs);
    var flag := CopyAt(medium, cfg.board.Base(slot))[4];
    SafeLogLaunches(BootOnce(cfg, medium, o).log, 1 - slot, i, rs[i].tries);
    SpendKeepsForm(rs, i);
    NewestValid(cfg, medium);
    PersistAtomic(cfg, medium, slot, Spend(rs, i), o);
    LaunchForm(cfg, medium, slot, flag, rs, i, [], o);
  }

  /**
  A boot leaves the medium alone, or as one persist leaves it that starts from the valid copy selected and
  spends its next entry.
  */
  lemma BootWrites(cfg: Config, medium: Medium, o: Oracle)
    requires cfg.board.Fits(medium)
    ensures var b, slot := BootOnce(cfg, medium, o), SlotSeen(cfg, medium, o);
      b.medium == medium ||
      (&& slot >= 0 && o.cut != AtRead
       && var copy := CopyAt(medium, cfg.board.Base(slot));
       && ValidCopy(cfg.crc, copy) && Decoded(copy).Some?
       && var rs := Decoded(copy).value;
       && Next(rs) >= 0
       && b.medium == Persist(cfg, medium, slot, copy[4], Spend(rs, Next(rs)), o).medium)
  {
    hide CopyAt, Landed, Pending, Decoded, ValidCopy, Persist, LaunchPhase;
    var slot := SlotSeen(cfg, medium, o);
    if slot >= 0 {
      var copy := CopyAt(medium, cfg.board.Base(slot));
      if Decoded(copy).Some? && Next(Decoded(copy).value) >= 0 {
        var rs := Decoded(copy).value;
        var i := Next(rs);
        var s := Persist(cfg, medium, slot, copy[4], Spend(rs, i), o);
        LaunchForm(cfg, s.medium, slot, copy[4], Spend(rs, i), i, s.log, o);
        LaunchForm(cfg, medium, slot, copy[4], rs, i, [], o);
      }
    }
  }

  /** Every boot keeps the medium sound: with torn writes and power cuts, and with a fallback as well. */
  lemma BootKeepsSound(cfg: Config, medium: Medium, o: Oracle)
    requires Sound(cfg, medium)
    ensures Sound(cfg, BootOnce(cfg, medium, o).medium)
  {
    hide CopyAt, Decoded, ValidCopy, Tidy, Persist, BootOnce, Stored, SlotSeen, NextFrom, WellFormed;
    BootWrites(cfg, medium, o);
    if BootOnce(cfg, medium, o).medium != medium {
      var slot := SlotSeen(cfg, medium, o);
      var rs := Decoded(CopyAt(medium, cfg.board.Base(slot))).value;
      SpendKeepsForm(rs, Next(rs));
      PersistAtomic(cfg, medium, slot, Spend(rs, Next(rs)), o);
    }
  }

  /**
  Refinement: unless it falls back to an older copy, one boot over two torn-prone copies is one register
  step. A boot that can read neither copy, or only one it cannot use, changes nothing.
  */
  lemma BootRefines(cfg: Config, medium: Medium, o: Oracle)
    requires Sound(cfg, medium) && !FallsBack(cfg, medium, o)
    ensures var b := BootOnce(cfg, medium, o);
      && Sound(cfg, b.medium)
      && RegisterStep(Stored(cfg, medium).value, b, Stored(cfg, b.medium).value)
  {
    hide CopyAt, Decoded, Persist, LaunchPhase, WellFormed, SlotSeen, Reliable;
    if o.cut != AtRead && SlotSeen(cfg, medium, o) == Newest(cfg, medium) {
      SeesNewestIff(cfg, medium, o);
      BootUnfolds(cfg, medium, o);
      var rs := Stored(cfg, medium).value;
      if Next(rs) >= 0 {
        if rs[Next(rs)].tries > 0 {
          AttemptRefines(cfg, medium, o);
        } else {
          ConfirmedRefines(cfg, medium, o);
        }
      }
    } else {
      assert BootOnce(cfg, medium, o).medium == medium && BootOnce(cfg, medium, o).log == [];
    }
  }

  /** A boot that reads the newest copy does not fall back. */
  lemma ReliableKeepsNewest(cfg: Config, medium: Medium, o: Oracle)
    requires Sound(cfg, medium) && Reliable(cfg, medium, o)
    ensures !FallsBack(cfg, medium, o)
  {
    SeesNewestIff(cfg, medium, o);
  }
}

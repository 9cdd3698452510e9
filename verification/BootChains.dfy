/**
Runs with any failures at all, fallbacks to the older copy included. On a medium where the older copy is what
the newest one came from, as on every medium the loader writes or the installer prepares, a fallback repeats
the last step of the register instead of taking another one.
*/
module BootChains {
  import opened Bytes
  import opened Records
  import opened Environment
  import opened Disk
  import opened BootProtocol
  import opened BootRuns

  /** The newest copy came from the other one, unless that one cannot be used. */
  ghost predicate Chained(cfg: Config, medium: Medium) {
    && Sound(cfg, medium)
    && var spare := CopyAt(medium, cfg.board.Base(1 - Newest(cfg, medium)));
    ValidCopy(cfg.crc, spare) && Decoded(spare).Some? ==>
      var rs := Decoded(spare).value;
      Next(rs) >= 0 && Stored(cfg, medium) == Some(Spend(rs, Next(rs)))
  }

  /** An installed list with an erased spare is such a medium: zeros do not decode. */
  lemma InstalledIsChained(cfg: Config, medium: Medium, rs: seq<Record>, all: set<int>)
    requires cfg.board.Fits(medium) && WellFormed(rs)
    requires forall k :: 0 <= k < ENV_BLOCKS ==> k in all
    ensures |Text(rs)| <= VALUE_LIMIT
    ensures var erased := Landed(medium, cfg.board.second, Zeros(ENV_SIZE), all);
      var after := Landed(erased, cfg.board.first, Image(cfg.crc, 1, Text(rs)), all);
      Chained(cfg, after) && Stored(cfg, after) == Some(rs)
  {
    hide CopyAt, Landed, ValidCopy, Decoded, Image, Sound, Stored, Newest;
    InstalledIsSound(cfg, medium, rs, all);
    ZerosDecodeNot();
  }

  lemma ZerosDecodeNot()
    ensures Decoded(Zeros(ENV_SIZE)).None?
  {
    var copy: Copy := Zeros(ENV_SIZE);
    assert copy[5] == 0;
  }

  /** Whatever a medium held before, once a write of the loader lands it is chained. */
  lemma WriteChains(cfg: Config, medium: Medium, o: Oracle)
    requires Sound(cfg, medium)
    ensures var b := BootOnce(cfg, medium, o);
      || (&& Stored(cfg, b.medium) == Stored(cfg, medium) && Newest(cfg, b.medium) == Newest(cfg, medium)
          && First(cfg, b.medium) == First(cfg, medium) && Second(cfg, b.medium) == Second(cfg, medium))
      || (&& Chained(cfg, b.medium) && o.cut != AtRead
          && SlotSeen(cfg, medium, o) >= 0
          && var read := Decoded(CopyAt(medium, cfg.board.Base(SlotSeen(cfg, medium, o))));
          && read.Some? && Next(read.value) >= 0
          && ValidCopy(cfg.crc, CopyAt(medium, cfg.board.Base(SlotSeen(cfg, medium, o))))
          && Stored(cfg, b.medium) == Some(Spend(read.value, Next(read.value))))
  {
    hide CopyAt, Decoded, ValidCopy, Tidy, Persist, BootOnce, SlotSeen, NextFrom, WellFormed, Landed, Pending, Settled,
      Stored, Newest;
    BootWrites(cfg, medium, o);
    BootKeepsSound(cfg, medium, o);
    if BootOnce(cfg, medium, o).medium != medium {
      var slot := SlotSeen(cfg, medium, o);
      var copy := CopyAt(medium, cfg.board.Base(slot));
      var rs := Decoded(copy).value;
      var once := Spend(rs, Next(rs));
      SpendKeepsForm(rs, Next(rs));
      PersistForm(cfg, medium, slot, copy[4], once, o);
      TornWriteAtomic(cfg, medium, slot, once, o.accepted);
      TornWriteAtomic(cfg, medium, slot, once, Settled(cfg, o));
    }
  }

  /** Any boot keeps the chain and takes at most one step of the register; a fallback takes none. */
  lemma AnyBoot(cfg: Config, medium: Medium, o: Oracle)
    requires Chained(cfg, medium)
    ensures var rs, after := Stored(cfg, medium).value, BootOnce(cfg, medium, o).medium;
      && Chained(cfg, after)
      && (Stored(cfg, after) == Some(rs)
          || (!FallsBack(cfg, medium, o) && Next(rs) >= 0 && Stored(cfg, after) == Some(Spend(rs, Next(rs)))))
  {
    hide CopyAt, Decoded, ValidCopy, BootOnce, SlotSeen, NextFrom, WellFormed, Tidy, Spend, Slot;
    WriteChains(cfg, medium, o);
  }

  // ----- the register over any run -----

  /**
  From a chained medium the two-copy store is a single register under every failure: after any run of boots
  it holds the initial records with some number of selected entries spent, at most one per boot.
  */
  lemma {:induction false} AnyRunIsRegister(cfg: Config, medium: Medium, os: seq<Oracle>) returns (n: nat)
    requires Chained(cfg, medium)
    ensures n <= |os| && Chained(cfg, Final(cfg, medium, os))
    ensures Stored(cfg, Final(cfg, medium, os)) == Some(Spent(Stored(cfg, medium).value, n))
    decreases |os|
  {
    hide BootOnce, Stored, Spend, FallsBack, NextFrom;
    if os == [] {
      n := 0;
    } else {
      AnyBoot(cfg, medium, os[0]);
      var b := BootOnce(cfg, medium, os[0]);
      n := AnyRunIsRegister(cfg, b.medium, os[1..]);
      if Stored(cfg, b.medium) != Stored(cfg, medium) {
        n := n + 1;
      }
    }
  }

  /** Ids, kernels, generations, count and order never change, and an exhausted entry stays exhausted. */
  lemma AnyRunAges(cfg: Config, medium: Medium, os: seq<Oracle>)
    requires Chained(cfg, medium)
    ensures Chained(cfg, Final(cfg, medium, os))
    ensures Aged(Stored(cfg, medium).value, Stored(cfg, Final(cfg, medium, os)).value)
  {
    hide Aged, Spent, Stored;
    var n := AnyRunIsRegister(cfg, medium, os);
    SpentAged(Stored(cfg, medium).value, n);
  }

  // ----- the bounds over any run -----

  /** How many boots of the run fall back. */
  ghost function FallbackCount(cfg: Config, medium: Medium, os: seq<Oracle>): (n: nat)
    requires cfg.board.Fits(medium)
    decreases |os|
  {
    if os == [] then 0
    else
      (if FallsBack(cfg, medium, os[0]) then 1 else 0)
      + FallbackCount(cfg, BootOnce(cfg, medium, os[0]).medium, os[1..])
  }

  /** Whatever a boot does, it launches an entry at most once. */
  lemma LaunchesOnce(cfg: Config, medium: Medium, o: Oracle)
    requires cfg.board.Fits(medium)
    ensures forall j :: LaunchCount(BootOnce(cfg, medium, o).log, j) <= 1
  {
    hide CopyAt, Decoded, BootOnce, SlotSeen, NextFrom, SafeLog;
    OneSafeWrite(cfg, medium, o);
    var log := BootOnce(cfg, medium, o).log;
    if log != [] {
      var slot := SlotSeen(cfg, medium, o);
      var rs := Decoded(CopyAt(medium, cfg.board.Base(slot))).value;
      SafeLogLaunches(log, 1 - slot, Next(rs), rs[Next(rs)].tries);
    }
  }

  /** One boot moves each bound by no more than a fallback. */
  lemma AnyBootCounts(cfg: Config, medium: Medium, o: Oracle, i: int)
    requires Chained(cfg, medium)
    ensures var b, rs := BootOnce(cfg, medium, o), Stored(cfg, medium).value;
      var more := if FallsBack(cfg, medium, o) then 1 else 0;
      && Chained(cfg, b.medium)
      && var after := Stored(cfg, b.medium).value;
      && |after| == |rs|
      && (0 <= i < |rs| && rs[i].tries >= 0 ==>
        after[i].tries >= 0 && LaunchCount(b.log, i) + after[i].tries <= rs[i].tries + more)
      && (if b.end == Reset then 1 else 0) + Weight(after) <= Weight(rs) + more
  {
    hide BootOnce, Stored, FallsBack, NextFrom, LaunchCount, Weight;
    AnyBoot(cfg, medium, o);
    LaunchesOnce(cfg, medium, o);
    if !FallsBack(cfg, medium, o) {
      BootRefines(cfg, medium, o);
    }
    var rs := Stored(cfg, medium).value;
    if Next(rs) >= 0 {
      SpendWeight(rs, Next(rs));
    }
  }

  /** Over any run, every fallback can cost one launch beyond the attempts, and nothing else can. */
  lemma {:induction false} AnyRunLaunches(cfg: Config, medium: Medium, os: seq<Oracle>, i: nat)
    requires Chained(cfg, medium)
    requires i < |Stored(cfg, medium).value| && Stored(cfg, medium).value[i].tries >= 0
    ensures Chained(cfg, Final(cfg, medium, os)) && i < |Stored(cfg, Final(cfg, medium, os)).value|
    ensures Stored(cfg, Final(cfg, medium, os)).value[i].tries >= 0
    ensures Launches(Run(cfg, medium, os), i) + Stored(cfg, Final(cfg, medium, os)).value[i].tries
         <= Stored(cfg, medium).value[i].tries + FallbackCount(cfg, medium, os)
    decreases |os|
  {
    hide BootOnce, Stored, FallsBack, Weight, LaunchCount, Tidy, Newest;
    if os != [] {
      AnyBootCounts(cfg, medium, os[0], i);
      var b := BootOnce(cfg, medium, os[0]);
      AnyRunLaunches(cfg, b.medium, os[1..], i);
      assert Run(cfg, medium, os)[1..] == Run(cfg, b.medium, os[1..]);
    }
  }

  /** Over any run, every fallback can cost one reset beyond the weight, and nothing else can. */
  lemma {:induction false} AnyRunResets(cfg: Config, medium: Medium, os: seq<Oracle>)
    requires Chained(cfg, medium)
    ensures Chained(cfg, Final(cfg, medium, os))
    ensures 0 <= Weight(Stored(cfg, Final(cfg, medium, os)).value)
    ensures Resets(Run(cfg, medium, os)) + Weight(Stored(cfg, Final(cfg, medium, os)).value)
         <= Weight(Stored(cfg, medium).value) + FallbackCount(cfg, medium, os)
    decreases |os|
  {
    hide BootOnce, Stored, FallsBack, Weight, LaunchCount, Tidy, Newest;
    if os == [] {
      WeightNatural(Stored(cfg, medium).value);
    } else {
      AnyBootCounts(cfg, medium, os[0], 0);
      var b := BootOnce(cfg, medium, os[0]);
      AnyRunResets(cfg, b.medium, os[1..]);
      assert Run(cfg, medium, os)[1..] == Run(cfg, b.medium, os[1..]);
    }
  }

  /** The two boards, each with a device that reaches past its two regions. */
  predicate Shipped(board: Board, medium: Medium) {
    (board == CX3576 && |medium| >= 34944) || (board == S905X5M && |medium| >= 254080)
  }

  /**
  On either board: install any well-formed list, boot as often as you like with any failures, and the store
  still holds that list with counters only lowered, and no entry was launched more often than it had
  attempts and boots fell back.
  */
  lemma BothBoards(cfg: Config, medium: Medium, rs: seq<Record>, all: set<int>, os: seq<Oracle>)
    requires Shipped(cfg.board, medium) && WellFormed(rs)
    requires forall k :: 0 <= k < ENV_BLOCKS ==> k in all
    ensures cfg.board.Fits(medium) && |Text(rs)| <= VALUE_LIMIT
    ensures var erased := Landed(medium, cfg.board.second, Zeros(ENV_SIZE), all);
      var installed := Landed(erased, cfg.board.first, Image(cfg.crc, 1, Text(rs)), all);
      && Chained(cfg, installed) && Chained(cfg, Final(cfg, installed, os))
      && Aged(rs, Stored(cfg, Final(cfg, installed, os)).value)
      && forall i :: 0 <= i < |rs| && rs[i].tries >= 0 ==>
        Launches(Run(cfg, installed, os), i) <= rs[i].tries + FallbackCount(cfg, installed, os)
  {
    hide Landed, Image, Stored, Sound, Aged, Run, Final, Launches, FallbackCount, Newest;
    TextWidth(rs);
    InstalledIsChained(cfg, medium, rs, all);
    var erased := Landed(medium, cfg.board.second, Zeros(ENV_SIZE), all);
    var installed := Landed(erased, cfg.board.first, Image(cfg.crc, 1, Text(rs)), all);
    AnyRunAges(cfg, installed, os);
    forall i | 0 <= i < |rs| && rs[i].tries >= 0
      ensures Launches(Run(cfg, installed, os), i) <= rs[i].tries + FallbackCount(cfg, installed, os)
    {
      AnyRunLaunches(cfg, installed, os, i);
    }
  }

  // ----- what fallbacks change -----

  /**
  That the older copy is what the newest came from is exactly what the register needs: a healthy boot that
  falls back leaves the stored records alone if and only if it is.
  */
  lemma FallbackKeepsIff(cfg: Config, medium: Medium, o: Oracle)
    requires Sound(cfg, medium) && FallsBack(cfg, medium, o) && HealthyWrite(o) && o.launch == Returned
    requires Next(Decoded(CopyAt(medium, cfg.board.Base(SlotSeen(cfg, medium, o)))).value) >= 0
    ensures Stored(cfg, BootOnce(cfg, medium, o).medium) == Stored(cfg, medium) <==> Chained(cfg, medium)
  {
    hide CopyAt, Decoded, Persist, WellFormed, NextFrom, Landed, Pending, BootOnce, Spend, Settled, Tidy, ValidCopy;
    var slot := SlotSeen(cfg, medium, o);
    var copy := CopyAt(medium, cfg.board.Base(slot));
    var rs := Decoded(copy).value;
    var once := Spend(rs, Next(rs));
    LaunchFromSlot(cfg, medium, slot, rs, o);
    SpendKeepsForm(rs, Next(rs));
    PersistAtomic(cfg, medium, slot, once, o);
  }

  /**
  Without a fallback no boot goes back to a newer entry; this too is exact. While a confirmed entry runs and
  the older copy still selects a newer one, the next healthy boot launches that newer one if and only if it
  falls back, whatever its reads do.
  */
  lemma FallbackReturnsIff(cfg: Config, medium: Medium, first: Oracle, second: Oracle)
    requires Sound(cfg, medium)
    requires var rs := Stored(cfg, medium).value; Next(rs) >= 0 && rs[Next(rs)].tries < 0
    requires var spare := Decoded(CopyAt(medium, cfg.board.Base(1 - Newest(cfg, medium))));
      spare.Some? && 0 <= Next(spare.value) < Next(Stored(cfg, medium).value)
    requires first.readA.ReadDone? && first.readB.ReadDone? && HealthyWrite(first) && first.launch == TookOver
    requires HealthyWrite(second) && second.launch == Returned
    ensures var run, j := Run(cfg, medium, [first, second]), Next(Stored(cfg, medium).value);
      var i := Next(Decoded(CopyAt(medium, cfg.board.Base(1 - Newest(cfg, medium)))).value);
      && i < j && LaunchCount(run[0].log, j) > 0
      && (LaunchCount(run[1].log, i) > 0 <==> FallsBack(cfg, medium, second))
  {
    hide CopyAt, Decoded, Persist, WellFormed, NextFrom, BootOnce, Tidy, ValidCopy, LaunchCount;
    HealthyLaunches(cfg, medium, first);
    RunOfTwoBoots(cfg, medium, first, second);
    if FallsBack(cfg, medium, second) {
      var slot := SlotSeen(cfg, medium, second);
      LaunchFromSlot(cfg, medium, slot, Decoded(CopyAt(medium, cfg.board.Base(slot))).value, second);
    } else {
      BootRefines(cfg, medium, second);
    }
  }

  lemma RunOfTwoBoots(cfg: Config, medium: Medium, first: Oracle, second: Oracle)
    requires cfg.board.Fits(medium)
    ensures var b := BootOnce(cfg, medium, first);
      Run(cfg, medium, [first, second]) == [b, BootOnce(cfg, b.medium, second)]
  {
    hide BootOnce;
    var b := BootOnce(cfg, medium, first);
    assert [first, second][1..] == [second] && [second][1..] == [];
    var again := BootOnce(cfg, b.medium, second);
    assert Run(cfg, b.medium, [second]) == [again] + Run(cfg, again.medium, []);
  }
}

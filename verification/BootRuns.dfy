/**
Whole runs of the boot selector: any number of boots, each with its own faults and power cuts, with no
writer of the environment other than the loader. Every run keeps the medium sound; the bounds hold for all
runs in which no boot falls back to an older copy, and the end of the module proves that condition exact.
*/
module BootRuns {
  import opened Bytes
  import opened Records
  import opened Environment
  import opened Disk
  import opened BootProtocol

  ghost function Run(cfg: Config, medium: Medium, os: seq<Oracle>): (bs: seq<Boot>)
    requires cfg.board.Fits(medium)
    ensures |bs| == |os|
    decreases |os|
  {
    if os == [] then []
    else
      var b := BootOnce(cfg, medium, os[0]);
      [b] + Run(cfg, b.medium, os[1..])
  }

  ghost function Final(cfg: Config, medium: Medium, os: seq<Oracle>): (after: Medium)
    requires cfg.board.Fits(medium)
    ensures cfg.board.Fits(after)
    decreases |os|
  {
    if os == [] then medium else Final(cfg, BootOnce(cfg, medium, os[0]).medium, os[1..])
  }

  /** No boot of the run acts on a copy older than the newest one at its start. */
  ghost predicate NoFallback(cfg: Config, medium: Medium, os: seq<Oracle>)
    requires cfg.board.Fits(medium)
    decreases |os|
  {
    os == [] || (!FallsBack(cfg, medium, os[0]) && NoFallback(cfg, BootOnce(cfg, medium, os[0]).medium, os[1..]))
  }

  /** How often entry i is launched. */
  function Launches(bs: seq<Boot>, i: int): (n: nat) {
    if bs == [] then 0 else LaunchCount(bs[0].log, i) + Launches(bs[1..], i)
  }

  /** How many boots end in the final reset. */
  function Resets(bs: seq<Boot>): (n: nat) {
    if bs == [] then 0 else (if bs[0].end == Reset then 1 else 0) + Resets(bs[1..])
  }

  /** A confirmed entry can fail once; any other entry as often as it has attempts. */
  function Weight(rs: seq<Record>): (w: int) {
    if rs == [] then 0
    else Weight(rs[..|rs| - 1]) + if rs[|rs| - 1].tries < 0 then 1 else rs[|rs| - 1].tries
  }

  // ----- one step -----

  /** The weight of a list with one entry changed. */
  lemma {:induction false} WeightUpdate(rs: seq<Record>, i: int, r: Record)
    requires 0 <= i < |rs|
    ensures Weight(rs[i := r]) - Weight(rs)
         == (if r.tries < 0 then 1 else r.tries) - (if rs[i].tries < 0 then 1 else rs[i].tries)
  {
    var n := |rs| - 1;
    if i < n {
      WeightUpdate(rs[..n], i, r);
      assert rs[i := r][..n] == rs[..n][i := r];
    } else {
      assert rs[i := r][..n] == rs[..n];
    }
  }

  /** Spending takes exactly one from the weight. */
  lemma SpendWeight(rs: seq<Record>, i: int)
    requires 0 <= i < |rs| && rs[i].tries != 0
    ensures Weight(Spend(rs, i)) == Weight(rs) - 1
  {
    WeightUpdate(rs, i, Spend(rs, i)[i]);
  }

  lemma {:induction false} WeightNatural(rs: seq<Record>)
    ensures (forall j :: 0 <= j < |rs| ==> rs[j].tries >= -1) ==> Weight(rs) >= 0
  {
    if rs != [] {
      WeightNatural(rs[..|rs| - 1]);
    }
  }

  /** No weight left means no entry left. */
  lemma {:induction false} WeightZero(rs: seq<Record>)
    requires forall j :: 0 <= j < |rs| ==> rs[j].tries >= -1
    ensures Weight(rs) == 0 <==> forall j :: 0 <= j < |rs| ==> rs[j].tries == 0
  {
    if rs != [] {
      WeightZero(rs[..|rs| - 1]);
      WeightNatural(rs[..|rs| - 1]);
      assert forall j :: 0 <= j < |rs| - 1 ==> rs[..|rs| - 1][j] == rs[j];
    }
  }

  // ----- the register over a run -----

  /** Whatever fails in whichever boot, the next one finds a sound medium. */
  lemma {:induction false} RunKeepsSound(cfg: Config, medium: Medium, os: seq<Oracle>)
    requires Sound(cfg, medium)
    ensures Sound(cfg, Final(cfg, medium, os))
    decreases |os|
  {
    hide BootOnce, Stored;
    if os != [] {
      BootKeepsSound(cfg, medium, os[0]);
      RunKeepsSound(cfg, BootOnce(cfg, medium, os[0]).medium, os[1..]);
    }
  }

  /** The records after n entries were spent, each time the one selected. */
  function Spent(rs: seq<Record>, n: nat): (after: seq<Record>)
    decreases n
  {
    if n == 0 || Next(rs) < 0 then rs else Spent(Spend(rs, Next(rs)), n - 1)
  }

  /**
  The two-copy store is a single register: after any run of boots, with torn writes, refused writes and
  power cuts anywhere, it holds the initial records with some number of selected entries spent.
  */
  lemma {:induction false} RunIsRegister(cfg: Config, medium: Medium, os: seq<Oracle>) returns (n: nat)
    requires Sound(cfg, medium) && NoFallback(cfg, medium, os)
    ensures n <= |os| && Sound(cfg, Final(cfg, medium, os))
    ensures Stored(cfg, Final(cfg, medium, os)) == Some(Spent(Stored(cfg, medium).value, n))
    decreases |os|
  {
    hide BootOnce, Stored, Spend;
    if os == [] {
      n := 0;
    } else {
      BootRefines(cfg, medium, os[0]);
      var b := BootOnce(cfg, medium, os[0]);
      n := RunIsRegister(cfg, b.medium, os[1..]);
      if Stored(cfg, b.medium) != Stored(cfg, medium) {
        n := n + 1;
      }
    }
  }

  /** What may become of the entries: only the counters move, down to zero, and zero stays zero. */
  ghost predicate Aged(rs: seq<Record>, after: seq<Record>) {
    && |after| == |rs|
    && forall j :: 0 <= j < |rs| ==>
      && after[j] == rs[j].(tries := after[j].tries)
      && (rs[j].tries >= 0 ==> 0 <= after[j].tries <= rs[j].tries)
      && (rs[j].tries < 0 ==> after[j].tries == rs[j].tries || after[j].tries == 0)
  }

  lemma {:induction false} SpentAged(rs: seq<Record>, n: nat)
    ensures Aged(rs, Spent(rs, n))
    decreases n
  {
    if n > 0 && Next(rs) >= 0 {
      var once := Spend(rs, Next(rs));
      assert Aged(rs, once);
      SpentAged(once, n - 1);
      var after := Spent(once, n - 1);
      forall j | 0 <= j < |rs|
        ensures after[j] == rs[j].(tries := after[j].tries)
      {
        assert after[j] == once[j].(tries := after[j].tries);
      }
    }
  }

  /** Ids, kernels, generations, count and order never change over any run; an exhausted entry stays exhausted. */
  lemma RunAges(cfg: Config, medium: Medium, os: seq<Oracle>)
    requires Sound(cfg, medium) && NoFallback(cfg, medium, os)
    ensures Sound(cfg, Final(cfg, medium, os))
    ensures Aged(Stored(cfg, medium).value, Stored(cfg, Final(cfg, medium, os)).value)
  {
    var n := RunIsRegister(cfg, medium, os);
    SpentAged(Stored(cfg, medium).value, n);
  }

  /** Every well-formed list can be installed: one valid copy and a zeroed spare make a sound medium. */
  lemma InstalledIsSound(cfg: Config, medium: Medium, rs: seq<Record>, all: set<int>)
    requires cfg.board.Fits(medium) && WellFormed(rs)
    requires forall k :: 0 <= k < ENV_BLOCKS ==> k in all
    ensures |Text(rs)| <= VALUE_LIMIT
    ensures var erased := Landed(medium, cfg.board.second, Zeros(ENV_SIZE), all);
      var after := Landed(erased, cfg.board.first, Image(cfg.crc, 1, Text(rs)), all);
      && Sound(cfg, after) && Stored(cfg, after) == Some(rs)
      && Newest(cfg, after) == 0 && CopyAt(after, cfg.board.second) == Zeros(ENV_SIZE)
  {
    hide CopyAt, Landed, ValidCopy, Decoded, Image;
    ImageReads(cfg.crc, 1, rs);
    var image := Image(cfg.crc, 1, Text(rs));
    var erased := Landed(medium, cfg.board.second, Zeros(ENV_SIZE), all);
    LandedAll(medium, cfg.board.second, Zeros(ENV_SIZE), all);
    LandedAll(erased, cfg.board.first, image, all);
    LandedElsewhere(cfg.board, erased, 1, image, all);
  }

  // ----- launches -----

  /**
  The launch bound: over any run, an entry with k attempts is launched at most k times, and the
  attempts spent and the attempts still stored never exceed k together.
  */
  lemma {:induction false} LaunchBound(cfg: Config, medium: Medium, os: seq<Oracle>, i: nat)
    requires Sound(cfg, medium) && NoFallback(cfg, medium, os)
    requires i < |Stored(cfg, medium).value| && Stored(cfg, medium).value[i].tries >= 0
    ensures Sound(cfg, Final(cfg, medium, os)) && i < |Stored(cfg, Final(cfg, medium, os)).value|
    ensures Stored(cfg, Final(cfg, medium, os)).value[i].tries >= 0
    ensures Launches(Run(cfg, medium, os), i) + Stored(cfg, Final(cfg, medium, os)).value[i].tries
         <= Stored(cfg, medium).value[i].tries
    decreases |os|
  {
    hide BootOnce, Stored;
    if os != [] {
      BootRefines(cfg, medium, os[0]);
      var b := BootOnce(cfg, medium, os[0]);
      LaunchBound(cfg, b.medium, os[1..], i);
      assert Run(cfg, medium, os)[1..] == Run(cfg, b.medium, os[1..]);
    }
  }

  /** Every launched entry has the greatest generation among those durably left with attempts or confirmed. */
  lemma LaunchedIsNewest(cfg: Config, medium: Medium, o: Oracle, i: int)
    requires Sound(cfg, medium) && !FallsBack(cfg, medium, o)
    requires LaunchCount(BootOnce(cfg, medium, o).log, i) > 0
    ensures var rs := Stored(cfg, medium).value;
      && 0 <= i < |rs| && rs[i].tries != 0
      && forall j :: 0 <= j < |rs| && rs[j].tries != 0 ==> rs[j].generation <= rs[i].generation
  {
    hide BootOnce, NextFrom, CopyAt, Decoded;
    BootRefines(cfg, medium, o);
  }

  /** An entry that is exhausted, like all entries before it, is never launched again. */
  lemma {:induction false} NeverBefore(cfg: Config, medium: Medium, os: seq<Oracle>, j: nat, n: nat, i: int)
    requires Sound(cfg, medium) && NoFallback(cfg, medium, os) && n < |os|
    requires j <= |Stored(cfg, medium).value|
    requires forall k :: 0 <= k < j ==> Stored(cfg, medium).value[k].tries == 0
    requires LaunchCount(Run(cfg, medium, os)[n].log, i) > 0
    ensures j <= i
    decreases |os|
  {
    hide BootOnce, Stored, NextFrom;
    BootRefines(cfg, medium, os[0]);
    if n > 0 {
      var b := BootOnce(cfg, medium, os[0]);
      assert Run(cfg, medium, os)[1..] == Run(cfg, b.medium, os[1..]);
      NeverBefore(cfg, b.medium, os[1..], j, n - 1, i);
    }
  }

  /** Fallback goes one way: over any run, no boot launches an entry newer than one launched before. */
  lemma {:induction false} FallbackNeverReturns(cfg: Config, medium: Medium, os: seq<Oracle>,
                                                m: nat, n: nat, j: int, i: int)
    requires Sound(cfg, medium) && NoFallback(cfg, medium, os) && m < n < |os|
    requires LaunchCount(Run(cfg, medium, os)[m].log, j) > 0
    requires LaunchCount(Run(cfg, medium, os)[n].log, i) > 0
    ensures j <= i
    decreases |os|
  {
    hide BootOnce, Stored, NextFrom;
    BootRefines(cfg, medium, os[0]);
    var b := BootOnce(cfg, medium, os[0]);
    assert Run(cfg, medium, os)[1..] == Run(cfg, b.medium, os[1..]);
    if m == 0 {
      NeverBefore(cfg, b.medium, os[1..], j, n - 1, i);
    } else {
      FallbackNeverReturns(cfg, b.medium, os[1..], m - 1, n - 1, j, i);
    }
  }

  // ----- termination -----

  /** Every boot that reaches the final reset takes one from the weight; no boot adds to it. */
  lemma {:induction false} ResetsBounded(cfg: Config, medium: Medium, os: seq<Oracle>)
    requires Sound(cfg, medium) && NoFallback(cfg, medium, os)
    ensures Sound(cfg, Final(cfg, medium, os))
    ensures 0 <= Weight(Stored(cfg, Final(cfg, medium, os)).value)
    ensures Resets(Run(cfg, medium, os)) + Weight(Stored(cfg, Final(cfg, medium, os)).value)
         <= Weight(Stored(cfg, medium).value)
    decreases |os|
  {
    hide BootOnce, Stored, Spend, Weight;
    var rs := Stored(cfg, medium).value;
    if os == [] {
      WeightNatural(rs);
    } else {
      BootRefines(cfg, medium, os[0]);
      if Next(rs) >= 0 {
        SpendWeight(rs, Next(rs));
      }
      var b := BootOnce(cfg, medium, os[0]);
      ResetsBounded(cfg, b.medium, os[1..]);
      assert Run(cfg, medium, os)[1..] == Run(cfg, b.medium, os[1..]);
    }
  }

  /** Writes, flushes and readbacks work, and power stays on. */
  ghost predicate HealthyWrite(o: Oracle) {
    && (forall k :: 0 <= k < ENV_BLOCKS ==> k in o.accepted)
    && o.writeDone && o.flushDone && o.readback.ReadDone?
    && o.cut == Never
  }

  /** The hardware works and every launch fails. */
  ghost predicate HealthyButFailing(o: Oracle) {
    o.readA.ReadDone? && o.readB.ReadDone? && HealthyWrite(o) && o.launch != TookOver
  }

  lemma HealthyPersists(cfg: Config, medium: Medium, slot: int, flag: Byte, rs: seq<Record>, o: Oracle)
    requires cfg.board.Fits(medium) && (slot == 0 || slot == 1) && WellFormed(rs)
    requires HealthyWrite(o)
    ensures var s := Persist(cfg, medium, slot, flag, rs, o);
      s.status == Persisted && s.log == [Wrote(1 - slot), Verified]
  {
    hide CopyAt, Landed, Pending, WellFormed;
    LandedAll(medium, cfg.board.Base(1 - slot), Pending(cfg, flag, rs), o.accepted);
    PersistForm(cfg, medium, slot, flag, rs, o);
  }

  lemma HealthyResets(cfg: Config, medium: Medium, o: Oracle)
    requires Sound(cfg, medium) && HealthyButFailing(o)
    ensures var b := BootOnce(cfg, medium, o);
      b.end == if Next(Stored(cfg, medium).value) < 0 then Recovery(NoneLeft) else Reset
  {
    hide CopyAt, Landed, Pending, WellFormed, Persist, Decoded, ValidCopy, BootOnce, NextFrom, Settled;
    BootUnfolds(cfg, medium, o);
    var rs := Stored(cfg, medium).value;
    var slot, i := Newest(cfg, medium), Next(rs);
    if i >= 0 {
      SpendKeepsForm(rs, i);
      HealthyPersists(cfg, medium, slot, CopyAt(medium, cfg.board.Base(slot))[4], Spend(rs, i), o);
    }
  }

  /** On working hardware the selected entry is launched, once; if it takes over, a confirmed one stays confirmed. */
  lemma HealthyLaunches(cfg: Config, medium: Medium, o: Oracle)
    requires Sound(cfg, medium) && o.readA.ReadDone? && o.readB.ReadDone? && HealthyWrite(o) && o.launch != NotLoaded
    requires Next(Stored(cfg, medium).value) >= 0
    ensures var b, rs := BootOnce(cfg, medium, o), Stored(cfg, medium).value;
      && LaunchCount(b.log, Next(rs)) == 1
      && (o.launch == TookOver <==> b.end == Running)
      && (o.launch == TookOver && rs[Next(rs)].tries < 0 ==> b.medium == medium)
  {
    hide CopyAt, Landed, Pending, WellFormed, Persist, Decoded, ValidCopy, BootOnce, NextFrom, Settled;
    BootUnfolds(cfg, medium, o);
    var rs := Stored(cfg, medium).value;
    var slot, i := Newest(cfg, medium), Next(rs);
    SpendKeepsForm(rs, i);
    HealthyPersists(cfg, medium, slot, CopyAt(medium, cfg.board.Base(slot))[4], Spend(rs, i), o);
    LaunchedOnce(slot, i);
  }

  lemma LaunchedOnce(slot: int, i: int)
    ensures LaunchCount([Launched(i)], i) == 1
    ensures LaunchCount([Wrote(1 - slot), Verified] + [Launched(i)], i) == 1
    ensures LaunchCount([Launched(i)] + [Wrote(1 - slot), Verified], i) == 1
  {
  }

  /**
  Failing boots terminate: on working hardware where every launch fails, exactly as many boots as the
  weight reset, and the next one reports that all deployments are exhausted, with nothing launched.
  */
  lemma {:induction false} FailingRunExhausts(cfg: Config, medium: Medium, os: seq<Oracle>, last: Oracle)
    requires Sound(cfg, medium) && (forall k :: 0 <= k < |os| ==> HealthyButFailing(os[k]))
    requires HealthyButFailing(last)
    requires |os| == Weight(Stored(cfg, medium).value)
    ensures Resets(Run(cfg, medium, os)) == |os|
    ensures var b := BootOnce(cfg, Final(cfg, medium, os), last); b.end == Recovery(NoneLeft) && b.log == []
    decreases |os|
  {
    hide BootOnce, Stored, Spend, Weight, NextFrom;
    var rs := Stored(cfg, medium).value;
    WeightZero(rs);
    if os == [] {
      HealthyResets(cfg, medium, last);
      ReliableKeepsNewest(cfg, medium, last);
      BootRefines(cfg, medium, last);
    } else {
      HealthyResets(cfg, medium, os[0]);
      ReliableKeepsNewest(cfg, medium, os[0]);
      BootRefines(cfg, medium, os[0]);
      SpendWeight(rs, Next(rs));
      var b := BootOnce(cfg, medium, os[0]);
      FailingRunExhausts(cfg, b.medium, os[1..], last);
      assert Run(cfg, medium, os)[1..] == Run(cfg, b.medium, os[1..]);
    }
  }

  // ----- the exact condition -----

  /** A healthy boot that selects slot launches what that slot holds. */
  lemma LaunchFromSlot(cfg: Config, medium: Medium, slot: int, rs: seq<Record>, o: Oracle)
    requires cfg.board.Fits(medium) && SlotSeen(cfg, medium, o) == slot >= 0
    requires Decoded(CopyAt(medium, cfg.board.Base(slot))) == Some(rs)
    requires Next(rs) >= 0
    requires HealthyWrite(o) && o.launch == Returned
    ensures var b := BootOnce(cfg, medium, o);
      && LaunchCount(b.log, Next(rs)) == 1 && b.end == Reset
      && var s := Persist(cfg, medium, slot, CopyAt(medium, cfg.board.Base(slot))[4], Spend(rs, Next(rs)), o);
      b.medium == s.medium && s.status == Persisted
  {
    hide CopyAt, Decoded, Persist, SlotSeen, WellFormed, NextFrom;
    SpendKeepsForm(rs, Next(rs));
    HealthyPersists(cfg, medium, slot, CopyAt(medium, cfg.board.Base(slot))[4], Spend(rs, Next(rs)), o);
    LaunchedOnce(slot, Next(rs));
  }

  /** A healthy boot that cannot read the newest copy spends the same attempt again, and stores nothing new. */
  lemma FallbackRepeats(cfg: Config, medium: Medium, first: Oracle, second: Oracle)
    requires Sound(cfg, medium)
    requires var rs := Stored(cfg, medium).value; Next(rs) >= 0 && rs[Next(rs)].tries > 0
    requires HealthyButFailing(first) && first.launch == Returned
    requires HealthyWrite(second) && second.launch == Returned
    requires FallsBack(cfg, BootOnce(cfg, medium, first).medium, second)
    ensures var rs, b := Stored(cfg, medium).value, BootOnce(cfg, medium, first);
      var again := BootOnce(cfg, b.medium, second);
      && LaunchCount(b.log, Next(rs)) == 1 && LaunchCount(again.log, Next(rs)) == 1
      && b.end == Reset && again.end == Reset
      && Sound(cfg, again.medium) && Stored(cfg, again.medium) == Some(Spend(rs, Next(rs)))
  {
    hide CopyAt, Decoded, Persist, WellFormed, NextFrom, Landed, Pending, LaunchPhase, BootOnce, Spend, Settled,
      SlotSeen, Tidy, ValidCopy;
    var rs := Stored(cfg, medium).value;
    var slot, i := Newest(cfg, medium), Next(rs);
    var flag, base := CopyAt(medium, cfg.board.Base(slot))[4], cfg.board.Base(1 - slot);
    SpendKeepsForm(rs, i);
    var pending := Pending(cfg, flag, Spend(rs, i));
    SeesNewestIff(cfg, medium, first);
    LaunchFromSlot(cfg, medium, slot, rs, first);
    PersistForm(cfg, medium, slot, flag, Spend(rs, i), first);
    TornWriteAtomic(cfg, medium, slot, Spend(rs, i), first.accepted);
    LandedElsewhere(cfg.board, medium, slot, pending, first.accepted);
    var after := BootOnce(cfg, medium, first).medium;
    LaunchFromSlot(cfg, after, slot, rs, second);
    PersistForm(cfg, after, slot, flag, Spend(rs, i), second);
    LandedElsewhere(cfg.board, after, slot, pending, second.accepted);
    StoredInCopies(cfg, after, BootOnce(cfg, after, second).medium, slot);
  }

  lemma RunOfTwo(cfg: Config, medium: Medium, first: Oracle, second: Oracle, i: int)
    requires cfg.board.Fits(medium)
    ensures var after := BootOnce(cfg, medium, first).medium;
      && Final(cfg, medium, [first, second]) == BootOnce(cfg, after, second).medium
      && Launches(Run(cfg, medium, [first, second]), i)
         == LaunchCount(BootOnce(cfg, medium, first).log, i) + LaunchCount(BootOnce(cfg, after, second).log, i)
      && Resets(Run(cfg, medium, [first, second]))
         == (if BootOnce(cfg, medium, first).end == Reset then 1 else 0)
          + (if BootOnce(cfg, after, second).end == Reset then 1 else 0)
      && (NoFallback(cfg, medium, [first, second])
          <==> !FallsBack(cfg, medium, first) && !FallsBack(cfg, after, second))
  {
    hide BootOnce, LaunchCount, FallsBack;
    var os := [first, second];
    assert os[1..] == [second] && os[1..][1..] == [];
    var b := BootOnce(cfg, medium, first);
    var again := BootOnce(cfg, b.medium, second);
    assert Run(cfg, b.medium, [second]) == [again] + Run(cfg, again.medium, []);
    assert Run(cfg, medium, os) == [b, again];
    assert Final(cfg, b.medium, [second]) == Final(cfg, again.medium, []);
    assert NoFallback(cfg, b.medium, [second]) <==> !FallsBack(cfg, b.medium, second);
    assert [b, again][1..] == [again] && [again][1..] == [];
    assert Launches([again], i) == LaunchCount(again.log, i) + Launches([], i);
    assert Resets([again]) == (if again.end == Reset then 1 else 0) + Resets([]);
  }

  /**
  The bounds are exact. After a healthy boot whose image fails, and for any outcome of the reads of the next
  one, each of them holds if and only if that boot does not fall back to the older copy.
  */
  lemma LaunchBoundIff(cfg: Config, medium: Medium, first: Oracle, second: Oracle)
    requires Sound(cfg, medium)
    requires var rs := Stored(cfg, medium).value; Next(rs) >= 0 && rs[Next(rs)].tries > 0
    requires HealthyButFailing(first) && first.launch == Returned
    requires HealthyWrite(second) && second.launch == Returned
    ensures var rs, os := Stored(cfg, medium).value, [first, second];
      var i := Next(rs);
      var launches, final := Launches(Run(cfg, medium, os), i), Stored(cfg, Final(cfg, medium, os));
      && final.Some? && i < |final.value|
      && (launches + final.value[i].tries <= rs[i].tries
          <==> !FallsBack(cfg, BootOnce(cfg, medium, first).medium, second))
      && (rs[i].tries == 1 ==>
            (launches <= 1 <==> !FallsBack(cfg, BootOnce(cfg, medium, first).medium, second)))
      && (Resets(Run(cfg, medium, os)) + Weight(final.value) <= Weight(rs)
          <==> !FallsBack(cfg, BootOnce(cfg, medium, first).medium, second))
  {
    hide CopyAt, Decoded, BootOnce, NextFrom, FallsBack, Stored, WellFormed, Tidy, Run, Final, Launches, LaunchCount,
      Resets, Weight;
    var rs := Stored(cfg, medium).value;
    var i := Next(rs);
    RunOfTwo(cfg, medium, first, second, i);
    ReliableKeepsNewest(cfg, medium, first);
    if FallsBack(cfg, BootOnce(cfg, medium, first).medium, second) {
      FallbackRepeats(cfg, medium, first, second);
      SpendWeight(rs, i);
    } else {
      ResetsBounded(cfg, medium, [first, second]);
      LaunchBound(cfg, medium, [first, second], i);
    }
  }

  /** The same hardware behaviour, except that reading one slot fails. */
  function Unreadable(o: Oracle, slot: int, left: Copy): (worse: Oracle) {
    if slot == 0 then o.(readA := ReadFailed(left)) else o.(readB := ReadFailed(left))
  }

  /**
  Fallbacks happen: if the copy that records the spent attempt cannot be read in the next boot, an entry
  with a single attempt is launched a second time from the older copy.
  */
  lemma StaleReadRelaunches(cfg: Config, medium: Medium, o: Oracle, left: Copy)
    requires Sound(cfg, medium)
    requires var rs := Stored(cfg, medium).value; Next(rs) >= 0 && rs[Next(rs)].tries == 1
    requires HealthyButFailing(o) && o.launch == Returned
    ensures var os := [o, Unreadable(o, 1 - Newest(cfg, medium), left)];
      Launches(Run(cfg, medium, os), Next(Stored(cfg, medium).value)) == 2
  {
    hide CopyAt, Decoded, Persist, WellFormed, NextFrom, Landed, Pending, LaunchPhase, BootOnce, Spend, Settled, Tidy;
    var rs := Stored(cfg, medium).value;
    var slot, i := Newest(cfg, medium), Next(rs);
    var flag, worse := CopyAt(medium, cfg.board.Base(slot))[4], Unreadable(o, 1 - slot, left);
    SpendKeepsForm(rs, i);
    SeesNewestIff(cfg, medium, o);
    LaunchFromSlot(cfg, medium, slot, rs, o);
    PersistForm(cfg, medium, slot, flag, Spend(rs, i), o);
    TornWriteAtomic(cfg, medium, slot, Spend(rs, i), o.accepted);
    LandedElsewhere(cfg.board, medium, slot, Pending(cfg, flag, Spend(rs, i)), o.accepted);
    FallbackRepeats(cfg, medium, o, worse);
    RunOfTwo(cfg, medium, o, worse, i);
  }
}

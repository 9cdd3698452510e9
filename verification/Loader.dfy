/**
The loader of the two mica-file-boot.c files: one buffer that holds both copies and is overwritten in
place, the device behind it, and the boot from the first read of the environment on.
*/
module Loader {
  import opened Bytes
  import opened Records
  import opened Environment
  import opened Disk
  import opened BootProtocol

  class Loader {
    const cfg: Config

    /** Both copies, one after the other. */
    const copies: array<Byte>

    /** What reads see, and what survives a loss of power. */
    var view: Medium
    var durable: Medium

    var log: seq<Event>

    ghost predicate Valid()
      reads this
    {
      copies.Length == 2 * ENV_SIZE && cfg.board.Fits(durable) && |view| == |durable|
    }

    constructor (cfg: Config, medium: Medium)
      requires cfg.board.Fits(medium)
      ensures Valid() && this.cfg == cfg && durable == medium && fresh(copies)
    {
      this.cfg := cfg;
      copies := new Byte[2 * ENV_SIZE](_ => 0);
      view, durable := medium, medium;
      log := [];
    }

    /** The bytes of one copy in the buffer. */
    ghost function InBuffer(slot: int): (copy: Copy)
      requires copies.Length == 2 * ENV_SIZE && (slot == 0 || slot == 1)
      reads this, copies
    {
      if slot == 0 then copies[..ENV_SIZE] else copies[ENV_SIZE..]
    }

    lemma InBufferAt(slot: int, k: int)
      requires copies.Length == 2 * ENV_SIZE && (slot == 0 || slot == 1) && 0 <= k < ENV_SIZE
      ensures InBuffer(slot)[k] == copies[slot * ENV_SIZE + k]
    {
    }

    /** A read of one region into one half of the buffer. */
    method ReadBlocks(base: nat, slot: int, outcome: ReadOutcome) returns (ok: bool)
      requires Valid() && base + ENV_BLOCKS <= |view| && (slot == 0 || slot == 1)
      modifies copies
      ensures ok == outcome.ReadDone?
      ensures InBuffer(slot) == Seen(view, base, outcome)
      ensures InBuffer(1 - slot) == old(InBuffer(1 - slot))
    {
      hide CopyAt;
      var data := Seen(view, base, outcome);
      forall k | 0 <= k < ENV_SIZE {
        copies[slot * ENV_SIZE + k] := data[k];
      }
      ok := outcome.ReadDone?;
    }

    /** read_environment. */
    method ReadEnvironment(o: Oracle) returns (slot: int, records: Option<seq<Record>>)
      requires Valid()
      modifies copies
      ensures slot == SlotSeen(cfg, view, o)
      ensures slot < 0 ==> records == None
      ensures slot >= 0 ==>
        && InBuffer(slot) == CopyAt(view, cfg.board.Base(slot))
        && records == Decoded(CopyAt(view, cfg.board.Base(slot)))
    {
      hide CopyAt, Decoded, Slot, ValidCopy;
      var readA := ReadBlocks(cfg.board.first, 0, o.readA);
      var copyA := copies[..ENV_SIZE];
      var validA := readA && ValidCopy(cfg.crc, copyA);
      var readB := ReadBlocks(cfg.board.second, 1, o.readB);
      var copyB := copies[ENV_SIZE..];
      var validB := readB && ValidCopy(cfg.crc, copyB);
      assert copies[..ENV_SIZE] == InBuffer(0) == copyA;
      slot := Slot(validA, copies[4], validB, copies[ENV_SIZE + 4]);
      if slot < 0 {
        records := None;
      } else {
        records := Decode(if slot == 0 then copyA else copyB);
      }
    }

    /** memset of the spare half, and the flag. */
    method Clear(at: nat, flag: Byte)
      requires at + ENV_SIZE <= copies.Length
      modifies copies
      ensures copies[..] == old(copies[..at]) + (Zeros(4) + [flag] + Zeros(ENV_SIZE - 5)) + old(copies[at + ENV_SIZE..])
    {
      forall k | 0 <= k < ENV_SIZE {
        copies[at + k] := 0;
      }
      copies[at + 4] := flag;
    }

    /** The checksum of the bytes behind the flag, stored in front of it. */
    method Seal(at: nat)
      requires at + ENV_SIZE <= copies.Length
      modifies copies
      ensures copies[..] == old(copies[..at]) + StoreLittleEndian(cfg.crc(old(copies[at + 5..at + ENV_SIZE])))
                            + old(copies[at + 4..])
    {
      var sum := StoreLittleEndian(cfg.crc(copies[at + 5..at + ENV_SIZE]));
      forall k | 0 <= k < 4 {
        copies[at + k] := sum[k];
      }
    }

    /** The spare half zeroed and given its flag and its entry. */
    method Fill(at: nat, flag: Byte, text: seq<Byte>)
      requires at + ENV_SIZE <= copies.Length && VALUE_OFFSET + |text| <= ENV_SIZE
      modifies copies
      ensures copies[..] == old(copies[..at]) + ((Zeros(4) + [flag]) + Tail(text)) + old(copies[at + ENV_SIZE..])
    {
      hide Tail;
      ghost var before, after := copies[..at], copies[at + ENV_SIZE..];
      Clear(at, flag);
      StoreIntoZeros(before, Zeros(4) + [flag], text, after);
      EnvStore(copies, at, text);
    }

    /** The spare half of the buffer becomes the copy to be written. */
    method Prepare(slot: int, flag: Byte, text: seq<Byte>)
      requires Valid() && (slot == 0 || slot == 1) && VALUE_OFFSET + |text| <= ENV_SIZE
      modifies copies
      ensures InBuffer(1 - slot) == Image(cfg.crc, flag, text)
      ensures InBuffer(slot) == old(InBuffer(slot))
    {
      hide Tail, StoreLittleEndian, Image;
      var pending := (1 - slot) * ENV_SIZE;
      ghost var before, after := copies[..pending], copies[pending + ENV_SIZE..];
      Fill(pending, flag, text);
      SealCompletes(cfg.crc, before, flag, text, after);
      assert copies[pending + 5..pending + ENV_SIZE] == copies[..][pending + 5..pending + ENV_SIZE];
      Seal(pending);
      assert copies[..] == before + Image(cfg.crc, flag, text) + after;
    }

    /** blk_dwrite of the spare half: any sectors may arrive, and any of those may be settled. */
    method WriteBlocks(base: nat, slot: int, o: Oracle)
      requires Valid() && base + ENV_BLOCKS <= |durable| && (slot == 0 || slot == 1)
      modifies this
      ensures Valid() && log == old(log) + [Wrote(slot)]
      ensures view == Landed(old(view), base, InBuffer(slot), o.accepted)
      ensures durable == Landed(old(durable), base, InBuffer(slot), Settled(cfg, o))
    {
      hide Landed;
      var pending := if slot == 0 then copies[..ENV_SIZE] else copies[ENV_SIZE..];
      view := Landed(view, base, pending, o.accepted);
      durable := Landed(durable, base, pending, Settled(cfg, o));
      log := log + [Wrote(slot)];
    }

    /** mmc_flush_cache: everything accepted becomes durable. */
    method Flush(ok: bool)
      requires Valid()
      modifies this`durable
      ensures Valid() && durable == if ok then view else old(durable)
    {
      if ok {
        durable := view;
      }
    }

    /**
    persist_environment. The readback lands on the copy that was selected, so its flag is taken first and
    the buffer holds the written copy twice afterwards.
    */
    method PersistEnvironment(slot: int, rs: seq<Record>, o: Oracle) returns (status: Status)
      requires Valid() && view == durable && (slot == 0 || slot == 1)
      modifies this, copies
      ensures Valid()
      ensures var s := Persist(cfg, old(durable), slot, old(InBuffer(slot))[4], rs, o);
        durable == s.medium && status == s.status && log == old(log) + s.log
      ensures status == Persisted ==> InBuffer(slot) == InBuffer(1 - slot)
    {
      hide Landed, CopyAt, WellFormed, Image, Text;
      InBufferAt(slot, 4);
      var flag := NextFlag(copies[slot * ENV_SIZE + 4]);
      var text := Render(rs);
      if text.None? {
        return Refused;
      }
      TextWidth(rs);
      Prepare(slot, flag, text.value);
      var base := cfg.board.Base(1 - slot);
      WriteBlocks(base, 1 - slot, o);
      if o.cut == AtWrite {
        return Cut;
      }
      if !o.writeDone {
        return Refused;
      }
      if cfg.board.cached {
        if o.cut == AtFlush {
          return Cut;
        }
        Flush(o.flushDone);
        if !o.flushDone {
          return Refused;
        }
      }
      if o.cut == AtReadback {
        return Cut;
      }
      var pending := if slot == 0 then copies[ENV_SIZE..] else copies[..ENV_SIZE];
      assert pending == InBuffer(1 - slot);
      var ok := ReadBlocks(base, slot, o.readback);
      var readback := if slot == 0 then copies[..ENV_SIZE] else copies[ENV_SIZE..];
      assert readback == InBuffer(slot);
      if !ok || readback != pending {
        return Refused;
      }
      log := log + [Verified];
      status := Persisted;
    }

    /** mica_file_boot from the first read of the environment on. */
    method FileBoot(o: Oracle) returns (end: End)
      requires Valid()
      modifies this, copies
      ensures Valid()
      ensures Boot(durable, log, end) == BootOnce(cfg, old(durable), o)
    {
      hide Landed, CopyAt, WellFormed, Decoded, Persist, Slot, ValidCopy, NextFrom;
      view := durable;
      log := [];
      if o.cut == AtRead {
        return PowerLost;
      }
      var slot, records := ReadEnvironment(o);
      if slot < 0 || records.None? {
        return Recovery(InvalidEnvironment);
      }
      var rs := records.value;
      var next := FindNext(rs);
      if next < 0 {
        return Recovery(NoneLeft);
      }
      if rs[next].tries > 0 {
        rs := rs[next := rs[next].(tries := rs[next].tries - 1)];
        var status := PersistEnvironment(slot, rs, o);
        if status == Cut {
          return PowerLost;
        }
        if status == Refused {
          return Recovery(AttemptNotPersisted);
        }
      }
      if o.cut == AtLoad {
        return PowerLost;
      }
      if o.launch != NotLoaded {
        log := log + [Launched(next)];
      }
      if o.launch == TookOver {
        return Running;
      }
      if rs[next].tries < 0 {
        rs := rs[next := rs[next].(tries := 0)];
        var status := PersistEnvironment(slot, rs, o);
        if status == Cut {
          return PowerLost;
        }
        if status == Refused {
          return Recovery(NotRetired);
        }
      }
      return Reset;
    }
  }
}

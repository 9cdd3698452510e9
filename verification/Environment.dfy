/**
One copy of the redundant environment: the single-entry codec of common/uboot/mica-records.h,
the checksummed layout around it, and the choice between the two copies.
*/
module Environment {
  import opened Bytes
  import opened Records

  const ENV_SIZE := 65536
  const VALUE_OFFSET := 18

  /** "mica_entries=" */
  const ENV_KEY: seq<Byte> := [109, 105, 99, 97, 95, 101, 110, 116, 114, 105, 101, 115, 61]

  /** The content of one environment copy. */
  type Copy = s: seq<Byte> | |s| == ENV_SIZE witness Zeros(ENV_SIZE)

  /** The copy holds exactly one entry: the key, this value, and zeros to the end. */
  ghost predicate Holds(bytes: seq<Byte>, value: seq<Byte>) {
    && 0 !in value && |value| <= VALUE_LIMIT
    && VALUE_OFFSET + |value| + 2 <= |bytes|
    && bytes[5..VALUE_OFFSET] == ENV_KEY
    && bytes[VALUE_OFFSET..VALUE_OFFSET + |value|] == value
    && AllZero(bytes[VALUE_OFFSET + |value|..])
  }

  /** A copy holds at most one value, the C string behind the key. */
  lemma HoldsString(bytes: seq<Byte>, value: seq<Byte>)
    requires Holds(bytes, value)
    ensures CString(bytes[VALUE_OFFSET..]) == value
  {
    var memory := bytes[VALUE_OFFSET..];
    assert memory[..|value|] == value;
    assert memory[|value|] == bytes[VALUE_OFFSET + |value|..][0] == 0;
    CStringIs(memory, |value|);
  }

  /** The value a copy holds, if it holds one. */
  ghost function Entry(bytes: seq<Byte>): (v: Option<seq<Byte>>)
    ensures v.Some? ==> Holds(bytes, v.value)
    ensures v.None? ==> forall value :: !Holds(bytes, value)
  {
    if exists value :: Holds(bytes, value) then
      var value :| Holds(bytes, value);
      Some(value)
    else None
  }

  lemma EntryHeld(bytes: seq<Byte>, value: seq<Byte>)
    requires Holds(bytes, value)
    ensures Entry(bytes) == Some(value)
  {
    HoldsString(bytes, value);
    HoldsString(bytes, Entry(bytes).value);
  }

  /**
  mica_env_value: finds the terminator, then demands zeros from it to the end. It answers with the
  memory behind the key exactly when the copy holds an entry.
  */
  method EnvValue(bytes: seq<Byte>) returns (memory: Option<seq<Byte>>)
    requires |bytes| >= VALUE_OFFSET
    ensures memory.Some? <==> Entry(bytes).Some?
    ensures memory.Some? ==>
      && memory.value == bytes[VALUE_OFFSET..]
      && 0 in memory.value
      && CString(memory.value) == Entry(bytes).value
  {
    if bytes[5..VALUE_OFFSET] != ENV_KEY {
      return None;
    }
    var end := VALUE_OFFSET;
    while end < |bytes| && bytes[end] != 0
      invariant VALUE_OFFSET <= end <= |bytes|
      invariant forall i :: VALUE_OFFSET <= i < end ==> bytes[i] != 0
    {
      end := end + 1;
    }
    EntryByTerminator(bytes, end);
    hide Entry, CString, Holds;
    if end - VALUE_OFFSET > VALUE_LIMIT || end + 1 >= |bytes| {
      return None;
    }
    ghost var terminator := end;
    while end < |bytes|
      invariant terminator <= end <= |bytes|
      invariant forall i :: terminator <= i < end ==> bytes[i] == 0
    {
      if bytes[end] != 0 {
        return None;
      }
      end := end + 1;
    }
    assert bytes[VALUE_OFFSET..][terminator - VALUE_OFFSET] == 0;
    memory := Some(bytes[VALUE_OFFSET..]);
  }

  /** Behind the key, the first NUL decides: there is an entry when it comes in time and only zeros follow. */
  lemma EntryByTerminator(bytes: seq<Byte>, end: nat)
    requires VALUE_OFFSET <= end <= |bytes| && bytes[5..VALUE_OFFSET] == ENV_KEY
    requires forall i :: VALUE_OFFSET <= i < end ==> bytes[i] != 0
    requires end == |bytes| || bytes[end] == 0
    ensures Entry(bytes).Some? <==>
      && end - 18 <= 512 && end + 2 <= |bytes|
      && forall i :: end <= i < |bytes| ==> bytes[i] == 0
    ensures Entry(bytes).Some? ==> CString(bytes[VALUE_OFFSET..]) == Entry(bytes).value
  {
    var memory, value := bytes[VALUE_OFFSET..], bytes[VALUE_OFFSET..end];
    assert memory[..end - VALUE_OFFSET] == value;
    CStringIs(memory, end - VALUE_OFFSET);
    if Entry(bytes).Some? {
      HoldsString(bytes, Entry(bytes).value);
      assert forall i :: end <= i < |bytes| ==> bytes[i] == bytes[end..][i - end];
    } else {
      assert !Holds(bytes, value);
    }
  }

  /** mica_env_store, into the copy that starts at position at of a larger buffer. */
  method EnvStore(buffer: array<Byte>, at: nat, text: seq<Byte>)
    requires at + VALUE_OFFSET + |text| <= buffer.Length
    modifies buffer
    ensures buffer[..] == old(buffer[..at + 5]) + ENV_KEY + text + old(buffer[at + VALUE_OFFSET + |text|..])
  {
    forall i | 0 <= i < |ENV_KEY| {
      buffer[at + 5 + i] := ENV_KEY[i];
    }
    forall i | 0 <= i < |text| {
      buffer[at + VALUE_OFFSET + i] := text[i];
    }
  }

  /** The bytes from offset 5 on of a copy that was zeroed and then given one entry. */
  function Tail(text: seq<Byte>): (tail: seq<Byte>)
    requires VALUE_OFFSET + |text| <= ENV_SIZE
    ensures |tail| == ENV_SIZE - 5
  {
    ENV_KEY + text + Zeros(ENV_SIZE - VALUE_OFFSET - |text|)
  }

  /** What the store does to a zeroed copy inside a larger buffer. */
  lemma StoreIntoZeros(before: seq<Byte>, front: seq<Byte>, text: seq<Byte>, after: seq<Byte>)
    requires |front| == 5 && VALUE_OFFSET + |text| <= ENV_SIZE
    ensures var buffer := before + (front + Zeros(ENV_SIZE - 5)) + after;
      buffer[..|before| + 5] + ENV_KEY + text + buffer[|before| + VALUE_OFFSET + |text|..]
      == before + (front + Tail(text)) + after
  {
  }

  /** Storing a NUL-free text within the limit and reading it back gives the text. */
  lemma StoredEntry(front: seq<Byte>, text: seq<Byte>)
    requires |front| == 5 && 0 !in text && |text| <= VALUE_LIMIT
    ensures Entry(front + Tail(text)) == Some(text)
  {
    var bytes := front + Tail(text);
    var end := VALUE_OFFSET + |text|;
    assert bytes[5..VALUE_OFFSET] == ENV_KEY;
    assert bytes[VALUE_OFFSET..end] == text;
    assert bytes[end..] == Zeros(ENV_SIZE - end);
    EntryHeld(bytes, text);
  }

  /** A copy that holds an entry is that entry's layout, byte for byte. */
  lemma EntryDetermines(bytes: Copy)
    requires Entry(bytes).Some?
    ensures VALUE_OFFSET + |Entry(bytes).value| <= ENV_SIZE && bytes == bytes[..5] + Tail(Entry(bytes).value)
  {
  }

  // ----- a whole copy -----

  /** valid_environment: the stored checksum is that of the bytes behind the flag. */
  predicate ValidCopy(crc: seq<Byte> -> Word, copy: Copy) {
    LittleEndian(copy) == crc(copy[5..])
  }

  /** decode_environment. */
  ghost function Decoded(copy: Copy): (rs: Option<seq<Record>>)
    ensures rs.Some? ==> WellFormed(rs.value)
  {
    match Entry(copy)
    case None => None
    case Some(value) => Parsed(value)
  }

  /** The bytes of a copy that decodes, and what they decode to. */
  lemma DecodedBytes(copy: Copy, rs: seq<Record>)
    ensures Decoded(copy) == Some(rs) <==>
      && WellFormed(rs)
      && |Text(rs)| <= 512
      && copy[5..18] == [109, 105, 99, 97, 95, 101, 110, 116, 114, 105, 101, 115, 61]
      && copy[18..18 + |Text(rs)|] == Text(rs)
      && forall i :: 18 + |Text(rs)| <= i < 65536 ==> copy[i] == 0
  {
    hide Text;
    if Decoded(copy) == Some(rs) {
      TextWidth(rs);
      var n := 18 + |Text(rs)|;
      assert forall i :: n <= i < 65536 ==> copy[i] == copy[n..][i - n];
    }
    if WellFormed(rs) {
      TextWidth(rs);
      TextNulFree(rs);
      ParsedText(rs);
      if Holds(copy, Text(rs)) {
        EntryHeld(copy, Text(rs));
      }
    }
  }

  method Decode(copy: Copy) returns (records: Option<seq<Record>>)
    ensures records == Decoded(copy)
  {
    var memory := EnvValue(copy);
    if memory.None? {
      return None;
    }
    records := Parse(memory.value);
  }

  /** The copy persist_environment prepares. */
  function Image(crc: seq<Byte> -> Word, flag: Byte, text: seq<Byte>): (copy: Copy)
    requires VALUE_OFFSET + |text| <= ENV_SIZE
  {
    StoreLittleEndian(crc(Tail(text))) + [flag] + Tail(text)
  }

  /** Sealing a filled copy inside a larger buffer completes its image. */
  lemma SealCompletes(crc: seq<Byte> -> Word, before: seq<Byte>, flag: Byte, text: seq<Byte>, after: seq<Byte>)
    requires VALUE_OFFSET + |text| <= ENV_SIZE
    ensures var filled, p := before + ((Zeros(4) + [flag]) + Tail(text)) + after, |before|;
      && filled[p + 5..p + ENV_SIZE] == Tail(text)
      && filled[..p] + StoreLittleEndian(crc(Tail(text))) + filled[p + 4..] == before + Image(crc, flag, text) + after
  {
  }

  /** A copy whose every byte past the first 512 is zero. */
  ghost predicate Tidy(copy: Copy) {
    AllZero(copy[512..])
  }

  /** A prepared copy is valid, carries its flag, decodes to its records and fits its first sector. */
  lemma ImageReads(crc: seq<Byte> -> Word, flag: Byte, rs: seq<Record>)
    requires WellFormed(rs)
    ensures |Text(rs)| <= VALUE_LIMIT
    ensures var copy := Image(crc, flag, Text(rs));
      && ValidCopy(crc, copy) && copy[4] == flag
      && Decoded(copy) == Some(rs) && Tidy(copy)
  {
    TextWidth(rs);
    TextNulFree(rs);
    ParsedText(rs);
    ImageParts(crc, flag, Text(rs));
  }

  lemma ImageParts(crc: seq<Byte> -> Word, flag: Byte, text: seq<Byte>)
    requires |text| <= 300 && 0 !in text
    ensures var copy := Image(crc, flag, text);
      && ValidCopy(crc, copy) && copy[4] == flag
      && Entry(copy) == Some(text) && Tidy(copy)
  {
    var copy := Image(crc, flag, text);
    var front := StoreLittleEndian(crc(Tail(text))) + [flag];
    assert copy[5..] == Tail(text);
    assert LittleEndian(copy) == LittleEndian(front);
    StoredEntry(front, text);
    forall i | 512 <= i < ENV_SIZE
      ensures copy[i] == 0
    {
      assert copy[i] == Tail(text)[i - 5];
    }
  }

  /** Whatever wrote it, a copy that decodes is zero past its first sector: its value is short. */
  lemma DecodedIsTidy(copy: Copy)
    requires Decoded(copy).Some?
    ensures Tidy(copy)
  {
    var value := Entry(copy).value;
    TextWidth(Decoded(copy).value);
    EntryDetermines(copy);
    forall i | 512 <= i < ENV_SIZE
      ensures copy[i] == 0
    {
      assert copy[i] == Tail(value)[i - 5];
    }
  }

  // ----- the choice between the copies -----

  /** mica_boot_slot. */
  function Slot(validA: bool, a: Byte, validB: bool, b: Byte): (slot: int)
    ensures -1 <= slot <= 1
    ensures slot == -1 <==> !validA && !validB
    ensures slot == 0 ==> validA
    ensures slot == 1 ==> validB
    ensures validA && validB && a == 255 && b == 0 ==> slot == 1
    ensures validA && validB && a == 0 && b == 255 ==> slot == 0
    ensures validA && validB && !(a == 255 && b == 0) && !(a == 0 && b == 255) ==> slot == if a < b then 1 else 0
  {
    if !validA then (if validB then 1 else -1)
    else if !validB then 0
    else if (a == 255 && b == 0) || (b > a && !(b == 255 && a == 0)) then 1
    else 0
  }

  /** The flag written over the one selected: an unsigned char increment. */
  function NextFlag(flag: Byte): (next: Byte)
    ensures next == if flag == 255 then 0 else flag + 1
  {
    (flag + 1) % 256
  }

  /** For every flag value, wraparound included, the copy written with the next flag is the one chosen. */
  lemma NextFlagWins(flag: Byte)
    ensures Slot(true, flag, true, NextFlag(flag)) == 1
    ensures Slot(true, NextFlag(flag), true, flag) == 0
  {
  }
}

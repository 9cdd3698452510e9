/**
Boot records: their textual form, the strict parser and the printer of
common/uboot/mica-records.h, and the choice of the next deployment.
*/
module Records {
  import opened Bytes
  import opened Decimal

  const RECORD_LIMIT := 2
  const VALUE_LIMIT := 512

  const COMMA: Byte := 44
  const MINUS: Byte := 45
  const SEMICOLON: Byte := 59

  /** "v1|" */
  const HEADER: seq<Byte> := [118, 49, 124]

  /** What a NUL-terminated char[65] can hold. */
  type Name = s: seq<Byte> | |s| <= 64 && 0 !in s witness []

  type U64 = x: int | 0 <= x < 0x1_0000_0000_0000_0000

  datatype Record = Record(id: Name, kernel: Name, generation: U64, tries: int)

  predicate IsHex(c: Byte) {
    48 <= c <= 57 || 97 <= c <= 102
  }

  predicate IsHexName(s: seq<Byte>) {
    |s| == 64 && forall i :: 0 <= i < 64 ==> IsHex(s[i])
  }

  predicate TriesInRange(r: Record) {
    -1 <= r.tries <= 3
  }

  predicate WellFormedRecord(r: Record) {
    && IsHexName(r.id)
    && IsHexName(r.kernel)
    && 1 <= r.generation <= GENERATION_LIMIT
    && TriesInRange(r)
  }

  predicate Descending(rs: seq<Record>) {
    forall i, j :: 0 <= i < j < |rs| ==> rs[i].id != rs[j].id && rs[i].generation > rs[j].generation
  }

  /** One or two well-formed entries, newest first, with distinct ids. */
  predicate WellFormed(rs: seq<Record>) {
    && 1 <= |rs| <= RECORD_LIMIT
    && (forall i :: 0 <= i < |rs| ==> WellFormedRecord(rs[i]))
    && Descending(rs)
  }

  function TriesChar(tries: int): (c: Byte)
    requires -1 <= tries <= 3
  {
    if tries < 0 then MINUS else 48 + tries
  }

  function RecordText(r: Record): (s: seq<Byte>)
    requires TriesInRange(r)
  {
    r.id + [COMMA] + r.kernel + [COMMA] + Digits(r.generation) + [COMMA, TriesChar(r.tries)]
  }

  function Body(rs: seq<Record>): (s: seq<Byte>)
    requires forall i :: 0 <= i < |rs| ==> TriesInRange(rs[i])
  {
    if rs == [] then []
    else
      var last := RecordText(rs[|rs| - 1]);
      if |rs| == 1 then last else Body(rs[..|rs| - 1]) + [SEMICOLON] + last
  }

  /** The textual form of a list of records. */
  function Text(rs: seq<Record>): (s: seq<Byte>)
    requires forall i :: 0 <= i < |rs| ==> TriesInRange(rs[i])
  {
    HEADER + Body(rs)
  }

  lemma RecordNulFree(r: Record)
    requires TriesInRange(r)
    ensures 0 !in RecordText(r)
  {
  }

  /** No text holds a NUL, whatever the names hold. */
  lemma {:induction false} TextNulFree(rs: seq<Record>)
    requires forall i :: 0 <= i < |rs| ==> TriesInRange(rs[i])
    ensures 0 !in Text(rs) && 0 !in Body(rs)
  {
    if rs != [] {
      TextNulFree(rs[..|rs| - 1]);
      RecordNulFree(rs[|rs| - 1]);
      hide RecordText;
    }
  }

  // ----- the textual form determines the records -----

  /** The fixed columns of a well-formed entry. */
  lemma RecordColumns(r: Record)
    requires WellFormedRecord(r)
    ensures var s, g := RecordText(r), |Digits(r.generation)|;
      && |s| == 132 + g
      && s[..64] == r.id && s[64] == COMMA
      && s[65..129] == r.kernel && s[129] == COMMA
      && s[130..130 + g] == Digits(r.generation) && s[130] != 48
      && s[130 + g] == COMMA && s[131 + g] == TriesChar(r.tries)
  {
  }

  /** In any text that starts with a well-formed entry, the generation is the digit run at column 130. */
  lemma RecordPrefix(r: Record, t: seq<Byte>)
    requires WellFormedRecord(r) && RecordText(r) <= t
    ensures var g := |Digits(r.generation)|;
      && |t| >= 132 + g
      && t[..64] == r.id && t[64] == COMMA
      && t[65..129] == r.kernel && t[129] == COMMA
      && RunEnd(t, 130) == 130 + g
      && t[130..130 + g] == Digits(r.generation) && t[130] != 48
      && t[130 + g] == COMMA && t[131 + g] == TriesChar(r.tries)
  {
    var s, g := RecordText(r), |Digits(r.generation)|;
    RecordColumns(r);
    assert t[..|s|] == s;
    assert t[..64] == s[..64] && t[65..129] == s[65..129];
    assert t[130..130 + g] == s[130..130 + g];
    RunEndIs(t, 130, 130 + g);
  }

  /** The columns of the names, however long they are. */
  lemma NameColumns(r: Record)
    requires TriesInRange(r)
    ensures var s, m, n := RecordText(r), |r.id|, |r.id| + 1 + |r.kernel|;
      && |s| > n + 1
      && s[..m] == r.id && s[m] == COMMA && s[m + 1..n] == r.kernel && s[n] == COMMA
  {
    hide Digits;
  }

  /** An arbitrary entry that shares a text with a well-formed one has full-width names ... */
  lemma SharedNames(a: Record, b: Record, t: seq<Byte>)
    requires TriesInRange(a) && WellFormedRecord(b)
    requires RecordText(a) <= t && RecordText(b) <= t
    ensures a.id == b.id && a.kernel == b.kernel
  {
    hide Digits, RunEnd, Value, RecordText;
    RecordPrefix(b, t);
    NameColumns(a);
    var s := RecordText(a);
    var m, n := |a.id|, |a.id| + 1 + |a.kernel|;
    assert forall i :: 0 <= i < 64 ==> t[i] == b.id[i] && IsHex(t[i]);
    assert t[..m] == s[..m] == a.id && t[m] == s[m] == COMMA;
    assert t[65..n] == s[65..n] == a.kernel && t[n] == s[n] == COMMA;
    assert forall i :: 65 <= i < 129 ==> t[i] == b.kernel[i - 65] && IsHex(t[i]);
  }

  /** ... and is that one: entries are self-delimiting, and only well-formed ones read as well-formed. */
  lemma RecordTextPrefixFree(a: Record, b: Record, t: seq<Byte>)
    requires TriesInRange(a) && WellFormedRecord(b)
    requires RecordText(a) <= t && RecordText(b) <= t
    ensures a == b
  {
    RecordPrefix(b, t);
    SharedNames(a, b, t);
    hide Digits, RunEnd, Value;
    var s, g := RecordText(a), |Digits(a.generation)|;
    assert t[130..130 + g] == s[130..130 + g] == Digits(a.generation);
    assert t[130 + g] == s[130 + g] == COMMA;
    RunEndIs(t, 130, 130 + g);
    assert Value(Digits(a.generation)) == Value(Digits(b.generation));
    assert t[131 + g] == s[131 + g] == TriesChar(a.tries);
  }

  /** The two shapes a well-formed body can take. */
  lemma BodyForms(rs: seq<Record>)
    requires 1 <= |rs| <= 2 && forall i :: 0 <= i < |rs| ==> TriesInRange(rs[i])
    ensures |rs| == 1 ==> Body(rs) == RecordText(rs[0])
    ensures |rs| == 2 ==> Body(rs) == RecordText(rs[0]) + [SEMICOLON] + RecordText(rs[1])
  {
    if |rs| == 2 {
      assert rs[..1] == [rs[0]];
    }
  }

  /** The text of a well-formed list is the text of no other list, well-formed or not. */
  lemma TextInjective(a: seq<Record>, b: seq<Record>)
    requires 1 <= |a| <= 2 && forall i :: 0 <= i < |a| ==> TriesInRange(a[i])
    requires WellFormed(b) && Text(a) == Text(b)
    ensures a == b
  {
    hide RecordText;
    assert Body(a) == Text(a)[3..] == Text(b)[3..] == Body(b);
    BodyForms(a);
    BodyForms(b);
    RecordTextPrefixFree(a[0], b[0], Body(a));
    if |a| == 2 && |b| == 2 {
      var p := |RecordText(a[0])| + 1;
      assert RecordText(a[1]) == Body(a)[p..] == RecordText(b[1]);
      RecordTextPrefixFree(a[1], b[1], Body(a)[p..]);
    }
  }

  /** A well-formed text fits the value limit with room to spare. */
  lemma TextWidth(rs: seq<Record>)
    requires WellFormed(rs)
    ensures 4 <= |Text(rs)| <= 300
  {
    forall i | 0 <= i < |rs|
      ensures |RecordText(rs[i])| <= 148
    {
      Power10Of16();
      DigitsWidth(rs[i].generation, 16);
      RecordColumns(rs[i]);
    }
    BodyForms(rs);
  }

  /** The records a text denotes: the inverse image under Text. */
  ghost function Parsed(text: seq<Byte>): (r: Option<seq<Record>>)
    ensures r.Some? ==> WellFormed(r.value) && Text(r.value) == text
    ensures r.None? ==> forall rs :: WellFormed(rs) ==> Text(rs) != text
  {
    if exists rs :: WellFormed(rs) && Text(rs) == text then
      var rs :| WellFormed(rs) && Text(rs) == text;
      Some(rs)
    else None
  }

  /** Parsing undoes printing. */
  lemma ParsedText(rs: seq<Record>)
    requires WellFormed(rs)
    ensures Parsed(Text(rs)) == Some(rs)
  {
    TextInjective(rs, Parsed(Text(rs)).value);
  }

  // ----- the text, character by character -----

  /** Lowercase hexadecimal digits. */
  ghost predicate HexAt(t: seq<Byte>, from: nat)
    requires from + 64 <= |t|
  {
    forall i :: from <= i < from + 64 ==> 48 <= t[i] <= 57 || 97 <= t[i] <= 102
  }

  /**
  These characters spell this entry: two names of 64 hexadecimal digits, the generation in decimal without a
  leading zero, and '-' or one digit from '0' to '3' for the attempts, with commas between them.
  */
  ghost predicate Spells(t: seq<Byte>, r: Record) {
    && |t| >= 133
    && HexAt(t, 0) && t[64] == 44 && HexAt(t, 65) && t[129] == 44
    && t[130] != 48 && AllDigits(t[130..|t| - 2]) && t[|t| - 2] == 44
    && r.id == t[..64] && r.kernel == t[65..129]
    && r.generation == Value(t[130..|t| - 2]) <= 9007199254740991
    && (if r.tries == -1 then t[|t| - 1] == 45 else 0 <= r.tries <= 3 && [t[|t| - 1]] == Digits(r.tries))
  }

  lemma SpelledRecord(t: seq<Byte>, r: Record)
    requires Spells(t, r)
    ensures WellFormedRecord(r) && t == RecordText(r)
  {
    DigitsOfValue(t[130..|t| - 2]);
    hide Digits;
    assert t == t[..64] + [t[64]] + t[65..129] + [t[129]] + t[130..|t| - 2] + [t[|t| - 2], t[|t| - 1]];
    TriesDigit(r.tries);
  }

  lemma TriesDigit(tries: int)
    ensures 0 <= tries <= 3 ==> Digits(tries) == [48 + tries]
  {
  }

  lemma RecordSpelled(r: Record)
    requires WellFormedRecord(r)
    ensures Spells(RecordText(r), r)
  {
    var t := RecordText(r);
    RecordColumns(r);
    hide RecordText, Digits;
    TriesDigit(r.tries);
    assert forall i :: 0 <= i < 64 ==> t[i] == r.id[i];
    assert forall i :: 65 <= i < 129 ==> t[i] == r.kernel[i - 65];
  }

  lemma SpellsIff(t: seq<Byte>, r: Record)
    ensures Spells(t, r) <==> WellFormedRecord(r) && t == RecordText(r)
  {
    hide Spells, RecordText;
    if Spells(t, r) {
      SpelledRecord(t, r);
    }
    if WellFormedRecord(r) {
      RecordSpelled(r);
    }
  }

  /**
  What a text denotes, character by character: "v1|", then one entry, or two with a semicolon between them,
  of which the first is of a later generation and has another id.
  */
  lemma ParsedMeans(text: seq<Byte>, rs: seq<Record>)
    ensures Parsed(text) == Some(rs) <==>
      && |text| >= 3 && text[..3] == [118, 49, 124]
      && (|rs| == 1 || |rs| == 2)
      && (|rs| == 1 ==> Spells(text[3..], rs[0]))
      && (|rs| == 2 ==>
        && rs[0].id != rs[1].id && rs[0].generation > rs[1].generation
        && exists k :: 3 <= k < |text| && text[k] == 59 && Spells(text[3..k], rs[0]) && Spells(text[k + 1..], rs[1]))
  {
    hide RecordText, Spells, IsHexName, HexAt, Body;
    if Parsed(text) == Some(rs) {
      BodyForms(rs);
      assert text[3..] == Body(rs);
      if |rs| == 1 {
        SpellsIff(text[3..], rs[0]);
      } else {
        var k := 3 + |RecordText(rs[0])|;
        assert text[3..k] == RecordText(rs[0]) && text[k] == 59 && text[k + 1..] == RecordText(rs[1]);
        SpellsIff(text[3..k], rs[0]);
        SpellsIff(text[k + 1..], rs[1]);
      }
    }
    if |text| >= 3 && text[..3] == HEADER {
      if |rs| == 1 && Spells(text[3..], rs[0]) {
        SpellsIff(text[3..], rs[0]);
        BodyForms(rs);
        SpelledList(text, rs, Body(rs));
      } else if |rs| == 2 && rs[0].id != rs[1].id && rs[0].generation > rs[1].generation {
        forall k | 3 <= k < |text| && text[k] == 59 && Spells(text[3..k], rs[0]) && Spells(text[k + 1..], rs[1])
          ensures Parsed(text) == Some(rs)
        {
          SpellsIff(text[3..k], rs[0]);
          SpellsIff(text[k + 1..], rs[1]);
          assert text[3..] == text[3..k] + [SEMICOLON] + text[k + 1..];
          BodyForms(rs);
          SpelledList(text, rs, Body(rs));
        }
      }
    }
  }

  lemma SpelledList(text: seq<Byte>, rs: seq<Record>, body: seq<Byte>)
    requires WellFormed(rs) && |text| >= 3 && text[..3] == HEADER && text[3..] == body == Body(rs)
    ensures Parsed(text) == Some(rs)
  {
    hide Body;
    assert text == Text(rs);
    ParsedText(rs);
  }

  // ----- the parser -----

  /** mica_boot_id: 64 lowercase hexadecimal digits closed by a comma. */
  method ParseName(value: seq<Byte>, start: nat) returns (name: Option<Name>, p: nat)
    requires start <= |value|
    ensures name.Some? <==>
      |value| - start >= 65 && value[start + 64] == COMMA && IsHexName(value[start..start + 64])
    ensures name.Some? ==> p == start + 65 && name.value == value[start..start + 64]
  {
    p := start;
    if |value| - p < 65 || value[p + 64] != COMMA {
      return None, p;
    }
    var id := value[p..p + 64];
    for i := 0 to 64
      invariant forall j :: 0 <= j < i ==> IsHex(id[j])
    {
      var c := value[p + i];
      if !(48 <= c <= 57 || 97 <= c <= 102) {
        assert !IsHex(id[i]);
        return None, p;
      }
    }
    p := p + 65;
    name := Some(id);
  }

  /** The column tests of an entry that starts at p. */
  ghost predicate EntryAt(value: seq<Byte>, p: nat)
    requires p <= |value|
  {
    && |value| - p >= 130
    && IsHexName(value[p..p + 64]) && value[p + 64] == COMMA
    && IsHexName(value[p + 65..p + 129]) && value[p + 129] == COMMA
    && var q := RunEnd(value, p + 130);
      && p + 130 < q && q + 2 <= |value| && value[p + 130] != 48
      && Value(value[p + 130..q]) <= GENERATION_LIMIT
      && value[q] == COMMA
      && (value[q + 1] == MINUS || 48 <= value[q + 1] <= 51)
  }

  lemma EntryAtShift(value: seq<Byte>, p: nat)
    requires p <= |value| && |value| - p >= 130 && EntryAt(value[p..], 0)
    ensures EntryAt(value, p)
    ensures RunEnd(value, p + 130) == p + RunEnd(value[p..], 130)
  {
    var t := value[p..];
    var q := RunEnd(t, 130);
    assert value[p..p + 64] == t[0..64];
    assert value[p + 65..p + 129] == t[65..129];
    assert value[p + 130..p + q] == t[130..q];
    RunEndIs(value, p + 130, p + q);
  }

  /** The column tests pass wherever the text goes on with a well-formed entry ... */
  lemma EntryAtRecord(value: seq<Byte>, p: nat, r: Record)
    requires p <= |value| && WellFormedRecord(r) && RecordText(r) <= value[p..]
    ensures EntryAt(value, p)
    ensures RunEnd(value, p + 130) + 2 == p + |RecordText(r)|
  {
    EntryAtStart(value[p..], r);
    EntryAtShift(value, p);
  }

  lemma EntryAtStart(t: seq<Byte>, r: Record)
    requires WellFormedRecord(r) && RecordText(r) <= t
    ensures EntryAt(t, 0)
    ensures RunEnd(t, 130) + 2 == |RecordText(r)|
  {
    RecordPrefix(r, t);
    RecordColumns(r);
    assert t[0..64] == t[..64];
  }

  /** ... and only there. */
  lemma RecordAtEntry(value: seq<Byte>, p: nat, r: Record)
    requires p <= |value| && EntryAt(value, p)
    requires r.id == value[p..p + 64] && r.kernel == value[p + 65..p + 129]
    requires r.generation == Value(value[p + 130..RunEnd(value, p + 130)])
    requires TriesInRange(r) && TriesChar(r.tries) == value[RunEnd(value, p + 130) + 1]
    ensures WellFormedRecord(r)
    ensures value[p..RunEnd(value, p + 130) + 2] == RecordText(r)
  {
    hide RunEnd, Value, Digits;
    var q := RunEnd(value, p + 130);
    DigitsOfValue(value[p + 130..q]);
    Columns(value, p, q);
  }

  lemma Columns(value: seq<Byte>, p: nat, q: nat)
    requires p + 130 <= q && q + 2 <= |value|
    ensures value[p..q + 2] == value[p..p + 64] + [value[p + 64]] + value[p + 65..p + 129] + [value[p + 129]]
                               + value[p + 130..q] + [value[q], value[q + 1]]
  {
  }

  /** One entry of the list: it is accepted exactly when the text goes on with some well-formed entry. */
  method ParseRecord(value: seq<Byte>, start: nat) returns (record: Option<Record>, p: nat)
    requires start <= |value|
    ensures record.Some? <==> EntryAt(value, start)
    ensures record.Some? ==>
      && WellFormedRecord(record.value)
      && start < p <= |value|
      && value[start..p] == RecordText(record.value)
      && Spells(value[start..p], record.value)
  {
    var id, kernel, generation;
    id, p := ParseName(value, start);
    if id.None? {
      return None, p;
    }
    kernel, p := ParseName(value, p);
    if kernel.None? || p == |value| || value[p] < 49 || value[p] > 57 {
      return None, p;
    }
    RunCovers(value, p, p + 1);
    generation, p := Accumulate(value, p);
    if generation.None? || |value| - p < 2 {
      return None, p;
    }
    var separator := value[p];
    p := p + 1;
    if separator != COMMA {
      return None, p;
    }
    var tries: int;
    if value[p] == MINUS {
      tries := -1;
    } else if 48 <= value[p] <= 51 {
      tries := value[p] - 48;
    } else {
      return None, p;
    }
    p := p + 1;
    record := Some(Record(id.value, kernel.value, generation.value, tries));
    RecordAtEntry(value, start, record.value);
    SpellsIff(value[start..p], record.value);
  }

  /** The C string that starts a piece of memory. */
  ghost function CString(memory: seq<Byte>): (s: seq<Byte>)
    ensures 0 !in s
  {
    if memory == [] || memory[0] == 0 then [] else [memory[0]] + CString(memory[1..])
  }

  lemma {:induction false} CStringIs(memory: seq<Byte>, n: nat)
    requires n <= |memory| && 0 !in memory[..n]
    ensures memory[..n] <= CString(memory)
    ensures n == |memory| || memory[n] == 0 ==> CString(memory) == memory[..n]
  {
    if n > 0 {
      assert memory[0] == memory[..n][0];
      assert memory[..n] == [memory[0]] + memory[1..][..n - 1];
      CStringIs(memory[1..], n - 1);
    }
  }

  /** Where the cursor stands once the entries of out and their separators are read. */
  ghost function Cursor(out: seq<Record>): (p: nat)
    requires forall i :: 0 <= i < |out| ==> TriesInRange(out[i])
  {
    if out == [] then 3 else 4 + |Body(out)|
  }

  /** In the text of a list, the entry after a proper prefix stands at the cursor, behind a separator. */
  lemma EntryAfter(rs: seq<Record>, out: seq<Record>)
    requires WellFormed(rs) && out < rs
    ensures Cursor(out) < |Text(rs)|
    ensures RecordText(rs[|out|]) <= Text(rs)[Cursor(out)..]
    ensures out != [] ==> Text(rs)[Cursor(out) - 1] == SEMICOLON
  {
    BodyForms(rs);
    RecordColumns(rs[|out|]);
    hide RecordText, Digits;
    if out == [] {
      assert Text(rs)[3..] == Body(rs);
    } else {
      assert out == [rs[0]];
      assert Text(rs) == HEADER + RecordText(rs[0]) + [SEMICOLON] + RecordText(rs[1]);
      assert Text(rs)[Cursor(out)..] == RecordText(rs[1]);
    }
  }

  /**
  mica_boot_parse: the loop over entries with its cursor. It accepts exactly the texts of
  well-formed lists and returns the list.
  */
  method Parse(memory: seq<Byte>) returns (records: Option<seq<Record>>)
    requires |memory| > VALUE_LIMIT || 0 in memory
    ensures records == Parsed(CString(memory))
  {
    var length := 0;
    while length <= VALUE_LIMIT && memory[length] != 0
      invariant 0 <= length <= VALUE_LIMIT + 1 && length <= |memory|
      invariant length == |memory| ==> length == VALUE_LIMIT + 1
      invariant 0 !in memory[..length]
    {
      assert memory[..length + 1] == memory[..length] + [memory[length]];
      length := length + 1;
    }
    CStringIs(memory, length);
    ghost var whole := CString(memory);
    forall rs | WellFormed(rs) ensures 4 <= |Text(rs)| <= 300 && HEADER <= Text(rs) {
      TextWidth(rs);
    }
    if length > VALUE_LIMIT || length < 4 || memory[..3] != HEADER {
      return None;
    }
    var value := memory[..length];
    records := ParseEntries(value);
  }

  /** The state of the parser between entries: what is read, and what the text can still denote. */
  ghost predicate Reading(value: seq<Byte>, out: seq<Record>, p: int) {
    && |out| <= RECORD_LIMIT
    && (forall i :: 0 <= i < |out| ==> WellFormedRecord(out[i]))
    && Descending(out)
    && 3 <= p == Cursor(out) <= |value|
    && value[..p] == TextBefore(out)
    && (Parsed(value).Some? ==> out < Parsed(value).value)
  }

  method ParseEntries(value: seq<Byte>) returns (records: Option<seq<Record>>)
    requires |value| >= 4 && value[..3] == HEADER
    ensures records == Parsed(value)
  {
    hide Parsed, RecordText, Text, Body, Distinct;
    var out: seq<Record> := [];
    var p := 3;
    while p < |value|
      invariant Reading(value, out, p)
      decreases |value| - p
    {
      if |out| == RECORD_LIMIT {
        return None;
      }
      var r;
      r, p := ParseRecord(value, p);
      if r.None? {
        NoEntry(value, out);
        return None;
      }
      EntryTaken(value, out, r.value, p);
      var distinct := IsDistinct(out, r.value);
      if !distinct {
        return None;
      }
      out := out + [r.value];
      if p == |value| {
        return Some(out);
      }
      var separator := value[p];
      p := p + 1;
      if separator != SEMICOLON || p == |value| {
        return None;
      }
    }
    NoEntry(value, out);
    return None;
  }

  ghost predicate Distinct(out: seq<Record>, r: Record) {
    forall j :: 0 <= j < |out| ==> out[j].id != r.id && out[j].generation > r.generation
  }

  /** The new entry repeats no id and is older than every entry before it. */
  method IsDistinct(out: seq<Record>, r: Record) returns (ok: bool)
    ensures ok <==> Distinct(out, r)
  {
    for i := 0 to |out|
      invariant forall j :: 0 <= j < i ==> out[j].id != r.id && out[j].generation > r.generation
    {
      if out[i].id == r.id || out[i].generation <= r.generation {
        return false;
      }
    }
    return true;
  }

  /** All that one accepted entry settles: what follows it decides between done, more and refused. */
  lemma EntryTaken(value: seq<Byte>, out: seq<Record>, r: Record, p: int)
    requires forall i :: 0 <= i < |out| ==> TriesInRange(out[i])
    requires Reading(value, out, Cursor(out)) && |out| < RECORD_LIMIT
    requires Cursor(out) < p <= |value| && WellFormedRecord(r) && value[Cursor(out)..p] == RecordText(r)
    ensures Parsed(value).Some? ==> Distinct(out, r)
    ensures Distinct(out, r) && p == |value| ==> Parsed(value) == Some(out + [r])
    ensures Distinct(out, r) && p < |value| && Parsed(value).Some? ==> value[p] == SEMICOLON && p + 1 < |value|
    ensures Distinct(out, r) && p < |value| && value[p] == SEMICOLON ==> Reading(value, out + [r], p + 1)
  {
    hide RecordText, Body, Text, Parsed, IsHexName;
    EntryRead(value, out, r, p);
    InOrder(Parsed(value), out, r);
    TextGrows(value, out, r, p);
    if Distinct(out, r) {
      var more := out + [r];
      assert WellFormed(more);
      if p == |value| {
        assert value[..p] == value;
        ParsedText(more);
      } else {
        MoreEntries(value, more, p);
        if value[p] == SEMICOLON {
          assert value[..p + 1] == value[..p] + [SEMICOLON];
        }
      }
    }
  }

  lemma NoEntry(value: seq<Byte>, out: seq<Record>)
    requires forall i :: 0 <= i < |out| ==> TriesInRange(out[i])
    requires Parsed(value).Some? ==> out < Parsed(value).value
    requires Cursor(out) <= |value| && !EntryAt(value, Cursor(out))
    ensures Parsed(value) == None
  {
    var target := Parsed(value);
    if target.Some? {
      EntryAfter(target.value, out);
      EntryAtRecord(value, Cursor(out), target.value[|out|]);
    }
  }

  /** The entry just parsed is the next one of the list the text denotes, if it denotes one. */
  lemma EntryRead(value: seq<Byte>, out: seq<Record>, r: Record, p: nat)
    requires forall i :: 0 <= i < |out| ==> TriesInRange(out[i])
    requires Parsed(value).Some? ==> out < Parsed(value).value
    requires Cursor(out) <= p <= |value|
    requires WellFormedRecord(r) && RecordText(r) == value[Cursor(out)..p]
    ensures Parsed(value).Some? ==> out + [r] <= Parsed(value).value
  {
    var target := Parsed(value);
    if target.Some? {
      EntryAfter(target.value, out);
      var t := value[Cursor(out)..];
      assert t[..p - Cursor(out)] == RecordText(r);
      RecordTextPrefixFree(target.value[|out|], r, t);
    }
  }

  /** In a list the text denotes, the entry just parsed is distinct from and older than the ones before. */
  lemma InOrder(target: Option<seq<Record>>, out: seq<Record>, r: Record)
    requires target.Some? ==> WellFormed(target.value) && out + [r] <= target.value
    ensures target.Some? ==> Distinct(out, r)
  {
    if target.Some? {
      var rs := target.value;
      assert rs[|out|] == r;
      assert forall j :: 0 <= j < |out| ==> out[j] == rs[j];
    }
  }

  lemma TextGrows(value: seq<Byte>, out: seq<Record>, r: Record, p: nat)
    requires TriesInRange(r) && forall i :: 0 <= i < |out| ==> TriesInRange(out[i])
    requires Cursor(out) <= p <= |value| && value[Cursor(out)..p] == RecordText(r)
    requires value[..Cursor(out)] == TextBefore(out)
    ensures value[..p] == Text(out + [r]) && p == 3 + |Body(out + [r])|
  {
    hide RecordText, Body;
    TextAppend(out, r);
    Rejoin(value, Cursor(out), p);
  }

  lemma Rejoin(value: seq<Byte>, c: nat, p: nat)
    requires c <= p <= |value|
    ensures value[..p] == value[..c] + value[c..p]
  {
  }

  /** What precedes the entry that follows out. */
  function TextBefore(out: seq<Record>): (s: seq<Byte>)
    requires forall i :: 0 <= i < |out| ==> TriesInRange(out[i])
    ensures |s| == Cursor(out)
  {
    if out == [] then HEADER else Text(out) + [SEMICOLON]
  }

  lemma TextAppend(out: seq<Record>, r: Record)
    requires TriesInRange(r) && forall i :: 0 <= i < |out| ==> TriesInRange(out[i])
    ensures Text(out + [r]) == TextBefore(out) + RecordText(r)
  {
  }

  lemma Associate(a: seq<Byte>, b: seq<Byte>, c: seq<Byte>, d: seq<Byte>)
    ensures a + (b + c + d) == a + b + c + d
  {
  }

  /** Text left over after an entry can only be a separator and a further entry. */
  lemma MoreEntries(value: seq<Byte>, out: seq<Record>, p: nat)
    requires out != [] && forall i :: 0 <= i < |out| ==> TriesInRange(out[i])
    requires Parsed(value).Some? ==> out <= Parsed(value).value
    requires p == 3 + |Body(out)| < |value|
    ensures Parsed(value).Some? ==> out < Parsed(value).value && value[p] == SEMICOLON && p + 1 < |value|
  {
    var target := Parsed(value);
    if target.Some? {
      assert target.value != out;
      EntryAfter(target.value, out);
    }
  }

  // ----- the printer -----

  /** mica_boot_render: it succeeds exactly on well-formed lists and writes their text. */
  method Render(rs: seq<Record>) returns (text: Option<seq<Byte>>)
    ensures text.Some? <==> WellFormed(rs)
    ensures text.Some? ==> text.value == Text(rs)
  {
    if |rs| == 0 || |rs| > RECORD_LIMIT {
      return None;
    }
    text := Print(rs);
    if text.None? {
      return None;
    }
    TextNulFree(rs);
    var memory := text.value + [0];
    CStringIs(memory, |text.value|);
    assert memory[..|text.value|] == text.value;
    var checked := Parse(memory);
    if checked.None? {
      return None;
    }
    TextInjective(rs, checked.value);
  }

  /** The print loop: one snprintf per entry into the space left. */
  method Print(rs: seq<Record>) returns (text: Option<seq<Byte>>)
    requires 1 <= |rs| <= RECORD_LIMIT
    ensures text.Some? ==> (forall j :: 0 <= j < |rs| ==> TriesInRange(rs[j])) && text.value == Text(rs)
    ensures text.None? ==> !WellFormed(rs)
  {
    var buffer := HEADER;
    for i := 0 to |rs|
      invariant forall j :: 0 <= j < i ==> TriesInRange(rs[j])
      invariant buffer == Text(rs[..i]) && |buffer| <= VALUE_LIMIT
    {
      var r := rs[i];
      if r.tries < -1 || r.tries > 3 {
        return None;
      }
      var written := (if i > 0 then [SEMICOLON] else []) + RecordText(r);
      PrintOne(rs, i);
      if |written| > VALUE_LIMIT - |buffer| {
        return None;
      }
      buffer := buffer + written;
    }
    assert rs[..|rs|] == rs;
    text := Some(buffer);
  }

  lemma PrintOne(rs: seq<Record>, i: nat)
    requires i < |rs| <= RECORD_LIMIT && forall j :: 0 <= j <= i ==> TriesInRange(rs[j])
    ensures Text(rs[..i + 1]) == Text(rs[..i]) + ((if i > 0 then [SEMICOLON] else []) + RecordText(rs[i]))
    ensures WellFormed(rs) ==> |Text(rs[..i + 1])| <= 300
  {
    hide RecordText;
    TextAppend(rs[..i], rs[i]);
    assert rs[..i + 1] == rs[..i] + [rs[i]];
    Associate(HEADER, Body(rs[..i]), [SEMICOLON], RecordText(rs[i]));
    if WellFormed(rs) {
      TextWidth(rs[..i + 1]);
    }
  }

  // ----- the choice of the next deployment -----

  /** The entry to boot: the first one with attempts left or confirmed. */
  predicate IsNext(rs: seq<Record>, i: int) {
    && (i == -1 || 0 <= i < |rs|)
    && (i == -1 ==> forall j :: 0 <= j < |rs| ==> rs[j].tries == 0)
    && (i >= 0 ==> rs[i].tries != 0 && forall j :: 0 <= j < i ==> rs[j].tries == 0)
  }

  function Next(rs: seq<Record>): (i: int)
    ensures IsNext(rs, i)
  {
    NextFrom(rs, 0)
  }

  function NextFrom(rs: seq<Record>, k: nat): (i: int)
    requires k <= |rs| && forall j :: 0 <= j < k ==> rs[j].tries == 0
    ensures IsNext(rs, i)
    decreases |rs| - k
  {
    if k == |rs| then -1 else if rs[k].tries != 0 then k else NextFrom(rs, k + 1)
  }

  /** mica_boot_next. */
  method FindNext(rs: seq<Record>) returns (next: int)
    ensures next == Next(rs)
  {
    for i := 0 to |rs|
      invariant forall j :: 0 <= j < i ==> rs[j].tries == 0
    {
      if rs[i].tries != 0 {
        return i;
      }
    }
    return -1;
  }

  /** The chosen entry has the greatest generation among those with attempts left or confirmed. */
  lemma NextIsNewest(rs: seq<Record>, j: nat)
    requires WellFormed(rs) && j < |rs| && rs[j].tries != 0
    ensures var i := Next(rs); 0 <= i <= j && rs[i].tries != 0 && rs[j].generation <= rs[i].generation
  {
  }
}

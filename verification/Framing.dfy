/**
The drain loop that three places run over a stream buffer, as a function of the bytes: the frames it
takes, the rest it keeps, and how it stops. The loops differ in what they refuse and what they deliver.
*/
module Framing {
  import opened Bytes
  import opened H4

  /** Which loop: the bridge reading the controller, the library reading the host or the controller. */
  datatype Side =
    | BridgeController(aclMtu: nat, scoMtu: nat)
    | LibraryHost
    | LibraryController

  /** controller_frame_limit of the bridge. */
  function ControllerLimit(aclMtu: nat, scoMtu: nat, kind: Byte): (n: nat) {
    if kind == EVENT then EVENT_MAX_FRAME
    else if kind == ACL then (if aclMtu != 0 then aclMtu + 5 else 0)
    else if kind == SCO then (if scoMtu != 0 then scoMtu + 4 else 0)
    else if kind == ISO then ISO_MAX_FRAME
    else if kind == LOG then STREAM_CAPACITY
    else 0
  }

  /** The limits of the library's controller reader. */
  function LibraryControllerLimit(kind: Byte): (n: nat) {
    if kind == EVENT then EVENT_MAX_FRAME
    else if kind == ACL then KERNEL_MAX_FRAME
    else if kind == SCO then SCO_MAX_FRAME
    else if kind == ISO then ISO_MAX_FRAME
    else if kind == LOG then STREAM_CAPACITY
    else 0
  }

  /** frame_within_limit. */
  predicate WithinLimit(frame: Frame, limit: nat) {
    limit > 0 && frame.size <= limit && frame.size <= KERNEL_MAX_FRAME
  }

  /** host_frame_allowed of the library. */
  predicate HostAllowed(frame: Frame) {
    if frame.kind == COMMAND then frame.size <= COMMAND_MAX_FRAME
    else if frame.kind == ACL then frame.size <= KERNEL_MAX_FRAME
    else if frame.kind == SCO then frame.size <= SCO_MAX_FRAME
    else if frame.kind == ISO then frame.size <= ISO_MAX_FRAME
    else false
  }

  predicate Rejects(side: Side, d: Decoded) {
    match side
    case BridgeController(aclMtu, scoMtu) =>
      var limit := ControllerLimit(aclMtu, scoMtu, d.frame.kind);
      var sizeValid := if d.frame.kind == LOG then d.frame.size <= limit else WithinLimit(d.frame, limit);
      d.status == Invalid || limit == 0 || (d.frame.size != 0 && !sizeValid)
    case LibraryHost =>
      d.status == Invalid || (d.frame.size != 0 && !HostAllowed(d.frame))
    case LibraryController =>
      var limit := LibraryControllerLimit(d.frame.kind);
      d.status == Invalid || limit == 0 || (d.frame.size != 0 && d.frame.size > limit)
  }

  /** Log frames from the controller are dropped or logged; every other frame is passed on. */
  predicate Delivers(side: Side, kind: Byte) {
    side == LibraryHost || kind != LOG
  }

  datatype Verdict = Refuse | Wait | Take(size: nat)

  /** What a loop does with the bytes at the head of its buffer; a taken frame has at least three bytes. */
  function Judge(side: Side, data: seq<Byte>): (v: Verdict)
    requires data != []
    ensures v.Take? ==> 3 <= v.size <= |data| && v.size <= STREAM_CAPACITY
  {
    var d := Decode(data);
    if Rejects(side, d) then Refuse else if d.status == Incomplete then Wait else Take(d.frame.size)
  }

  /** The greatest frame each loop takes of each type; 0 where it takes none. */
  ghost function Greatest(side: Side, kind: Byte): (n: nat) {
    match side
    case BridgeController(aclMtu, scoMtu) =>
      if kind == 2 then (if aclMtu == 0 then 0 else if aclMtu <= 1023 then aclMtu + 5 else 1028)
      else if kind == 3 then (if scoMtu == 0 then 0 else if scoMtu <= 1024 then scoMtu + 4 else 1028)
      else if kind == 4 then 258 else if kind == 5 then 256 else if kind == 7 then 4096 else 0
    case LibraryHost =>
      if kind == 1 || kind == 3 then 259 else if kind == 2 then 1028 else if kind == 5 then 256 else 0
    case LibraryController =>
      if kind == 2 then 1028 else if kind == 3 then 259 else if kind == 4 then 258 else if kind == 5 then 256
      else if kind == 7 then 4096 else 0
  }

  /**
  What each loop does with the head of its buffer, in terms of bytes: it refuses what is malformed or too
  large, the readers of the controller also a type they do not take, and otherwise waits for the whole frame.
  */
  lemma JudgeMeans(side: Side, data: seq<Byte>)
    requires data != []
    ensures Judge(side, data) ==
      if Malformed(data) || (side != LibraryHost && Greatest(side, data[0]) == 0)
         || Announced(data) > Greatest(side, data[0])
      then Refuse
      else if Announced(data) == 0 || |data| < Announced(data) then Wait
      else Take(Announced(data))
  {
    hide Decode, Announced, Malformed;
    DecodeMeans(data);
    KindOfInvalid(data);
  }

  lemma KindOfInvalid(data: seq<Byte>)
    requires data != []
    ensures Decode(data).frame.kind == data[0]
  {
  }

  datatype Outcome = Waiting | Refused | SendFailed

  /** The frames taken, the bytes left, how the loop stopped, and how many more sends will succeed. */
  datatype Drained = Drained(frames: seq<seq<Byte>>, rest: seq<Byte>, outcome: Outcome, sends: nat)

  /** One drain of the buffer, when the next sends succeed that many times and then one fails. */
  function Drain(side: Side, data: seq<Byte>, sends: nat): (d: Drained)
    decreases |data|
  {
    if data == [] then Drained([], [], Waiting, sends)
    else
      match Judge(side, data)
      case Refuse => Drained([], data, Refused, sends)
      case Wait => Drained([], data, Waiting, sends)
      case Take(n) =>
        if Delivers(side, data[0]) && sends == 0 then Drained([], data, SendFailed, 0)
        else
          var d := Drain(side, data[n..], if Delivers(side, data[0]) then sends - 1 else sends);
          d.(frames := [data[..n]] + d.frames)
  }

  /** In the middle of a drain: these frames are taken, these bytes are held, this many sends are left. */
  ghost predicate Draining(side: Side, whole: Drained, taken: seq<seq<Byte>>, held: seq<Byte>, left: nat) {
    var d := Drain(side, held, left); whole == d.(frames := taken + d.frames)
  }

  lemma DrainStarts(side: Side, data: seq<Byte>, sends: nat)
    ensures Draining(side, Drain(side, data, sends), [], data, sends)
  {
  }

  /** One turn of the loop: how the drain ends here, or how it goes on. */
  lemma DrainTurn(side: Side, whole: Drained, taken: seq<seq<Byte>>, held: seq<Byte>, left: nat)
    requires Draining(side, whole, taken, held, left)
    ensures held == [] ==> whole == Drained(taken, [], Waiting, left)
    ensures held != [] ==> match Judge(side, held)
      case Refuse => whole == Drained(taken, held, Refused, left)
      case Wait => whole == Drained(taken, held, Waiting, left)
      case Take(n) =>
        if Delivers(side, held[0]) && left == 0 then whole == Drained(taken, held, SendFailed, left)
        else Draining(side, whole, taken + [held[..n]], held[n..], if Delivers(side, held[0]) then left - 1 else left)
  {
    hide Judge, Delivers;
    if held != [] {
      var v := Judge(side, held);
      if v.Take? && (Delivers(side, held[0]) ==> left > 0) {
        DrainFirst(side, held, left);
        var later := Drain(side, held[v.size..], SendsLeft(side, held[0], left));
        assert taken + ([held[..v.size]] + later.frames) == (taken + [held[..v.size]]) + later.frames;
      }
    }
    assert taken + [] == taken;
  }

  function Concat(frames: seq<seq<Byte>>): (s: seq<Byte>) {
    if frames == [] then [] else frames[0] + Concat(frames[1..])
  }

  lemma {:induction false} ConcatAppend(a: seq<seq<Byte>>, b: seq<seq<Byte>>)
    ensures Concat(a + b) == Concat(a) + Concat(b)
  {
    if a == [] {
      assert a + b == b;
    } else {
      assert (a + b)[0] == a[0] && (a + b)[1..] == a[1..] + b;
      ConcatAppend(a[1..], b);
      calc {
        Concat(a + b);
        a[0] + Concat(a[1..] + b);
        a[0] + (Concat(a[1..]) + Concat(b));
        Concat(a) + Concat(b);
      }
    }
  }

  lemma ConcatOne(frame: seq<Byte>)
    ensures Concat([frame]) == frame
  {
  }

  lemma ConcatFirst(frame: seq<Byte>, frames: seq<seq<Byte>>, rest: seq<Byte>)
    ensures Concat([frame] + frames) + rest == frame + (Concat(frames) + rest)
  {
  }

  /** A read takes at least one byte, and no more than there is room for or than has arrived. */
  function ReadSize(wanted: nat, room: nat, available: nat): (n: nat)
    requires room > 0 && available > 0
    ensures 0 < n <= room && n <= available
    ensures 0 < wanted <= room && wanted <= available ==> n == wanted
    ensures wanted > room || wanted > available ==> n == room || n == available
  {
    var most := if room <= available then room else available;
    if wanted == 0 then 1 else if wanted <= most then wanted else most
  }

  // ----- frames by type -----

  /** The frames whose first byte is one of these, in order, and those whose first byte is none of them. */
  ghost function Of(frames: seq<seq<Byte>>, kinds: set<int>): (some: seq<seq<Byte>>) {
    if frames == [] then []
    else (if frames[0] != [] && frames[0][0] as int in kinds then [frames[0]] else []) + Of(frames[1..], kinds)
  }

  ghost function NotOf(frames: seq<seq<Byte>>, kinds: set<int>): (others: seq<seq<Byte>>) {
    if frames == [] then []
    else (if frames[0] != [] && frames[0][0] as int !in kinds then [frames[0]] else []) + NotOf(frames[1..], kinds)
  }

  /** Each frame the host's reader takes costs one send; of the controller's frames those that are not log frames. */
  lemma {:induction false} SendsSpent(side: Side, data: seq<Byte>, sends: nat)
    ensures var d := Drain(side, data, sends);
      && sends == d.sends + (if side == LibraryHost then |d.frames| else |NotOf(d.frames, {7})|)
      && (d.outcome == SendFailed ==> d.sends == 0 && d.rest != [] && (side != LibraryHost ==> d.rest[0] != 7))
    decreases |data|
  {
    hide Judge;
    if data != [] {
      var v := Judge(side, data);
      if v.Take? && (Delivers(side, data[0]) ==> sends > 0) {
        DrainFirst(side, data, sends);
        SendsSpent(side, data[v.size..], SendsLeft(side, data[0], sends));
        var later := Drain(side, data[v.size..], SendsLeft(side, data[0], sends)).frames;
        assert ([data[..v.size]] + later)[1..] == later;
      }
    }
  }

  // ----- stability -----

  /** A verdict other than to wait stands, whatever follows. */
  lemma JudgeStable(side: Side, data: seq<Byte>, more: seq<Byte>)
    requires data != [] && Judge(side, data) != Wait
    ensures Judge(side, data + more) == Judge(side, data)
  {
    hide Decode;
    DecodeStable(data, more);
  }

  /** What a drain leaves when it waits is shorter than the buffer, so the next read always has room. */
  lemma {:induction false} RestFits(side: Side, data: seq<Byte>, sends: nat)
    ensures var d := Drain(side, data, sends); d.outcome == Waiting ==> |d.rest| < STREAM_CAPACITY
    decreases |data|
  {
    if data != [] {
      var v := Judge(side, data);
      if v.Take? {
        RestFits(side, data[v.size..], if Delivers(side, data[0]) && sends > 0 then sends - 1 else sends);
      }
    }
  }

  /** How many sends are left behind a frame of this kind. */
  function SendsLeft(side: Side, kind: Byte, sends: nat): (left: nat)
    requires Delivers(side, kind) ==> sends > 0
  {
    if Delivers(side, kind) then sends - 1 else sends
  }

  /** A drain that takes a first frame. */
  lemma DrainFirst(side: Side, data: seq<Byte>, sends: nat)
    requires data != [] && Judge(side, data).Take? && (Delivers(side, data[0]) ==> sends > 0)
    ensures var n := Judge(side, data).size;
      var d := Drain(side, data[n..], SendsLeft(side, data[0], sends));
      Drain(side, data, sends) == d.(frames := [data[..n]] + d.frames)
  {
    hide Judge;
  }

  /** Conservation: the frames taken and the bytes left are the bytes received, in order. */
  lemma {:induction false} DrainConserves(side: Side, data: seq<Byte>, sends: nat)
    ensures var d := Drain(side, data, sends); Concat(d.frames) + d.rest == data
    decreases |data|
  {
    hide Judge, Delivers;
    if data != [] {
      var v := Judge(side, data);
      if v.Take? && !(Delivers(side, data[0]) && sends == 0) {
        DrainConserves(side, data[v.size..], SendsLeft(side, data[0], sends));
        DrainConservesTaken(side, data, sends);
      }
    }
  }

  lemma DrainConservesTaken(side: Side, data: seq<Byte>, sends: nat)
    requires data != [] && Judge(side, data).Take? && (Delivers(side, data[0]) ==> sends > 0)
    requires var later := data[Judge(side, data).size..];
      var d := Drain(side, later, SendsLeft(side, data[0], sends));
      Concat(d.frames) + d.rest == later
    ensures var d := Drain(side, data, sends); Concat(d.frames) + d.rest == data
  {
    hide Judge, Drain, SendsLeft, Concat;
    DrainFirst(side, data, sends);
    var n := Judge(side, data).size;
    var d := Drain(side, data[n..], SendsLeft(side, data[0], sends));
    ConcatFirst(data[..n], d.frames, d.rest);
    assert data == data[..n] + data[n..];
  }

  /** Draining a longer buffer goes on exactly where draining its first part stopped. */
  lemma {:induction false} DrainAppend(side: Side, a: seq<Byte>, b: seq<Byte>, sends: nat)
    ensures var d := Drain(side, a, sends);
      Drain(side, a + b, sends) ==
        if d.outcome != Waiting then d.(rest := d.rest + b)
        else var e := Drain(side, d.rest + b, d.sends); e.(frames := d.frames + e.frames)
    decreases |a|
  {
    hide Judge, Delivers;
    if a == [] {
      assert a + b == b;
      assert [] + Drain(side, b, sends).frames == Drain(side, b, sends).frames;
    } else {
      var v := Judge(side, a);
      if v == Wait {
        assert [] + Drain(side, a + b, sends).frames == Drain(side, a + b, sends).frames;
      } else {
        JudgeStable(side, a, b);
        if v.Take? && !(Delivers(side, a[0]) && sends == 0) {
          DrainAppend(side, a[v.size..], b, SendsLeft(side, a[0], sends));
          DrainAppendTaken(side, a, b, sends);
        }
      }
    }
  }

  lemma DrainAppendTaken(side: Side, a: seq<Byte>, b: seq<Byte>, sends: nat)
    requires a != [] && Judge(side, a).Take? && (Delivers(side, a[0]) ==> sends > 0)
    requires var later, left := a[Judge(side, a).size..], SendsLeft(side, a[0], sends);
      var d := Drain(side, later, left);
      Drain(side, later + b, left) ==
        if d.outcome != Waiting then d.(rest := d.rest + b)
        else var e := Drain(side, d.rest + b, d.sends); e.(frames := d.frames + e.frames)
    ensures var d := Drain(side, a, sends);
      Drain(side, a + b, sends) ==
        if d.outcome != Waiting then d.(rest := d.rest + b)
        else var e := Drain(side, d.rest + b, d.sends); e.(frames := d.frames + e.frames)
  {
    hide Judge, Drain, SendsLeft;
    JudgeStable(side, a, b);
    DrainFirst(side, a, sends);
    DrainFirst(side, a + b, sends);
    var n := Judge(side, a).size;
    assert (a + b)[..n] == a[..n] && (a + b)[n..] == a[n..] + b;
    var d := Drain(side, a[n..], SendsLeft(side, a[0], sends));
    var e := Drain(side, d.rest + b, d.sends);
    assert [a[..n]] + (d.frames + e.frames) == ([a[..n]] + d.frames) + e.frames;
  }

  // ----- any split into reads -----

  /** Reading chunk after chunk into the buffer and draining after each, until the loop stops. */
  function Feed(side: Side, rest: seq<Byte>, chunks: seq<seq<Byte>>, sends: nat): (d: Drained)
    decreases |chunks|
  {
    if chunks == [] then Drained([], rest, Waiting, sends)
    else
      var d := Drain(side, rest + chunks[0], sends);
      if d.outcome != Waiting then d
      else
        var e := Feed(side, d.rest, chunks[1..], d.sends);
        e.(frames := d.frames + e.frames)
  }

  /** A loop waiting at the end of a drain: draining the rest again changes nothing. */
  lemma {:induction false} WaitingIsStable(side: Side, data: seq<Byte>, sends: nat)
    requires Drain(side, data, sends).outcome == Waiting
    ensures var d := Drain(side, data, sends); Drain(side, d.rest, d.sends) == Drained([], d.rest, Waiting, d.sends)
    decreases |data|
  {
    hide Judge;
    if data != [] {
      var v := Judge(side, data);
      if v.Take? {
        WaitingIsStable(side, data[v.size..], if Delivers(side, data[0]) then sends - 1 else sends);
      }
    }
  }

  /**
  Chunking independence: however a byte stream is cut into reads, the loop takes the same frames and stops
  in the same way as one pass over the whole stream; if it keeps waiting it also keeps the same bytes.
  */
  lemma {:induction false} ChunkingIndependent(side: Side, rest: seq<Byte>, chunks: seq<seq<Byte>>, sends: nat)
    requires Drain(side, rest, sends) == Drained([], rest, Waiting, sends)
    ensures var fed, whole := Feed(side, rest, chunks, sends), Drain(side, rest + Concat(chunks), sends);
      && fed.frames == whole.frames && fed.outcome == whole.outcome && fed.sends == whole.sends
      && fed.rest <= whole.rest
      && (whole.outcome == Waiting ==> fed.rest == whole.rest)
    decreases |chunks|
  {
    hide Judge, Drain;
    if chunks == [] {
      assert rest + Concat(chunks) == rest;
    } else {
      var d := Drain(side, rest + chunks[0], sends);
      var later := Concat(chunks[1..]);
      assert rest + Concat(chunks) == rest + chunks[0] + later;
      DrainAppend(side, rest + chunks[0], later, sends);
      if d.outcome == Waiting {
        WaitingIsStable(side, rest + chunks[0], sends);
        ChunkingIndependent(side, d.rest, chunks[1..], d.sends);
      }
    }
  }

  /** Every read of the loop finds free space: the full-buffer refusal is never reached. */
  lemma ReadAlwaysHasRoom(side: Side, chunks: seq<seq<Byte>>, sends: nat)
    requires Feed(side, [], chunks, sends).outcome == Waiting
    ensures |Feed(side, [], chunks, sends).rest| < STREAM_CAPACITY
  {
    ChunkingIndependent(side, [], chunks, sends);
    RestFits(side, [] + Concat(chunks), sends);
  }

  // ----- the reading loop -----

  /**
  How many of the incoming bytes a loop has read after reads of these sizes: it reads on as long as the
  drain of what it has read waits and there is something to read.
  */
  function ReadUpTo(side: Side, incoming: seq<Byte>, sizes: seq<nat>, sends: nat): (read: nat)
    ensures read <= |incoming|
    decreases |sizes|
  {
    if sizes == [] then 0
    else
      var read := ReadUpTo(side, incoming, sizes[..|sizes| - 1], sends);
      var d := Drain(side, incoming[..read], sends);
      if d.outcome != Waiting || read == |incoming| then read
      else
        RestFits(side, incoming[..read], sends);
        read + ReadSize(sizes[|sizes| - 1], STREAM_CAPACITY - |d.rest|, |incoming| - read)
  }

  lemma ReadStarts(side: Side, incoming: seq<Byte>, sends: nat)
    ensures ReadUpTo(side, incoming, [], sends) == 0
    ensures Drain(side, incoming[..0], sends) == Drained([], [], Waiting, sends)
  {
  }

  /** One turn of the loop: the buffer has room, and draining it goes on where the drain so far stopped. */
  lemma ReadTurn(side: Side, incoming: seq<Byte>, sizes: seq<nat>, i: nat, sends: nat)
    requires i < |sizes|
    ensures var read := ReadUpTo(side, incoming, sizes[..i], sends);
      var d := Drain(side, incoming[..read], sends);
      if d.outcome != Waiting || read == |incoming| then ReadUpTo(side, incoming, sizes[..i + 1], sends) == read
      else
        && |d.rest| < STREAM_CAPACITY
        && var n := ReadSize(sizes[i], STREAM_CAPACITY - |d.rest|, |incoming| - read);
        && ReadUpTo(side, incoming, sizes[..i + 1], sends) == read + n
        && var e := Drain(side, d.rest + incoming[read..read + n], d.sends);
        Drain(side, incoming[..read + n], sends) == e.(frames := d.frames + e.frames)
  {
    hide Drain, ReadSize;
    var read := ReadUpTo(side, incoming, sizes[..i], sends);
    var d := Drain(side, incoming[..read], sends);
    assert sizes[..i + 1][..i] == sizes[..i];
    if d.outcome == Waiting && read < |incoming| {
      RestFits(side, incoming[..read], sends);
      var n := ReadSize(sizes[i], STREAM_CAPACITY - |d.rest|, |incoming| - read);
      DrainAppend(side, incoming[..read], incoming[read..read + n], sends);
      assert incoming[..read] + incoming[read..read + n] == incoming[..read + n];
    }
  }

  /** A loop that still waits has taken at least one byte with each read, until there were none left. */
  lemma {:induction false} ReadProgress(side: Side, incoming: seq<Byte>, sizes: seq<nat>, sends: nat)
    ensures var read := ReadUpTo(side, incoming, sizes, sends);
      Drain(side, incoming[..read], sends).outcome == Waiting ==> read == |incoming| || read >= |sizes|
    decreases |sizes|
  {
    hide Drain;
    if sizes != [] {
      ReadProgress(side, incoming, sizes[..|sizes| - 1], sends);
    }
  }

  /** With as many reads as bytes the sizes no longer matter: the loop takes what one pass over all of them takes. */
  lemma ReadsSuffice(side: Side, incoming: seq<Byte>, sizes: seq<nat>, sends: nat)
    requires |sizes| >= |incoming|
    ensures var read := ReadUpTo(side, incoming, sizes, sends);
      var d, whole := Drain(side, incoming[..read], sends), Drain(side, incoming, sends);
      && d.frames == whole.frames && d.outcome == whole.outcome && d.sends == whole.sends
      && d.rest + incoming[read..] == whole.rest
  {
    hide Drain, ReadUpTo;
    ReadProgress(side, incoming, sizes, sends);
    var read := ReadUpTo(side, incoming, sizes, sends);
    assert incoming[..read] + incoming[read..] == incoming;
    DrainAppend(side, incoming[..read], incoming[read..], sends);
    if read == |incoming| {
      assert incoming[..read] == incoming;
    }
  }

  // ----- whole frames in, the same frames out -----

  /** The loop takes this frame whole when it is at the head of the buffer. */
  predicate Accepts(side: Side, frame: seq<Byte>) {
    frame != [] && Judge(side, frame) == Take(|frame|)
  }

  /** A loop takes exactly the complete packets up to its greatest size. */
  lemma AcceptsIff(side: Side, frame: seq<Byte>)
    ensures Accepts(side, frame) <==>
      frame != [] && !Malformed(frame) && Announced(frame) == |frame| <= Greatest(side, frame[0])
  {
    hide Judge, Announced, Malformed;
    if frame != [] {
      JudgeMeans(side, frame);
    }
  }

  /** What a loop has taken it takes again when it is alone. */
  lemma TakenAccepted(side: Side, data: seq<Byte>)
    requires data != [] && Judge(side, data).Take?
    ensures Accepts(side, data[..Judge(side, data).size])
  {
    DecodedAlone(data);
  }

  /** Every frame that comes out of a loop is one that this loop accepts. */
  lemma {:induction false} DrainedAccepted(side: Side, data: seq<Byte>, sends: nat)
    ensures forall k :: 0 <= k < |Drain(side, data, sends).frames| ==> Accepts(side, Drain(side, data, sends).frames[k])
    decreases |data|
  {
    hide Judge, Accepts;
    if data != [] {
      var v := Judge(side, data);
      if v.Take? && !(Delivers(side, data[0]) && sends == 0) {
        TakenAccepted(side, data);
        DrainedAccepted(side, data[v.size..], if Delivers(side, data[0]) then sends - 1 else sends);
      }
    }
  }

  /** How many of the frames are passed on. */
  function Deliveries(side: Side, frames: seq<seq<Byte>>): (n: nat)
  {
    if frames == [] then 0
    else (if frames[0] != [] && Delivers(side, frames[0][0]) then 1 else 0) + Deliveries(side, frames[1..])
  }

  /** A concatenation of acceptable frames is taken apart into those frames, as long as the sends last. */
  lemma {:induction false} DrainConcat(side: Side, frames: seq<seq<Byte>>, sends: nat)
    requires forall i :: 0 <= i < |frames| ==> Accepts(side, frames[i])
    requires Deliveries(side, frames) <= sends
    ensures Drain(side, Concat(frames), sends) == Drained(frames, [], Waiting, sends - Deliveries(side, frames))
    decreases |frames|
  {
    hide Judge;
    if frames != [] {
      var f, later := frames[0], Concat(frames[1..]);
      var data := f + later;
      assert data == Concat(frames);
      JudgeStable(side, f, later);
      assert data[..|f|] == f && data[|f|..] == later && data[0] == f[0];
      DrainConcat(side, frames[1..], SendsLeft(side, f[0], sends));
      DrainFirst(side, data, sends);
      assert [f] + frames[1..] == frames;
    }
  }

  /** At the first frame a loop does not accept it stops, with the frames before it taken. */
  lemma DrainRefuses(side: Side, frames: seq<seq<Byte>>, bad: seq<Byte>, more: seq<Byte>, sends: nat)
    requires forall i :: 0 <= i < |frames| ==> Accepts(side, frames[i])
    requires Deliveries(side, frames) <= sends
    requires bad != [] && Judge(side, bad) == Refuse
    ensures var d := Drain(side, Concat(frames) + (bad + more), sends);
      d == Drained(frames, bad + more, Refused, sends - Deliveries(side, frames))
  {
    hide Judge, Concat, Deliveries, Accepts;
    JudgeStable(side, bad, more);
    DrainConcat(side, frames, sends);
    DrainAppend(side, Concat(frames), bad + more, sends);
    assert [] + (bad + more) == bad + more;
  }

  /** A drain of the beginning of such a concatenation takes a prefix of the frames. */
  lemma DrainPrefix(side: Side, frames: seq<seq<Byte>>, arrived: seq<Byte>, sends: nat)
    requires forall i :: 0 <= i < |frames| ==> Accepts(side, frames[i])
    requires Deliveries(side, frames) <= sends
    requires arrived <= Concat(frames)
    ensures var d := Drain(side, arrived, sends);
      && d.outcome == Waiting
      && d.frames <= frames
      && (arrived == Concat(frames) ==> d.frames == frames && d.rest == [])
  {
    hide Judge, Drain, Concat, Deliveries, Accepts;
    var missing := Concat(frames)[|arrived|..];
    assert arrived + missing == Concat(frames);
    DrainAppend(side, arrived, missing, sends);
    DrainConcat(side, frames, sends);
  }

  /**
  However much of a concatenation of acceptable frames has arrived, in whatever pieces, the loop has taken a
  prefix of the frames, refused none, and holds the beginning of the next one; all of it gives all of them.
  */
  lemma ReframesPrefix(side: Side, frames: seq<seq<Byte>>, chunks: seq<seq<Byte>>, sends: nat)
    requires forall i :: 0 <= i < |frames| ==> Accepts(side, frames[i])
    requires Deliveries(side, frames) <= sends
    requires Concat(chunks) <= Concat(frames)
    ensures var fed := Feed(side, [], chunks, sends);
      && fed.outcome == Waiting
      && fed.frames <= frames
      && Concat(fed.frames) + fed.rest == Concat(chunks)
      && (Concat(chunks) == Concat(frames) ==> fed.frames == frames && fed.rest == [])
  {
    hide Judge, Drain, Feed, Concat, Deliveries, Accepts;
    assert [] + Concat(chunks) == Concat(chunks);
    EmptyDrain(side, sends);
    ChunkingIndependent(side, [], chunks, sends);
    DrainPrefix(side, frames, Concat(chunks), sends);
    DrainConserves(side, Concat(chunks), sends);
  }

  lemma EmptyDrain(side: Side, sends: nat)
    ensures Drain(side, [], sends) == Drained([], [], Waiting, sends)
  {
  }
}

/**
The bridge between the vendor library's socket and /dev/vhci: controller setup, both directions of
forwarding, and the agreement with the library on the host's frames.
*/
module Bridge {
  import opened Bytes
  import opened H4
  import opened Framing

  const VENDOR_PACKET: Byte := 255

  /** host_frame_limit. */
  function HostLimit(aclMtu: nat, scoMtu: nat, kind: Byte): (n: nat) {
    if kind == COMMAND then COMMAND_MAX_FRAME
    else if kind == ACL then (if aclMtu != 0 then aclMtu + 5 else 0)
    else if kind == SCO then (if scoMtu != 0 then scoMtu + 4 else 0)
    else if kind == ISO then ISO_MAX_FRAME
    else 0
  }

  /** validate_host_frame. */
  predicate ValidHostFrame(aclMtu: nat, scoMtu: nat, buffer: seq<Byte>) {
    var d := Decode(buffer);
    if d.status == Complete && d.frame.kind == ISO && buffer[4] / 64 != 0 then false
    else
      && d.status == Complete
      && d.frame.size == |buffer|
      && WithinLimit(d.frame, HostLimit(aclMtu, scoMtu, d.frame.kind))
  }

  /** The check in terms of bytes. */
  lemma ValidHostMeans(aclMtu: nat, scoMtu: nat, buffer: seq<Byte>)
    ensures ValidHostFrame(aclMtu, scoMtu, buffer) <==>
      && buffer != [] && Announced(buffer) == |buffer| > 0
      && (|| buffer[0] == 1
          || (buffer[0] == 2 && aclMtu != 0 && |buffer| <= aclMtu + 5 && |buffer| <= 1028)
          || (buffer[0] == 3 && scoMtu != 0 && |buffer| <= scoMtu + 4)
          || (buffer[0] == 5 && |buffer| <= 256 && buffer[4] < 64))
  {
    DecodeMeans(buffer);
  }

  /** The packets the host may send: commands, data within the controller's buffers, short ISO data. */
  predicate HostPacket(aclMtu: nat, scoMtu: nat, p: Packet) {
    && Encodable(p)
    && match p
      case CommandPacket(_, _, _) => true
      case AclPacket(_, _, body) => 0 < aclMtu && |body| <= aclMtu && |body| + 5 <= KERNEL_MAX_FRAME
      case ScoPacket(_, _, body) => 0 < scoMtu && |body| <= scoMtu
      case IsoPacket(_, _, reserved, body) => reserved == 0 && |body| + 5 <= ISO_MAX_FRAME
      case _ => false
  }

  /** validate_host_frame lets through exactly those packets, each on its own and complete. */
  lemma ValidHostFrameIff(aclMtu: nat, scoMtu: nat, buffer: seq<Byte>)
    ensures ValidHostFrame(aclMtu, scoMtu, buffer) <==>
      exists p :: HostPacket(aclMtu, scoMtu, p) && Encode(p) == buffer
  {
    if ValidHostFrame(aclMtu, scoMtu, buffer) {
      var p := DecodedPacket(buffer);
      assert buffer[..|buffer|] == buffer;
      HostPacketIff(aclMtu, scoMtu, p);
    }
    forall p | HostPacket(aclMtu, scoMtu, p) && Encode(p) == buffer
      ensures ValidHostFrame(aclMtu, scoMtu, buffer)
    {
      HostPacketIff(aclMtu, scoMtu, p);
    }
  }

  lemma HostPacketIff(aclMtu: nat, scoMtu: nat, p: Packet)
    requires Encodable(p)
    ensures ValidHostFrame(aclMtu, scoMtu, Encode(p)) <==> HostPacket(aclMtu, scoMtu, p)
  {
  }

  /** The buffer sizes the controller check lets through. */
  predicate SizesAccepted(aclMtu: nat, scoMtu: nat) {
    1 <= aclMtu <= KERNEL_MAX_FRAME - 5 && scoMtu <= SCO_MAX_FRAME - 4
  }

  /** A frame the bridge lets through to the library is one the library takes whole. */
  lemma HostFrameAccepted(aclMtu: nat, scoMtu: nat, frame: seq<Byte>)
    requires SizesAccepted(aclMtu, scoMtu) && ValidHostFrame(aclMtu, scoMtu, frame)
    ensures Accepts(LibraryHost, frame)
  {
  }

  /**
  Agreement: whatever the accepted buffer sizes, the frames the bridge lets through, written one after the
  other and cut anywhere by partial writes and reads, come out of the library's loop as the same frames in
  the same order, and none is refused.
  */
  lemma BridgeAndLibraryAgree(aclMtu: nat, scoMtu: nat, frames: seq<seq<Byte>>, chunks: seq<seq<Byte>>, sends: nat)
    requires SizesAccepted(aclMtu, scoMtu)
    requires forall i :: 0 <= i < |frames| ==> ValidHostFrame(aclMtu, scoMtu, frames[i])
    requires |frames| <= sends && Concat(chunks) <= Concat(frames)
    ensures var fed := Feed(LibraryHost, [], chunks, sends);
      && fed.outcome == Waiting
      && fed.frames <= frames
      && Concat(fed.frames) + fed.rest == Concat(chunks)
      && (Concat(chunks) == Concat(frames) ==> fed.frames == frames && fed.rest == [])
  {
    hide ValidHostFrame, Accepts, Feed, Concat, Deliveries;
    forall i | 0 <= i < |frames|
      ensures Accepts(LibraryHost, frames[i])
    {
      HostFrameAccepted(aclMtu, scoMtu, frames[i]);
    }
    DeliveriesBounded(LibraryHost, frames);
    ReframesPrefix(LibraryHost, frames, chunks, sends);
  }

  lemma {:induction false} DeliveriesBounded(side: Side, frames: seq<seq<Byte>>)
    ensures Deliveries(side, frames) <= |frames|
  {
    if frames != [] {
      DeliveriesBounded(side, frames[1..]);
    }
  }

  /** The frames that are not the chip's log. */
  function Forwarded(frames: seq<seq<Byte>>): (passed: seq<seq<Byte>>)
    ensures frames == [] ==> passed == []
  {
    if frames == [] then []
    else (if frames[0] != [] && frames[0][0] != LOG then [frames[0]] else []) + Forwarded(frames[1..])
  }

  /** They are the frames whose first byte is not 7, in order. */
  lemma {:induction false} ForwardedMeans(frames: seq<seq<Byte>>)
    ensures Forwarded(frames) == NotOf(frames, {7})
  {
    if frames != [] {
      ForwardedMeans(frames[1..]);
    }
  }

  lemma {:induction false} ForwardedAppend(a: seq<seq<Byte>>, f: seq<Byte>)
    requires f != []
    ensures Forwarded(a + [f]) == Forwarded(a) + if f[0] != LOG then [f] else []
  {
    if a == [] {
      assert [f][1..] == [];
    } else {
      assert (a + [f])[0] == a[0] && (a + [f])[1..] == a[1..] + [f];
      ForwardedAppend(a[1..], f);
    }
  }

  lemma {:induction false} ForwardedConcat(a: seq<seq<Byte>>, b: seq<seq<Byte>>)
    ensures Forwarded(a + b) == Forwarded(a) + Forwarded(b)
  {
    if a == [] {
      assert a + b == b;
    } else {
      assert (a + b)[0] == a[0] && (a + b)[1..] == a[1..] + b;
      ForwardedConcat(a[1..], b);
    }
  }

  /** What one write on a socket can do; a list of them ends where the loop is told to stop. */
  datatype WriteResult = Sent(count: nat) | Interrupted(stop: bool) | WouldBlock(writable: bool) | WriteFailed

  /** The write loop gives up at this result. */
  predicate Stops(result: WriteResult) {
    match result
    case Sent(count) => count == 0
    case Interrupted(stop) => stop
    case WouldBlock(writable) => !writable
    case WriteFailed => true
  }

  /** How many bytes these writes take before the loop gives up. */
  function Granted(results: seq<WriteResult>): (n: nat) {
    if results == [] || Stops(results[0]) then 0
    else (if results[0].Sent? then results[0].count else 0) + Granted(results[1..])
  }

  /** One result of the list: the loop gives up at it, or takes what it grants and goes on. */
  lemma GrantedTurn(results: seq<WriteResult>, i: nat)
    requires i <= |results|
    ensures Granted(results[i..]) ==
      if i == |results| || Stops(results[i]) then 0
      else (if results[i].Sent? then results[i].count else 0) + Granted(results[i + 1..])
  {
    assert i < |results| ==> results[i..][1..] == results[i + 1..];
  }

  function Least(a: nat, b: nat): (n: nat) {
    if a <= b then a else b
  }

  /** How much of a buffer is written: all that is granted, up to its length. */
  function Transferred(results: seq<WriteResult>, length: nat): (n: nat)
    ensures n <= length
  {
    Least(length, Granted(results))
  }

  /**
  What the loop makes of each result: it goes on after an interruption or once the socket is writable again as
  if there had been none, it adds up what was sent, and at anything else it stops for good.
  */
  lemma {:induction false} GrantedMeans(a: seq<WriteResult>, r: WriteResult, b: seq<WriteResult>)
    ensures r == Interrupted(false) || r == WouldBlock(true) ==> Granted(a + [r] + b) == Granted(a + b)
    ensures r == Sent(0) || r == Interrupted(true) || r == WouldBlock(false) || r == WriteFailed ==>
      Granted(a + [r] + b) == Granted(a)
    ensures r.Sent? && r.count > 0 && a == [] ==> Granted([r] + b) == r.count + Granted(b)
    decreases |a|
  {
    if a == [] {
      assert a + [r] + b == [r] + b && ([r] + b)[1..] == b && a + b == b;
    } else {
      GrantedMeans(a[1..], r, b);
      assert (a + [r] + b)[1..] == a[1..] + [r] + b && (a + b)[1..] == a[1..] + b;
    }
  }

  /** What one read from the kernel puts on the socket: as much of a valid frame as the writes take. */
  function Written(aclMtu: nat, scoMtu: nat, buffer: seq<Byte>, results: seq<WriteResult>): (bytes: seq<Byte>)
    ensures bytes <= buffer
  {
    if ValidHostFrame(aclMtu, scoMtu, buffer) then buffer[..Transferred(results, |buffer|)] else []
  }

  /** One read from the kernel stops the bridge: a malformed frame, or a valid one that could not be written whole. */
  predicate StopsAt(aclMtu: nat, scoMtu: nat, buffer: seq<Byte>, results: seq<WriteResult>)
    requires buffer != []
  {
    && buffer[0] != VENDOR_PACKET
    && (ValidHostFrame(aclMtu, scoMtu, buffer) ==> Transferred(results, |buffer|) < |buffer|)
  }

  /** The valid frames among what was read from the kernel. */
  function Passed(aclMtu: nat, scoMtu: nat, buffers: seq<seq<Byte>>): (frames: seq<seq<Byte>>)
    ensures |frames| <= |buffers|
    ensures forall k :: 0 <= k < |frames| ==> ValidHostFrame(aclMtu, scoMtu, frames[k])
  {
    if buffers == [] then []
    else
      var last := buffers[|buffers| - 1];
      Passed(aclMtu, scoMtu, buffers[..|buffers| - 1]) + if ValidHostFrame(aclMtu, scoMtu, last) then [last] else []
  }

  lemma PassedNone(aclMtu: nat, scoMtu: nat)
    ensures Concat(Passed(aclMtu, scoMtu, [])) == []
  {
  }

  lemma PassedMore(aclMtu: nat, scoMtu: nat, buffers: seq<seq<Byte>>, buffer: seq<Byte>)
    ensures Passed(aclMtu, scoMtu, buffers + [buffer])
         == Passed(aclMtu, scoMtu, buffers) + if ValidHostFrame(aclMtu, scoMtu, buffer) then [buffer] else []
  {
    hide ValidHostFrame;
    assert (buffers + [buffer])[..|buffers|] == buffers;
  }

  lemma VendorNotValid(aclMtu: nat, scoMtu: nat, buffer: seq<Byte>)
    requires ValidHostFrame(aclMtu, scoMtu, buffer)
    ensures buffer != [] && buffer[0] != VENDOR_PACKET
  {
  }

  lemma PrefixAfter(a: seq<Byte>, b: seq<Byte>, c: seq<Byte>)
    requires b <= c
    ensures a + b <= a + c && (|b| == |c| ==> a + b == a + c)
  {
    assert a + b == (a + c)[..|a| + |b|];
  }

  /** One more read adds what it wrote, or, if it stops the bridge, the beginning of that. */
  lemma PassedAppend(aclMtu: nat, scoMtu: nat, buffers: seq<seq<Byte>>, buffer: seq<Byte>, results: seq<WriteResult>)
    requires buffer != []
    ensures var before := Concat(Passed(aclMtu, scoMtu, buffers));
      var whole := Concat(Passed(aclMtu, scoMtu, buffers + [buffer]));
      && before + Written(aclMtu, scoMtu, buffer, results) <= whole
      && (!StopsAt(aclMtu, scoMtu, buffer, results) ==> before + Written(aclMtu, scoMtu, buffer, results) == whole)
  {
    hide Transferred, ValidHostFrame, Concat, Passed;
    var before := Passed(aclMtu, scoMtu, buffers);
    PassedMore(aclMtu, scoMtu, buffers, buffer);
    if ValidHostFrame(aclMtu, scoMtu, buffer) {
      VendorNotValid(aclMtu, scoMtu, buffer);
      ConcatAppend(before, [buffer]);
      ConcatOne(buffer);
      PrefixAfter(Concat(before), Written(aclMtu, scoMtu, buffer, results), buffer);
    } else {
      assert before + [] == before;
    }
  }

  class Bridge {
    var aclMtu: nat
    var scoMtu: nat
    const stream: Stream
    var running: bool

    /** The frames written to /dev/vhci, and the bytes written to the library. */
    var kernel: seq<seq<Byte>>
    var chip: seq<Byte>

    ghost predicate Valid()
      reads this, stream
    {
      stream.Valid()
    }

    constructor ()
      ensures Valid() && fresh(stream) && fresh(stream.data)
      ensures stream.Held() == [] && kernel == [] && chip == [] && running
      ensures aclMtu == 0 && scoMtu == 0
    {
      stream := new Stream();
      aclMtu, scoMtu, running, kernel, chip := 0, 0, true, [], [];
    }

    /** read_controller_buffer_sizes: the answer to Read Buffer Size, if the command succeeded. */
    method ReadBufferSizes(answer: Option<seq<Byte>>) returns (ok: bool)
      modifies this`aclMtu, this`scoMtu
      ensures ok <==>
        && answer.Some? && |answer.value| >= 7
        && SizesAccepted(Pair(answer.value[0], answer.value[1]), answer.value[2])
      ensures ok ==> aclMtu == Pair(answer.value[0], answer.value[1]) && scoMtu == answer.value[2]
      ensures ok ==> 1 <= aclMtu == (answer.value[0] as int) + 256 * (answer.value[1] as int) <= 1023 && scoMtu <= 255
      ensures answer.Some? && |answer.value| >= 7 ==>
        (ok <==> 1 <= (answer.value[0] as int) + 256 * (answer.value[1] as int) <= 1023)
      ensures !ok ==> aclMtu == old(aclMtu) && scoMtu == old(scoMtu)
    {
      if answer.None? || |answer.value| < 7 {
        return false;
      }
      var sizes := answer.value;
      var acl, sco := Pair(sizes[0], sizes[1]), sizes[2];
      if acl == 0 || acl > KERNEL_MAX_FRAME - 5 || sco > SCO_MAX_FRAME - 4 {
        return false;
      }
      aclMtu, scoMtu := acl, sco;
      ok := true;
    }

    /**
    chip_to_kernel, one readable channel: a read of some bytes into the free space, then the drain loop.
    The kernel takes that many more frames before a write fails.
    */
    method ChipToKernel(chunk: seq<Byte>, sends: nat) returns (left: nat)
      requires Valid()
      requires stream.length < STREAM_CAPACITY ==> 0 < |chunk| <= STREAM_CAPACITY - stream.length
      modifies this`running, this`kernel, stream`length, stream.data
      ensures Valid()
      ensures |old(stream.Held())| == STREAM_CAPACITY ==> !running && kernel == old(kernel)
      ensures |old(stream.Held())| < STREAM_CAPACITY ==>
        var d := Drain(BridgeController(aclMtu, scoMtu), old(stream.Held()) + chunk, sends);
        && stream.Held() == d.rest
        && kernel == old(kernel) + Forwarded(d.frames)
        && running == (old(running) && d.outcome == Waiting)
        && left == d.sends
    {
      left := sends;
      if STREAM_CAPACITY - stream.length == 0 {
        running := false;
        return;
      }
      hide Drain, Forwarded;
      var read := stream.Append(chunk);
      left := DrainChannel(sends);
    }

    /** The drain loop of chip_to_kernel. */
    method DrainChannel(sends: nat) returns (left: nat)
      requires Valid()
      modifies this`running, this`kernel, stream`length, stream.data
      ensures Valid()
      ensures var d := Drain(BridgeController(aclMtu, scoMtu), old(stream.Held()), sends);
        && stream.Held() == d.rest
        && kernel == old(kernel) + Forwarded(d.frames)
        && running == (old(running) && d.outcome == Waiting)
        && left == d.sends
    {
      hide Decode, Rejects, Drain, Draining, Forwarded;
      ghost var side := BridgeController(aclMtu, scoMtu);
      ghost var whole := Drain(side, stream.Held(), sends);
      ghost var taken: seq<seq<Byte>> := [];
      left := sends;
      DrainStarts(side, stream.Held(), sends);
      while stream.length > 0
        invariant Valid() && running == old(running)
        invariant kernel == old(kernel) + Forwarded(taken)
        invariant Draining(side, whole, taken, stream.Held(), left)
        decreases stream.length
      {
        ghost var held := stream.Held();
        DrainTurn(side, whole, taken, held, left);
        var d := stream.Next();
        if Rejects(BridgeController(aclMtu, scoMtu), d) {
          running := false;
          return;
        }
        if d.status == Incomplete {
          return;
        }
        var frame := stream.data[..d.frame.size];
        assert frame == held[..d.frame.size];
        ForwardedAppend(taken, frame);
        if d.frame.kind != LOG {
          if left == 0 {
            running := false;
            return;
          }
          left := left - 1;
          kernel := kernel + [frame];
        }
        var consumed := stream.Consume(d.frame.size);
        taken := taken + [frame];
      }
      DrainTurn(side, whole, taken, stream.Held(), left);
    }

    /**
    chip_to_kernel over a channel: as long as the bridge runs, reads of arbitrary non-empty size. What has
    reached the kernel is what one drain of all the bytes read would have passed on; no read ever finds the
    buffer full.
    */
    method ChipLoop(incoming: seq<Byte>, sizes: seq<nat>, sends: nat) returns (read: nat)
      requires Valid() && stream.Held() == [] && running
      modifies this`running, this`kernel, stream`length, stream.data
      ensures Valid() && read == ReadUpTo(BridgeController(aclMtu, scoMtu), incoming, sizes, sends)
      ensures var d := Drain(BridgeController(aclMtu, scoMtu), incoming[..read], sends);
        && kernel == old(kernel) + Forwarded(d.frames)
        && stream.Held() == d.rest
        && running == (d.outcome == Waiting)
      ensures var d := Drain(BridgeController(aclMtu, scoMtu), incoming[..read], sends);
        Concat(d.frames) + stream.Held() == incoming[..read]
      ensures running ==> read == |incoming| || read >= |sizes|
      ensures |sizes| >= |incoming| ==>
        var whole := Drain(BridgeController(aclMtu, scoMtu), incoming, sends);
        && kernel == old(kernel) + Forwarded(whole.frames)
        && running == (whole.outcome == Waiting)
    {
      hide Drain, Forwarded, Concat, ReadUpTo, ReadSize;
      ghost var side := BridgeController(aclMtu, scoMtu);
      var left := sends;
      read := 0;
      ReadStarts(side, incoming, sends);
      for i := 0 to |sizes|
        invariant Valid() && read == ReadUpTo(side, incoming, sizes[..i], sends)
        invariant var d := Drain(side, incoming[..read], sends);
          && kernel == old(kernel) + Forwarded(d.frames)
          && stream.Held() == d.rest
          && running == (d.outcome == Waiting)
          && left == d.sends
      {
        ReadTurn(side, incoming, sizes, i, sends);
        if running && read < |incoming| {
          ghost var before := Drain(side, incoming[..read], sends);
          var n := ReadSize(sizes[i], STREAM_CAPACITY - stream.length, |incoming| - read);
          var chunk := incoming[read..read + n];
          ForwardedConcat(before.frames, Drain(side, before.rest + chunk, before.sends).frames);
          left := ChipToKernel(chunk, left);
          read := read + n;
        }
      }
      assert sizes[..|sizes|] == sizes;
      DrainConserves(side, incoming[..read], sends);
      ReadProgress(side, incoming, sizes, sends);
      if |sizes| >= |incoming| {
        ReadsSuffice(side, incoming, sizes, sends);
      }
    }

    /** write_all: partial writes until everything is sent or a write fails for good. */
    method WriteAll(buffer: seq<Byte>, results: seq<WriteResult>) returns (done: nat)
      modifies this`chip
      ensures done == Transferred(results, |buffer|)
      ensures chip == old(chip) + buffer[..done]
    {
      hide Granted;
      done := 0;
      var i := 0;
      assert results[0..] == results;
      while done < |buffer| && i < |results|
        invariant done <= |buffer| && i <= |results|
        invariant Transferred(results, |buffer|) == Least(|buffer|, done + Granted(results[i..]))
        invariant chip == old(chip) + buffer[..done]
        decreases |results| - i
      {
        GrantedTurn(results, i);
        var result := results[i];
        i := i + 1;
        match result {
          case Sent(count) =>
            if count == 0 {
              return;
            }
            var n := if count < |buffer| - done then count else |buffer| - done;
            assert buffer[..done] + buffer[done..done + n] == buffer[..done + n];
            chip := chip + buffer[done..done + n];
            done := done + n;
          case Interrupted(stop) =>
            if stop {
              return;
            }
          case WouldBlock(writable) =>
            if !writable {
              return;
            }
          case WriteFailed =>
            return;
        }
      }
      GrantedTurn(results, |results|);
    }

    /** kernel_to_chip, one read from /dev/vhci: vendor packets stay here, malformed frames stop the bridge. */
    method KernelToChip(buffer: seq<Byte>, results: seq<WriteResult>) returns (forwarded: bool)
      requires 0 < |buffer| <= KERNEL_MAX_FRAME
      modifies this`chip, this`running
      ensures chip == old(chip) + Written(aclMtu, scoMtu, buffer, results)
      ensures running == (old(running) && !StopsAt(aclMtu, scoMtu, buffer, results))
      ensures forwarded <==> ValidHostFrame(aclMtu, scoMtu, buffer) && !StopsAt(aclMtu, scoMtu, buffer, results)
      ensures buffer[0] == 255 ==> !forwarded && chip == old(chip) && running == old(running)
    {
      hide Granted;
      if buffer[0] == VENDOR_PACKET {
        return false;
      }
      hide ValidHostFrame;
      if !ValidHostFrame(aclMtu, scoMtu, buffer) {
        running := false;
        return false;
      }
      var done := WriteAll(buffer, results);
      if done < |buffer| {
        running := false;
        return false;
      }
      forwarded := true;
    }

    /**
    kernel_to_chip: reads from /dev/vhci as long as the bridge runs. The socket has received the valid frames
    of the reads handled, whole and in order, except that the last one is cut short if writing it failed.
    */
    method KernelLoop(buffers: seq<seq<Byte>>, results: seq<seq<WriteResult>>) returns (handled: nat)
      requires running && |results| == |buffers|
      requires forall k :: 0 <= k < |buffers| ==> 0 < |buffers[k]| <= KERNEL_MAX_FRAME
      modifies this`chip, this`running
      ensures handled <= |buffers| && (running ==> handled == |buffers|) && (!running ==> handled > 0)
      ensures forall k :: 0 <= k < handled ==>
        (StopsAt(aclMtu, scoMtu, buffers[k], results[k]) <==> !running && k == handled - 1)
      ensures running ==> chip == old(chip) + Concat(Passed(aclMtu, scoMtu, buffers))
      ensures !running ==>
        chip == old(chip) + Concat(Passed(aclMtu, scoMtu, buffers[..handled - 1]))
                + Written(aclMtu, scoMtu, buffers[handled - 1], results[handled - 1])
      ensures exists part :: part <= Concat(Passed(aclMtu, scoMtu, buffers[..handled])) && chip == old(chip) + part
    {
      hide ValidHostFrame, Transferred, Concat, Written, StopsAt, Passed;
      handled := 0;
      ghost var whole: seq<Byte> := [];
      PassedNone(aclMtu, scoMtu);
      while running && handled < |buffers|
        invariant handled <= |buffers|
        invariant !running ==> handled > 0
        invariant whole == Concat(Passed(aclMtu, scoMtu, buffers[..if running then handled else handled - 1]))
        invariant chip == old(chip) + whole
          + if running then [] else Written(aclMtu, scoMtu, buffers[handled - 1], results[handled - 1])
        invariant forall k :: 0 <= k < handled ==>
          (StopsAt(aclMtu, scoMtu, buffers[k], results[k]) <==> !running && k == handled - 1)
        decreases |buffers| - handled
      {
        ghost var buffer, outcome := buffers[handled], results[handled];
        var forwarded := KernelToChip(buffers[handled], results[handled]);
        PassedAppend(aclMtu, scoMtu, buffers[..handled], buffer, outcome);
        assert buffers[..handled + 1] == buffers[..handled] + [buffer];
        if running {
          whole := whole + Written(aclMtu, scoMtu, buffer, outcome);
        }
        handled := handled + 1;
      }
      assert buffers[..|buffers|] == buffers;
      if !running {
        PassedAppend(aclMtu, scoMtu, buffers[..handled - 1], buffers[handled - 1], results[handled - 1]);
        assert buffers[..handled] == buffers[..handled - 1] + [buffers[handled - 1]];
        ghost var part := whole + Written(aclMtu, scoMtu, buffers[handled - 1], results[handled - 1]);
        assert chip == old(chip) + part;
      }
    }
  }
}

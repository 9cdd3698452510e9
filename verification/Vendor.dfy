/**
The vendor library: the reader of the host's socket, which routes each frame to a device port, and the
readers of the ports, which pass the controller's frames to the host.
*/
module Vendor {
  import opened Bytes
  import opened H4
  import opened Framing
  import opened Bridge

  const PORTS := 4
  const PORT_COMMAND := 0
  const PORT_ACL := 1
  const PORT_AUDIO := 2
  const PORT_ISO := 3

  /** host_frame_port; only SDIO has separate ports. */
  function HostPort(sdio: bool, kind: Byte): (port: nat)
    ensures port < PORTS
  {
    if !sdio then PORT_COMMAND
    else if kind == ACL then PORT_ACL
    else if kind == SCO then PORT_AUDIO
    else if kind == ISO then PORT_ISO
    else PORT_COMMAND
  }

  /** The frames of a sequence that are routed to one port, in their order. */
  function OnPort(sdio: bool, frames: seq<seq<Byte>>, port: nat): (routed: seq<seq<Byte>>)
    ensures frames == [] ==> routed == []
  {
    if frames == [] then []
    else
      var first := if frames[0] != [] && HostPort(sdio, frames[0][0]) == port then [frames[0]] else [];
      first + OnPort(sdio, frames[1..], port)
  }

  lemma {:induction false} OnPortAppend(sdio: bool, frames: seq<seq<Byte>>, f: seq<Byte>, port: nat)
    requires f != []
    ensures OnPort(sdio, frames + [f], port)
         == OnPort(sdio, frames, port) + if HostPort(sdio, f[0]) == port then [f] else []
  {
    if frames == [] {
      assert [f][1..] == [];
    } else {
      assert (frames + [f])[0] == frames[0] && (frames + [f])[1..] == frames[1..] + [f];
      OnPortAppend(sdio, frames[1..], f, port);
    }
  }

  lemma {:induction false} OnPortConcat(sdio: bool, a: seq<seq<Byte>>, b: seq<seq<Byte>>, port: nat)
    ensures OnPort(sdio, a + b, port) == OnPort(sdio, a, port) + OnPort(sdio, b, port)
  {
    hide HostPort;
    if a == [] {
      assert a + b == b;
    } else {
      assert (a + b)[0] == a[0] && (a + b)[1..] == a[1..] + b;
      OnPortConcat(sdio, a[1..], b, port);
    }
  }

  lemma OnPortsConcat(sdio: bool, a: seq<seq<Byte>>, b: seq<seq<Byte>>)
    ensures forall p :: 0 <= p < PORTS ==> OnPort(sdio, a + b, p) == OnPort(sdio, a, p) + OnPort(sdio, b, p)
  {
    forall p | 0 <= p < PORTS
      ensures OnPort(sdio, a + b, p) == OnPort(sdio, a, p) + OnPort(sdio, b, p)
    {
      OnPortConcat(sdio, a, b, p);
    }
  }

  /**
  The host's path end to end: whatever part of what the bridge wrote has reached the library, it takes the
  valid frames in order and refuses none; each device port holds the beginning of its share of them, and all
  of its share once all of it has arrived.
  */
  lemma HostPath(aclMtu: nat, scoMtu: nat, sdio: bool, buffers: seq<seq<Byte>>, arrived: seq<Byte>, sends: nat)
    requires SizesAccepted(aclMtu, scoMtu) && |buffers| <= sends
    requires arrived <= Concat(Passed(aclMtu, scoMtu, buffers))
    ensures var d, frames := Drain(LibraryHost, arrived, sends), Passed(aclMtu, scoMtu, buffers);
      && d.outcome == Waiting
      && d.frames <= frames
      && (forall p :: 0 <= p < PORTS ==> OnPort(sdio, d.frames, p) <= OnPort(sdio, frames, p))
      && Routed(sdio, d.frames, [OnPort(sdio, d.frames, 0), OnPort(sdio, d.frames, 1),
                                 OnPort(sdio, d.frames, 2), OnPort(sdio, d.frames, 3)])
      && (arrived == Concat(frames) ==>
        && d.rest == []
        && forall p :: 0 <= p < PORTS ==> OnPort(sdio, d.frames, p) == OnPort(sdio, frames, p))
  {
    hide ValidHostFrame, Accepts, Drain, Concat, Deliveries, Passed, OnPort;
    var frames := Passed(aclMtu, scoMtu, buffers);
    forall k | 0 <= k < |frames|
      ensures Accepts(LibraryHost, frames[k])
    {
      HostFrameAccepted(aclMtu, scoMtu, frames[k]);
    }
    DeliveriesBounded(LibraryHost, frames);
    DrainPrefix(LibraryHost, frames, arrived, sends);
    var d := Drain(LibraryHost, arrived, sends);
    OnPortMeans(sdio, d.frames);
    OnPortsConcat(sdio, d.frames, frames[|d.frames|..]);
    assert d.frames + frames[|d.frames|..] == frames;
  }

  /**
  What each port holds, by the first byte of the frames: over SDIO ACL data (2), SCO data (3) and ISO data (5)
  have ports of their own, 1, 2 and 3, and everything else is on port 0; otherwise everything is on port 0.
  */
  ghost predicate Routed(sdio: bool, frames: seq<seq<Byte>>, ports: seq<seq<seq<Byte>>>) {
    && |ports| == 4
    && (sdio ==>
      && ports[0] == NotOf(frames, {2, 3, 5})
      && ports[1] == Of(frames, {2}) && ports[2] == Of(frames, {3}) && ports[3] == Of(frames, {5}))
    && (!sdio ==> ports[0] == NotOf(frames, {}) && ports[1] == [] && ports[2] == [] && ports[3] == [])
  }

  lemma {:induction false} OnPortMeans(sdio: bool, frames: seq<seq<Byte>>)
    ensures Routed(sdio, frames, [OnPort(sdio, frames, 0), OnPort(sdio, frames, 1),
                                  OnPort(sdio, frames, 2), OnPort(sdio, frames, 3)])
  {
    if frames != [] {
      OnPortMeans(sdio, frames[1..]);
    }
  }

  /** Routing loses and invents nothing: every frame is on exactly one port. */
  lemma {:induction false} RoutedOnce(sdio: bool, frames: seq<seq<Byte>>, f: seq<Byte>)
    requires f != [] && forall i :: 0 <= i < |frames| ==> frames[i] != []
    ensures forall p :: 0 <= p < PORTS ==>
      multiset(OnPort(sdio, frames, p))[f] == if p == HostPort(sdio, f[0]) then multiset(frames)[f] else 0
  {
    if frames != [] {
      RoutedOnce(sdio, frames[1..], f);
      assert frames == [frames[0]] + frames[1..];
    }
  }

  class HostReader {
    const sdio: bool
    const stream: Stream
    var alive: bool

    /** The frames written to each device port. */
    var ports: seq<seq<seq<Byte>>>

    ghost predicate Valid()
      reads this, stream
    {
      stream.Valid() && |ports| == PORTS
    }

    constructor (sdio: bool)
      ensures Valid() && fresh(stream) && fresh(stream.data) && this.sdio == sdio
      ensures stream.Held() == [] && alive && ports == seq(PORTS, _ => [])
    {
      this.sdio := sdio;
      stream := new Stream();
      alive, ports := true, seq(PORTS, _ => []);
    }

    /** What the ports hold after these frames were routed on top of what they held. */
    ghost predicate PortsAre(before: seq<seq<seq<Byte>>>, frames: seq<seq<Byte>>)
      reads this`ports
    {
      && |before| == |ports| == PORTS
      && forall p :: 0 <= p < PORTS ==> ports[p] == before[p] + OnPort(sdio, frames, p)
    }

    lemma AllRouted(before: seq<seq<seq<Byte>>>, frames: seq<seq<Byte>>)
      requires PortsAre(before, frames)
      ensures before == [[], [], [], []] ==> Routed(sdio, frames, ports)
    {
      hide OnPort, Of, NotOf;
      OnPortMeans(sdio, frames);
      if before == [[], [], [], []] {
        assert forall p :: 0 <= p < 4 ==> ports[p] == [] + OnPort(sdio, frames, p) == OnPort(sdio, frames, p);
      }
    }

    /** scomm_vendor_recv_rawdata: one successful read of some bytes, then the drain loop. */
    method Receive(chunk: seq<Byte>, sends: nat) returns (left: nat)
      requires Valid()
      requires stream.length < STREAM_CAPACITY ==> 0 < |chunk| <= STREAM_CAPACITY - stream.length
      modifies this`alive, this`ports, stream`length, stream.data
      ensures Valid()
      ensures |old(stream.Held())| == STREAM_CAPACITY ==> !alive && ports == old(ports)
      ensures |old(stream.Held())| < STREAM_CAPACITY ==>
        var d := Drain(LibraryHost, old(stream.Held()) + chunk, sends);
        && stream.Held() == d.rest
        && PortsAre(old(ports), d.frames)
        && alive == (old(alive) && d.outcome == Waiting)
        && left == d.sends
    {
      left := sends;
      if STREAM_CAPACITY - stream.length == 0 {
        alive := false;
        return;
      }
      hide Drain, OnPort;
      var read := stream.Append(chunk);
      left := DrainHost(sends);
    }

    method DrainHost(sends: nat) returns (left: nat)
      requires Valid()
      modifies this`alive, this`ports, stream`length, stream.data
      ensures Valid()
      ensures var d := Drain(LibraryHost, old(stream.Held()), sends);
        && stream.Held() == d.rest
        && PortsAre(old(ports), d.frames)
        && alive == (old(alive) && d.outcome == Waiting)
        && left == d.sends
    {
      hide Decode, Rejects, Drain, Draining, OnPort, HostPort;
      ghost var whole := Drain(LibraryHost, stream.Held(), sends);
      ghost var taken: seq<seq<Byte>> := [];
      left := sends;
      DrainStarts(LibraryHost, stream.Held(), sends);
      while stream.length > 0
        invariant Valid() && alive == old(alive)
        invariant PortsAre(old(ports), taken)
        invariant Draining(LibraryHost, whole, taken, stream.Held(), left)
        decreases stream.length
      {
        ghost var held := stream.Held();
        DrainTurn(LibraryHost, whole, taken, held, left);
        var d := stream.Next();
        if Rejects(LibraryHost, d) {
          alive := false;
          return;
        }
        if d.status == Incomplete {
          return;
        }
        var frame := stream.data[..d.frame.size];
        assert frame == held[..d.frame.size];
        if left == 0 {
          alive := false;
          return;
        }
        left := left - 1;
        Route(frame, old(ports), taken);
        var consumed := stream.Consume(d.frame.size);
        taken := taken + [frame];
      }
      DrainTurn(LibraryHost, whole, taken, stream.Held(), left);
    }

    /**
    The socket thread: as long as the reader is alive, reads of arbitrary non-empty size. The ports hold what
    one drain of all the bytes read would have routed to them; no read ever finds the buffer full.
    */
    method ReceiveLoop(incoming: seq<Byte>, sizes: seq<nat>, sends: nat) returns (read: nat)
      requires Valid() && stream.Held() == [] && alive
      modifies this`alive, this`ports, stream`length, stream.data
      ensures Valid() && read == ReadUpTo(LibraryHost, incoming, sizes, sends)
      ensures var d := Drain(LibraryHost, incoming[..read], sends);
        && PortsAre(old(ports), d.frames)
        && stream.Held() == d.rest
        && alive == (d.outcome == Waiting)
      ensures old(ports) == [[], [], [], []] ==> Routed(sdio, Drain(LibraryHost, incoming[..read], sends).frames, ports)
      ensures alive ==> read == |incoming| || read >= |sizes|
      ensures |sizes| >= |incoming| ==>
        var whole := Drain(LibraryHost, incoming, sends);
        PortsAre(old(ports), whole.frames) && alive == (whole.outcome == Waiting)
    {
      hide Drain, OnPort, ReadUpTo, ReadSize;
      var left := sends;
      read := 0;
      ReadStarts(LibraryHost, incoming, sends);
      for i := 0 to |sizes|
        invariant Valid() && read == ReadUpTo(LibraryHost, incoming, sizes[..i], sends)
        invariant var d := Drain(LibraryHost, incoming[..read], sends);
          && PortsAre(old(ports), d.frames)
          && stream.Held() == d.rest
          && alive == (d.outcome == Waiting)
          && left == d.sends
      {
        ReadTurn(LibraryHost, incoming, sizes, i, sends);
        if alive && read < |incoming| {
          ghost var before := Drain(LibraryHost, incoming[..read], sends);
          var n := ReadSize(sizes[i], STREAM_CAPACITY - stream.length, |incoming| - read);
          var chunk := incoming[read..read + n];
          OnPortsConcat(sdio, before.frames, Drain(LibraryHost, before.rest + chunk, before.sends).frames);
          left := Receive(chunk, left);
          read := read + n;
        }
      }
      assert sizes[..|sizes|] == sizes;
      AllRouted(old(ports), Drain(LibraryHost, incoming[..read], sends).frames);
      ReadProgress(LibraryHost, incoming, sizes, sends);
      if |sizes| >= |incoming| {
        ReadsSuffice(LibraryHost, incoming, sizes, sends);
      }
    }

    /** send_host_frame_to_device. */
    method Route(frame: seq<Byte>, ghost before: seq<seq<seq<Byte>>>, ghost taken: seq<seq<Byte>>)
      requires frame != [] && PortsAre(before, taken)
      modifies this`ports
      ensures PortsAre(before, taken + [frame])
    {
      hide OnPort, HostPort;
      var port := HostPort(sdio, frame[0]);
      forall p | 0 <= p < PORTS
        ensures OnPort(sdio, taken + [frame], p) == OnPort(sdio, taken, p) + if p == port then [frame] else []
      {
        OnPortAppend(sdio, taken, frame, p);
      }
      ports := ports[port := ports[port] + [frame]];
    }
  }

  /** The chip's log frames. */
  function Logs(frames: seq<seq<Byte>>): (logs: seq<seq<Byte>>)
    ensures frames == [] ==> logs == []
  {
    if frames == [] then []
    else (if frames[0] != [] && frames[0][0] == LOG then [frames[0]] else []) + Logs(frames[1..])
  }

  /** They are the frames whose first byte is 7, in order. */
  lemma {:induction false} LogsMeans(frames: seq<seq<Byte>>)
    ensures Logs(frames) == Of(frames, {7})
  {
    if frames != [] {
      LogsMeans(frames[1..]);
    }
  }

  lemma {:induction false} LogsAppend(a: seq<seq<Byte>>, f: seq<Byte>)
    requires f != []
    ensures Logs(a + [f]) == Logs(a) + if f[0] == LOG then [f] else []
  {
    if a == [] {
      assert [f][1..] == [];
    } else {
      assert (a + [f])[0] == a[0] && (a + [f])[1..] == a[1..] + [f];
      LogsAppend(a[1..], f);
    }
  }

  lemma {:induction false} LogsConcat(a: seq<seq<Byte>>, b: seq<seq<Byte>>)
    ensures Logs(a + b) == Logs(a) + Logs(b)
  {
    if a == [] {
      assert a + b == b;
    } else {
      assert (a + b)[0] == a[0] && (a + b)[1..] == a[1..] + b;
      LogsConcat(a[1..], b);
    }
  }

  class PortReader {
    const stream: Stream
    var alive: bool

    /** The frames passed to the host, and the chip's log frames. */
    var host: seq<seq<Byte>>
    var logged: seq<seq<Byte>>

    ghost predicate Valid()
      reads this, stream
    {
      stream.Valid()
    }

    constructor ()
      ensures Valid() && fresh(stream) && fresh(stream.data)
      ensures stream.Held() == [] && alive && host == [] && logged == []
    {
      stream := new Stream();
      alive, host, logged := true, [], [];
    }

    /** scomm_vendor_recv_scomm_thread: one read from the device, then the drain loop. */
    method Receive(chunk: seq<Byte>, sends: nat) returns (left: nat)
      requires Valid()
      requires stream.length < STREAM_CAPACITY ==> 0 < |chunk| <= STREAM_CAPACITY - stream.length
      modifies this`alive, this`host, this`logged, stream`length, stream.data
      ensures Valid()
      ensures |old(stream.Held())| == STREAM_CAPACITY ==> !alive && host == old(host) && logged == old(logged)
      ensures |old(stream.Held())| < STREAM_CAPACITY ==>
        var d := Drain(LibraryController, old(stream.Held()) + chunk, sends);
        && stream.Held() == d.rest
        && host == old(host) + Forwarded(d.frames)
        && logged == old(logged) + Logs(d.frames)
        && alive == (old(alive) && d.outcome == Waiting)
        && left == d.sends
    {
      left := sends;
      if STREAM_CAPACITY - stream.length == 0 {
        alive := false;
        return;
      }
      hide Drain, Forwarded, Logs;
      var read := stream.Append(chunk);
      left := DrainPort(sends);
    }

    /**
    The reader's thread: as long as it is alive, reads of arbitrary non-empty size. What it passed to the host
    and what it logged is what one drain of all the bytes read gives; no read ever finds the buffer full.
    */
    method ReceiveLoop(incoming: seq<Byte>, sizes: seq<nat>, sends: nat) returns (read: nat)
      requires Valid() && stream.Held() == [] && alive
      modifies this`alive, this`host, this`logged, stream`length, stream.data
      ensures Valid() && read == ReadUpTo(LibraryController, incoming, sizes, sends)
      ensures var d := Drain(LibraryController, incoming[..read], sends);
        && host == old(host) + Forwarded(d.frames)
        && logged == old(logged) + Logs(d.frames)
        && stream.Held() == d.rest
        && alive == (d.outcome == Waiting)
      ensures alive ==> read == |incoming| || read >= |sizes|
      ensures |sizes| >= |incoming| ==>
        var whole := Drain(LibraryController, incoming, sends);
        && host == old(host) + Forwarded(whole.frames)
        && logged == old(logged) + Logs(whole.frames)
        && alive == (whole.outcome == Waiting)
    {
      hide Drain, Forwarded, Logs, ReadUpTo, ReadSize;
      var left := sends;
      read := 0;
      ReadStarts(LibraryController, incoming, sends);
      for i := 0 to |sizes|
        invariant Valid() && read == ReadUpTo(LibraryController, incoming, sizes[..i], sends)
        invariant var d := Drain(LibraryController, incoming[..read], sends);
          && host == old(host) + Forwarded(d.frames)
          && logged == old(logged) + Logs(d.frames)
          && stream.Held() == d.rest
          && alive == (d.outcome == Waiting)
          && left == d.sends
      {
        ReadTurn(LibraryController, incoming, sizes, i, sends);
        if alive && read < |incoming| {
          ghost var before := Drain(LibraryController, incoming[..read], sends);
          var n := ReadSize(sizes[i], STREAM_CAPACITY - stream.length, |incoming| - read);
          var chunk := incoming[read..read + n];
          ghost var more := Drain(LibraryController, before.rest + chunk, before.sends);
          ForwardedConcat(before.frames, more.frames);
          LogsConcat(before.frames, more.frames);
          left := Receive(chunk, left);
          read := read + n;
        }
      }
      assert sizes[..|sizes|] == sizes;
      ReadProgress(LibraryController, incoming, sizes, sends);
      if |sizes| >= |incoming| {
        ReadsSuffice(LibraryController, incoming, sizes, sends);
      }
    }

    method DrainPort(sends: nat) returns (left: nat)
      requires Valid()
      modifies this`alive, this`host, this`logged, stream`length, stream.data
      ensures Valid()
      ensures var d := Drain(LibraryController, old(stream.Held()), sends);
        && stream.Held() == d.rest
        && host == old(host) + Forwarded(d.frames)
        && logged == old(logged) + Logs(d.frames)
        && alive == (old(alive) && d.outcome == Waiting)
        && left == d.sends
    {
      hide Decode, Rejects, Drain, Draining, Forwarded, Logs;
      ghost var whole := Drain(LibraryController, stream.Held(), sends);
      ghost var taken: seq<seq<Byte>> := [];
      left := sends;
      DrainStarts(LibraryController, stream.Held(), sends);
      while stream.length > 0
        invariant Valid() && alive == old(alive)
        invariant host == old(host) + Forwarded(taken)
        invariant logged == old(logged) + Logs(taken)
        invariant Draining(LibraryController, whole, taken, stream.Held(), left)
        decreases stream.length
      {
        ghost var held := stream.Held();
        DrainTurn(LibraryController, whole, taken, held, left);
        var d := stream.Next();
        if Rejects(LibraryController, d) {
          alive := false;
          return;
        }
        if d.status == Incomplete {
          return;
        }
        var frame := stream.data[..d.frame.size];
        assert frame == held[..d.frame.size];
        ForwardedAppend(taken, frame);
        LogsAppend(taken, frame);
        if d.frame.kind == LOG {
          logged := logged + [frame];
        } else {
          if left == 0 {
            alive := false;
            return;
          }
          left := left - 1;
          host := host + [frame];
        }
        var consumed := stream.Consume(d.frame.size);
        taken := taken + [frame];
      }
      DrainTurn(LibraryController, whole, taken, stream.Held(), left);
    }
  }

  /** The controller's frames are split into those passed on and the log, with none lost or repeated. */
  lemma {:induction false} ForwardedAndLogs(frames: seq<seq<Byte>>)
    requires forall i :: 0 <= i < |frames| ==> frames[i] != []
    ensures multiset(frames) == multiset(Forwarded(frames)) + multiset(Logs(frames))
  {
    if frames != [] {
      var f, later := frames[0], frames[1..];
      ForwardedAndLogs(later);
      assert multiset(frames) == multiset{f} + multiset(later) by {
        assert frames == [f] + later;
      }
      assert Forwarded(frames) == (if f[0] != LOG then [f] else []) + Forwarded(later);
      assert Logs(frames) == (if f[0] == LOG then [f] else []) + Logs(later);
      hide Forwarded, Logs;
    }
  }
}

/**
The one socket to the host that all port readers write under a mutex, as a transition system: a reader
takes the lock, sends its frame in arbitrary non-empty pieces, and releases the lock. Every interleaving
in which no send fails is a sequence of these steps.
*/
module HostSocket {
  import opened Bytes
  import opened H4
  import opened Framing
  import opened Bridge

  /** A frame that was sent completely, with the port it came from. */
  datatype Entry = Entry(port: nat, frame: seq<Byte>)

  /**
  pending: what each port's reader still has to send, the frame it is working on first;
  holder: who holds the lock; done: how much of the holder's frame is sent.
  */
  datatype State = State(pending: seq<seq<seq<Byte>>>, holder: Option<nat>, done: nat,
                         socket: seq<Byte>, sent: seq<Entry>)

  datatype Step = Arrive(port: nat, frame: seq<Byte>) | Lock(port: nat) | Send(count: nat) | Unlock

  function Initial(ports: nat): (s: State) {
    State(seq(ports, _ => []), None, 0, [], [])
  }

  /** The lock is held by a reader that has a frame to send. */
  predicate Holding(s: State) {
    s.holder.Some? && s.holder.value < |s.pending| && s.pending[s.holder.value] != []
  }

  /** The frame being sent. */
  function Current(s: State): (frame: seq<Byte>)
    requires Holding(s)
  {
    s.pending[s.holder.value][0]
  }

  predicate Enabled(s: State, step: Step) {
    match step
    case Arrive(port, frame) => port < |s.pending|
    case Lock(port) => s.holder == None && port < |s.pending| && s.pending[port] != []
    case Send(count) => Holding(s) && 0 < count && s.done + count <= |Current(s)|
    case Unlock => Holding(s) && s.done == |Current(s)|
  }

  function Apply(s: State, step: Step): (after: State)
    requires Enabled(s, step)
  {
    match step
    case Arrive(port, frame) => s.(pending := s.pending[port := s.pending[port] + [frame]])
    case Lock(port) => s.(holder := Some(port), done := 0)
    case Send(count) =>
      s.(socket := s.socket + Current(s)[s.done..s.done + count], done := s.done + count)
    case Unlock =>
      var port := s.holder.value;
      s.(pending := s.pending[port := s.pending[port][1..]], holder := None, done := 0,
         sent := s.sent + [Entry(port, Current(s))])
  }

  /** The state after these steps, if they can be taken one after the other. */
  function After(ports: nat, steps: seq<Step>): (s: Option<State>) {
    if steps == [] then Some(Initial(ports))
    else
      var before, step := After(ports, steps[..|steps| - 1]), steps[|steps| - 1];
      if before.Some? && Enabled(before.value, step) then Some(Apply(before.value, step)) else None
  }

  predicate Leads(ports: nat, steps: seq<Step>, s: State) {
    After(ports, steps) == Some(s)
  }

  function Frames(sent: seq<Entry>): (frames: seq<seq<Byte>>)
    ensures |frames| == |sent|
  {
    seq(|sent|, i requires 0 <= i < |sent| => sent[i].frame)
  }

  /** The frames of one port among those sent, in order. */
  function OfPort(sent: seq<Entry>, port: nat): (frames: seq<seq<Byte>>) {
    if sent == [] then []
    else
      var last := sent[|sent| - 1];
      OfPort(sent[..|sent| - 1], port) + if last.port == port then [last.frame] else []
  }

  /** The frames that came in from one port, in order. */
  function Arrived(steps: seq<Step>, port: nat): (frames: seq<seq<Byte>>) {
    if steps == [] then []
    else
      var last := steps[|steps| - 1];
      Arrived(steps[..|steps| - 1], port) + if last.Arrive? && last.port == port then [last.frame] else []
  }

  /** What the bytes on the socket are, at every moment. */
  ghost predicate SocketIs(s: State) {
    && (s.holder.Some? ==> Holding(s) && s.done <= |Current(s)|)
    && s.socket == Concat(Frames(s.sent)) + if s.holder.Some? then Current(s)[..s.done] else []
  }

  ghost predicate InOrder(s: State, ports: nat, steps: seq<Step>) {
    && |s.pending| == ports
    && forall p :: 0 <= p < ports ==> OfPort(s.sent, p) + s.pending[p] == Arrived(steps, p)
  }

  lemma ApplySocket(s: State, step: Step)
    requires SocketIs(s) && Enabled(s, step)
    ensures SocketIs(Apply(s, step))
  {
    var after := Apply(s, step);
    match step {
      case Arrive(port, frame) =>
        assert s.holder.Some? ==> Current(after) == Current(s);
      case Lock(port) =>
        assert Current(after)[..0] == [];
      case Send(count) =>
        assert Current(s)[..s.done] + Current(s)[s.done..s.done + count] == Current(s)[..s.done + count];
      case Unlock =>
        assert Frames(after.sent) == Frames(s.sent) + [Current(s)];
        ConcatAppend(Frames(s.sent), [Current(s)]);
        assert Concat([Current(s)]) == Current(s);
        assert Current(s)[..s.done] == Current(s);
    }
  }

  lemma ApplyOrder(s: State, ports: nat, steps: seq<Step>, step: Step)
    requires InOrder(s, ports, steps) && Enabled(s, step)
    ensures InOrder(Apply(s, step), ports, steps + [step])
  {
  }

  /** Both hold after every interleaving. */
  lemma {:induction false} Reachable(ports: nat, steps: seq<Step>, s: State)
    requires Leads(ports, steps, s)
    ensures SocketIs(s) && InOrder(s, ports, steps)
    decreases |steps|
  {
    if steps != [] {
      var init, last := steps[..|steps| - 1], steps[|steps| - 1];
      var before := After(ports, init).value;
      Reachable(ports, init, before);
      ApplySocket(before, last);
      ApplyOrder(before, ports, init, last);
      assert init + [last] == steps;
    }
  }

  /**
  Whole frames under concurrency: in every interleaving, whenever the lock is free the socket carries a
  concatenation of whole frames, in which each port's frames are those it received, in their order.
  */
  lemma WholeFrames(ports: nat, steps: seq<Step>, s: State)
    requires Leads(ports, steps, s) && s.holder == None
    ensures s.socket == Concat(Frames(s.sent)) && |s.pending| == ports
    ensures forall p :: 0 <= p < ports ==> OfPort(s.sent, p) <= Arrived(steps, p)
    ensures forall p :: 0 <= p < ports ==> |Arrived(steps, p)| == |OfPort(s.sent, p)| + |s.pending[p]|
  {
    Reachable(ports, steps, s);
  }

  // ----- the sending loop -----

  function Total(pieces: seq<nat>): (n: nat) {
    if pieces == [] then 0 else Total(pieces[..|pieces| - 1]) + pieces[|pieces| - 1]
  }

  /** write_transport: the sizes of its successful sends; it sends all it is granted, and succeeds with the frame. */
  method WriteTransport(frame: seq<Byte>, results: seq<WriteResult>) returns (ok: bool, pieces: seq<nat>)
    ensures forall i :: 0 <= i < |pieces| ==> pieces[i] > 0
    ensures Total(pieces) == Transferred(results, |frame|)
    ensures ok <==> Total(pieces) == |frame|
  {
    hide Granted;
    pieces := [];
    var written := 0;
    var i := 0;
    assert results[0..] == results;
    while written < |frame| && i < |results|
      invariant forall k :: 0 <= k < |pieces| ==> pieces[k] > 0
      invariant written == Total(pieces) <= |frame| && i <= |results|
      invariant Transferred(results, |frame|) == Least(|frame|, written + Granted(results[i..]))
      decreases |results| - i
    {
      GrantedTurn(results, i);
      var result := results[i];
      i := i + 1;
      match result {
        case Sent(count) =>
          if count == 0 {
            return false, pieces;
          }
          var n := if count < |frame| - written then count else |frame| - written;
          assert (pieces + [n])[..|pieces|] == pieces;
          pieces := pieces + [n];
          written := written + n;
        case Interrupted(stop) =>
          if stop {
            return false, pieces;
          }
        case WouldBlock(writable) =>
          if !writable {
            return false, pieces;
          }
        case WriteFailed =>
          return false, pieces;
      }
    }
    GrantedTurn(results, |results|);
    ok := written == |frame|;
  }

  /** The state after sends of these sizes. */
  function SendAll(s: State, pieces: seq<nat>): (after: State)
    requires Holding(s) && s.done + Total(pieces) <= |Current(s)|
    requires forall i :: 0 <= i < |pieces| ==> pieces[i] > 0
    ensures after.pending == s.pending && after.holder == s.holder && after.sent == s.sent
    ensures after.done == s.done + Total(pieces)
  {
    if pieces == [] then s else Apply(SendAll(s, pieces[..|pieces| - 1]), Send(pieces[|pieces| - 1]))
  }

  /** The sends of one loop are steps that append exactly the bytes of the frame they cover. */
  lemma {:induction false} SendAllAppends(s: State, pieces: seq<nat>)
    requires Holding(s) && s.done + Total(pieces) <= |Current(s)|
    requires forall i :: 0 <= i < |pieces| ==> pieces[i] > 0
    ensures SendAll(s, pieces).socket == s.socket + Current(s)[s.done..s.done + Total(pieces)]
  {
    if pieces != [] {
      var init, n := pieces[..|pieces| - 1], pieces[|pieces| - 1];
      SendAllAppends(s, init);
      var frame, from, mid := Current(s), s.done, s.done + Total(init);
      assert frame[from..mid] + frame[mid..mid + n] == frame[from..mid + n];
      assert s.socket + (frame[from..mid] + frame[mid..mid + n]) == s.socket + frame[from..mid] + frame[mid..mid + n];
    }
  }

  /** The sends of one loop as steps. */
  function Sends(pieces: seq<nat>): (steps: seq<Step>)
    ensures |steps| == |pieces|
  {
    seq(|pieces|, i requires 0 <= i < |pieces| => Send(pieces[i]))
  }

  /** Each of them is possible where the one before has left off. */
  lemma {:induction false} SendAllLeads(ports: nat, steps: seq<Step>, s: State, pieces: seq<nat>)
    requires Leads(ports, steps, s)
    requires Holding(s) && s.done + Total(pieces) <= |Current(s)|
    requires forall i :: 0 <= i < |pieces| ==> pieces[i] > 0
    ensures Leads(ports, steps + Sends(pieces), SendAll(s, pieces))
  {
    if pieces == [] {
      assert steps + Sends(pieces) == steps;
    } else {
      var init, n := pieces[..|pieces| - 1], pieces[|pieces| - 1];
      SendAllLeads(ports, steps, s, init);
      assert steps + Sends(pieces) == steps + Sends(init) + [Send(n)];
      StepLeads(ports, steps + Sends(init), SendAll(s, init), Send(n));
    }
  }

  lemma StepLeads(ports: nat, steps: seq<Step>, s: State, step: Step)
    requires Leads(ports, steps, s) && Enabled(s, step)
    ensures Leads(ports, steps + [step], Apply(s, step))
  {
    assert (steps + [step])[..|steps|] == steps;
  }

  /** The steps of a sequence that are not arrivals. */
  function Own(steps: seq<Step>): (own: seq<Step>) {
    if steps == [] then []
    else
      var last := steps[|steps| - 1];
      Own(steps[..|steps| - 1]) + if last.Arrive? then [] else [last]
  }

  /** The same state, except that these frames have come in as well. */
  ghost predicate WithArrivals(s: State, mixed: seq<Step>, t: State) {
    && |t.pending| == |s.pending|
    && t == s.(pending := t.pending)
    && forall p :: 0 <= p < |s.pending| ==> t.pending[p] == s.pending[p] + Arrived(mixed, p)
  }

  lemma NoArrivals(s: State)
    ensures WithArrivals(s, [], s)
  {
  }

  /** A step that is possible stays possible, and does the same, when frames have come in meanwhile. */
  lemma StepWithArrivals(s: State, mixed: seq<Step>, t: State, step: Step)
    requires WithArrivals(s, mixed, t) && !step.Arrive? && Enabled(s, step)
    ensures Enabled(t, step) && WithArrivals(Apply(s, step), mixed + [step], Apply(t, step))
  {
    assert (mixed + [step])[..|mixed|] == mixed;
  }

  lemma OwnMore(mixed: seq<Step>, last: Step)
    ensures Own(mixed + [last]) == Own(mixed) + if last.Arrive? then [] else [last]
  {
    assert (mixed + [last])[..|mixed|] == mixed;
  }

  /** A run that ends with a step has a state before it. */
  lemma LastStep(ports: nat, steps: seq<Step>, step: Step, s: State) returns (before: State)
    requires Leads(ports, steps + [step], s)
    ensures Leads(ports, steps, before) && Enabled(before, step) && s == Apply(before, step)
  {
    assert (steps + [step])[..|steps|] == steps;
    before := After(ports, steps).value;
  }

  /**
  The other readers go on while one sends: frames may come in on any port between any two of its steps, and
  the steps stay possible, with the same bytes on the socket.
  */
  lemma {:induction false} ArrivalsInterleave(ports: nat, steps: seq<Step>, s: State, mixed: seq<Step>)
    returns (t: State)
    requires Leads(ports, steps + Own(mixed), s)
    requires forall k :: 0 <= k < |mixed| && mixed[k].Arrive? ==> mixed[k].port < ports
    ensures Leads(ports, steps + mixed, t) && WithArrivals(s, mixed, t)
    decreases |mixed|
  {
    hide Enabled, Apply, WithArrivals, Leads, Own;
    if mixed == [] {
      OwnNone();
      NoArrivals(s);
      t := s;
    } else {
      var init, last := mixed[..|mixed| - 1], mixed[|mixed| - 1];
      assert mixed == init + [last];
      OwnMore(init, last);
      var u;
      if last.Arrive? {
        assert Own(init) + [] == Own(init);
        u := ArrivalsInterleave(ports, steps, s, init);
        SentFromPorts(ports, steps + init, u);
        ArriveAfter(s, init, u, last);
      } else {
        assert steps + (Own(init) + [last]) == (steps + Own(init)) + [last];
        var before := LastStep(ports, steps + Own(init), last, s);
        u := ArrivalsInterleave(ports, steps, before, init);
        StepWithArrivals(before, init, u, last);
      }
      StepLeads(ports, steps + init, u, last);
      assert steps + mixed == (steps + init) + [last];
      t := Apply(u, last);
    }
  }

  lemma OwnNone()
    ensures Own([]) == []
  {
  }

  lemma ArriveAfter(s: State, mixed: seq<Step>, t: State, step: Step)
    requires WithArrivals(s, mixed, t) && step.Arrive? && step.port < |t.pending|
    ensures Enabled(t, step) && WithArrivals(s, mixed + [step], Apply(t, step))
  {
    assert (mixed + [step])[..|mixed|] == mixed;
  }

  /** The side of the socket the readers share: its state, and the steps that led to it. */
  class HostLink {
    const ports: nat
    var state: State
    ghost var steps: seq<Step>

    ghost predicate Valid()
      reads this
    {
      Leads(ports, steps, state) && |state.pending| == ports
    }

    constructor (ports: nat)
      ensures Valid() && this.ports == ports && state == Initial(ports) && steps == []
    {
      this.ports := ports;
      state, steps := Initial(ports), [];
    }

    /** A port's reader has taken a frame for the host out of its stream. */
    method Queue(port: nat, frame: seq<Byte>)
      requires Valid() && port < ports
      modifies this
      ensures Valid() && steps == old(steps) + [Arrive(port, frame)]
      ensures state == old(state).(pending := old(state).pending[port := old(state).pending[port] + [frame]])
    {
      StepLeads(ports, steps, state, Arrive(port, frame));
      steps := steps + [Arrive(port, frame)];
      state := Apply(state, Arrive(port, frame));
    }

    /**
    scomm_vendor_send_to_host, once it has the lock: the steps it takes are steps of the transition system.
    If it succeeds the socket has received exactly the frame; if a send fails, exactly what was granted, and
    the run stops there.
    */
    method SendToHost(port: nat, open: bool, results: seq<WriteResult>) returns (ok: bool, pieces: seq<nat>)
      requires Valid() && port < ports && state.holder == None && state.pending[port] != []
      modifies this
      ensures Valid()
      ensures var frame := old(state).pending[port][0];
        ok <==> open && Transferred(results, |frame|) == |frame|
      ensures !open ==> state == old(state) && steps == old(steps)
      ensures open ==> steps == old(steps) + [Lock(port)] + Sends(pieces) + if ok then [Unlock] else []
      ensures var frame := old(state).pending[port][0];
        open && !ok ==>
          var n := Transferred(results, |frame|);
          state == old(state).(holder := Some(port), done := n, socket := old(state).socket + frame[..n])
      ensures var frame := old(state).pending[port][0];
        ok ==> state == old(state).(pending := old(state).pending[port := old(state).pending[port][1..]], done := 0,
                                    socket := old(state).socket + frame, sent := old(state).sent + [Entry(port, frame)])
    {
      hide Transferred, Leads;
      if !open {
        return false, [];
      }
      StepLeads(ports, steps, state, Lock(port));
      steps, state := steps + [Lock(port)], Apply(state, Lock(port));
      var frame := Current(state);
      ok, pieces := WriteTransport(frame, results);
      SendAllLeads(ports, steps, state, pieces);
      SendAllAppends(state, pieces);
      steps, state := steps + Sends(pieces), SendAll(state, pieces);
      if ok {
        assert frame[..|frame|] == frame;
        StepLeads(ports, steps, state, Unlock);
        steps, state := steps + [Unlock], Apply(state, Unlock);
      }
    }
  }

  // ----- from the ports to the kernel -----

  /** A data frame fits the controller's buffer for its type; other frames have no such limit. */
  predicate FitsBuffers(aclMtu: nat, scoMtu: nat, frame: seq<Byte>) {
    frame != [] ==>
      && (frame[0] == ACL ==> |frame| <= aclMtu + 5)
      && (frame[0] == SCO ==> scoMtu != 0 && |frame| <= scoMtu + 4)
  }

  /** The bridge takes what the library passes on exactly when it respects the controller's buffer sizes. */
  lemma BridgeTakesIff(aclMtu: nat, scoMtu: nat, frame: seq<Byte>)
    requires SizesAccepted(aclMtu, scoMtu)
    requires Accepts(LibraryController, frame) && frame[0] != LOG
    ensures Accepts(BridgeController(aclMtu, scoMtu), frame) <==> FitsBuffers(aclMtu, scoMtu, frame)
    ensures !FitsBuffers(aclMtu, scoMtu, frame) ==> Judge(BridgeController(aclMtu, scoMtu), frame) == Refuse
  {
  }

  /** Whatever a set of frames satisfies on arrival, the frames sent and the one being sent satisfy. */
  lemma {:induction false} SentArrived(sent: seq<Entry>, i: nat)
    requires i < |sent|
    ensures sent[i].frame in OfPort(sent, sent[i].port)
  {
    if i < |sent| - 1 {
      SentArrived(sent[..|sent| - 1], i);
    }
  }

  lemma AllAccepted(side: Side, ports: nat, steps: seq<Step>, s: State)
    requires Leads(ports, steps, s)
    requires forall p, k :: 0 <= p < ports && 0 <= k < |Arrived(steps, p)| ==> Accepts(side, Arrived(steps, p)[k])
    requires forall k :: 0 <= k < |s.sent| ==> s.sent[k].port < ports
    ensures forall k :: 0 <= k < |s.sent| ==> Accepts(side, s.sent[k].frame)
    ensures s.holder.Some? ==> Holding(s) && Accepts(side, Current(s))
  {
    hide Accepts;
    Reachable(ports, steps, s);
    forall k | 0 <= k < |s.sent|
      ensures Accepts(side, s.sent[k].frame)
    {
      SentArrived(s.sent, k);
      var p := s.sent[k].port;
      var j :| 0 <= j < |OfPort(s.sent, p)| && OfPort(s.sent, p)[j] == s.sent[k].frame;
      assert Arrived(steps, p)[j] == (OfPort(s.sent, p) + s.pending[p])[j];
    }
    if s.holder.Some? {
      var p := s.holder.value;
      assert Arrived(steps, p)[|OfPort(s.sent, p)|] == (OfPort(s.sent, p) + s.pending[p])[|OfPort(s.sent, p)|];
    }
  }

  lemma {:induction false} SentFromPorts(ports: nat, steps: seq<Step>, s: State)
    requires Leads(ports, steps, s)
    ensures |s.pending| == ports
    ensures forall k :: 0 <= k < |s.sent| ==> s.sent[k].port < ports
    decreases |steps|
  {
    if steps != [] {
      var init, last := steps[..|steps| - 1], steps[|steps| - 1];
      var before := After(ports, init).value;
      SentFromPorts(ports, init, before);
    }
  }

  /**
  End to end: whatever the ports' readers do in parallel and however the socket's bytes are cut into reads,
  the bridge takes the frames in the order they were sent, refuses none, and has all of them once it has read
  everything and the lock is free.
  */
  lemma KernelGetsFrames(aclMtu: nat, scoMtu: nat, ports: nat, steps: seq<Step>, s: State,
                         chunks: seq<seq<Byte>>, sends: nat)
    requires Leads(ports, steps, s)
    requires forall p, k :: 0 <= p < ports && 0 <= k < |Arrived(steps, p)| ==>
      Accepts(BridgeController(aclMtu, scoMtu), Arrived(steps, p)[k])
    requires Concat(chunks) <= s.socket && |s.sent| < sends
    ensures var fed := Feed(BridgeController(aclMtu, scoMtu), [], chunks, sends);
      && fed.outcome == Waiting
      && fed.frames <= Frames(s.sent) + (if s.holder.Some? && Holding(s) then [Current(s)] else [])
      && (Concat(chunks) == s.socket && s.holder == None ==> fed.frames == Frames(s.sent) && fed.rest == [])
  {
    hide Accepts, Feed, Concat, Deliveries, Frames;
    var side := BridgeController(aclMtu, scoMtu);
    SentFromPorts(ports, steps, s);
    AllAccepted(side, ports, steps, s);
    Reachable(ports, steps, s);
    var whole := Frames(s.sent) + (if s.holder.Some? && Holding(s) then [Current(s)] else []);
    assert s.socket <= Concat(whole) by { SocketWithin(s); }
    assert forall k :: 0 <= k < |s.sent| ==> Frames(s.sent)[k] == s.sent[k].frame by { FramesAt(s.sent); }
    DeliveriesBounded(side, whole);
    ReframesPrefix(side, whole, chunks, sends);
    assert s.holder == None ==> whole == Frames(s.sent);
  }

  lemma FramesAt(sent: seq<Entry>)
    ensures forall k :: 0 <= k < |sent| ==> Frames(sent)[k] == sent[k].frame
  {
  }

  lemma SocketWithin(s: State)
    requires SocketIs(s)
    ensures s.socket <= Concat(Frames(s.sent) + if s.holder.Some? then [Current(s)] else [])
    ensures s.holder == None ==> s.socket == Concat(Frames(s.sent))
  {
    if s.holder.Some? {
      ConcatAppend(Frames(s.sent), [Current(s)]);
      assert Concat([Current(s)]) == Current(s);
    } else {
      assert Frames(s.sent) + [] == Frames(s.sent);
    }
  }

  /** Whatever a port's reader passes on is acceptable to it and not a log frame. */
  lemma {:induction false} ForwardedAre(side: Side, frames: seq<seq<Byte>>)
    requires forall k :: 0 <= k < |frames| ==> Accepts(side, frames[k])
    ensures forall f :: f in Forwarded(frames) ==> Accepts(side, f) && f[0] != LOG
  {
    hide Accepts;
    if frames != [] {
      ForwardedAre(side, frames[1..]);
    }
  }

  /** The frames on the socket: those sent completely, and the one being sent. */
  function OnSocket(s: State): (frames: seq<seq<Byte>>)
  {
    Frames(s.sent) + if Holding(s) then [Current(s)] else []
  }

  /** Every frame on the socket came through a port's reader. */
  lemma SentByReaders(ports: nat, steps: seq<Step>, s: State, bytes: seq<seq<Byte>>, written: seq<nat>)
    requires Leads(ports, steps, s) && |bytes| == |written| == ports
    requires forall p :: 0 <= p < ports ==>
      Arrived(steps, p) == Forwarded(Drain(LibraryController, bytes[p], written[p]).frames)
    ensures forall k :: 0 <= k < |OnSocket(s)| ==>
      Accepts(LibraryController, OnSocket(s)[k]) && OnSocket(s)[k][0] != LOG
  {
    hide Judge, Drain, Forwarded;
    SentFromPorts(ports, steps, s);
    Reachable(ports, steps, s);
    forall k | 0 <= k < |OnSocket(s)|
      ensures Accepts(LibraryController, OnSocket(s)[k]) && OnSocket(s)[k][0] != LOG
    {
      var p := if k < |s.sent| then s.sent[k].port else s.holder.value;
      if k < |s.sent| {
        SentArrived(s.sent, k);
      }
      assert OnSocket(s)[k] in OfPort(s.sent, p) + s.pending[p];
      DrainedAccepted(LibraryController, bytes[p], written[p]);
      ForwardedAre(LibraryController, Drain(LibraryController, bytes[p], written[p]).frames);
    }
  }

  /** The first frame of a sequence that does not fit the controller's buffers. */
  function FirstMisfit(aclMtu: nat, scoMtu: nat, frames: seq<seq<Byte>>): (k: nat)
    ensures k <= |frames|
    ensures forall j :: 0 <= j < k ==> FitsBuffers(aclMtu, scoMtu, frames[j])
    ensures k < |frames| ==> !FitsBuffers(aclMtu, scoMtu, frames[k])
  {
    if frames == [] || !FitsBuffers(aclMtu, scoMtu, frames[0]) then 0
    else 1 + FirstMisfit(aclMtu, scoMtu, frames[1..])
  }

  /** What the bridge does with all frames of a sequence: it takes those before the first misfit and stops there. */
  lemma BridgeDrains(aclMtu: nat, scoMtu: nat, frames: seq<seq<Byte>>, sends: nat)
    requires SizesAccepted(aclMtu, scoMtu) && |frames| <= sends
    requires forall k :: 0 <= k < |frames| ==> Accepts(LibraryController, frames[k]) && frames[k][0] != LOG
    ensures var d := Drain(BridgeController(aclMtu, scoMtu), Concat(frames), sends);
      var k := FirstMisfit(aclMtu, scoMtu, frames);
      && d.frames == frames[..k]
      && d.outcome == (if k < |frames| then Refused else Waiting)
      && (k == |frames| ==> d.rest == [])
  {
    hide Accepts, Concat, Deliveries, Judge, Drain, FitsBuffers;
    var side, k := BridgeController(aclMtu, scoMtu), FirstMisfit(aclMtu, scoMtu, frames);
    forall j | 0 <= j < |frames|
      ensures Accepts(side, frames[j]) <==> FitsBuffers(aclMtu, scoMtu, frames[j])
      ensures !FitsBuffers(aclMtu, scoMtu, frames[j]) ==> frames[j] != [] && Judge(side, frames[j]) == Refuse
    {
      BridgeTakes(aclMtu, scoMtu, frames[j]);
    }
    DeliveriesBounded(side, frames[..k]);
    if k == |frames| {
      assert frames[..k] == frames;
      DrainConcat(side, frames, sends);
    } else {
      ConcatSplit(frames, k);
      DrainRefuses(side, frames[..k], frames[k], Concat(frames[k + 1..]), sends);
    }
  }

  /** And with whatever part of them has arrived, in whatever pieces. */
  lemma BridgeReads(aclMtu: nat, scoMtu: nat, frames: seq<seq<Byte>>, chunks: seq<seq<Byte>>, sends: nat)
    requires SizesAccepted(aclMtu, scoMtu) && |frames| <= sends
    requires forall k :: 0 <= k < |frames| ==> Accepts(LibraryController, frames[k]) && frames[k][0] != LOG
    requires Concat(chunks) <= Concat(frames)
    ensures var fed := Feed(BridgeController(aclMtu, scoMtu), [], chunks, sends);
      var k := FirstMisfit(aclMtu, scoMtu, frames);
      && fed.frames <= frames[..k]
      && (fed.outcome == Waiting || fed.outcome == Refused)
      && (fed.outcome == Refused ==> k < |frames| && fed.frames == frames[..k])
      && (Concat(chunks) == Concat(frames) ==>
        && fed.frames == frames[..k]
        && (fed.outcome == Waiting <==> k == |frames|)
        && (fed.outcome == Waiting ==> fed.rest == []))
  {
    hide Accepts, Feed, Concat, Judge, Drain, FirstMisfit;
    var side, arrived := BridgeController(aclMtu, scoMtu), Concat(chunks);
    BridgeDrains(aclMtu, scoMtu, frames, sends);
    EmptyDrain(side, sends);
    ChunkingIndependent(side, [], chunks, sends);
    assert [] + arrived == arrived;
    var missing := Concat(frames)[|arrived|..];
    assert arrived + missing == Concat(frames);
    DrainAppend(side, arrived, missing, sends);
  }

  /**
  From the controller to the kernel: each port's reader passes on what one drain of the bytes from its port
  gives, in parallel with the others. However much of the socket the bridge has read, in whatever pieces, it
  has taken frames in the order of the socket and none from the first one on that exceeds the controller's
  buffers; if it has stopped it was at that one. Once everything is read, it has taken exactly the frames
  before that one, so it refuses nothing if and only if every data frame respects the sizes announced.
  */
  lemma ControllerToKernel(aclMtu: nat, scoMtu: nat, ports: nat, steps: seq<Step>, s: State,
                           bytes: seq<seq<Byte>>, written: seq<nat>, chunks: seq<seq<Byte>>, sends: nat)
    requires SizesAccepted(aclMtu, scoMtu)
    requires Leads(ports, steps, s) && |bytes| == |written| == ports
    requires forall p :: 0 <= p < ports ==>
      Arrived(steps, p) == Forwarded(Drain(LibraryController, bytes[p], written[p]).frames)
    requires Concat(chunks) <= s.socket && |s.sent| < sends
    ensures var fed, frames := Feed(BridgeController(aclMtu, scoMtu), [], chunks, sends), OnSocket(s);
      var k := FirstMisfit(aclMtu, scoMtu, frames);
      && fed.frames <= frames[..k]
      && (fed.outcome == Waiting || fed.outcome == Refused)
      && (fed.outcome == Refused ==> k < |frames| && fed.frames == frames[..k])
      && (Concat(chunks) == s.socket && s.holder == None ==>
        && fed.frames == frames[..k]
        && (fed.outcome == Waiting <==> forall j :: 0 <= j < |frames| ==> FitsBuffers(aclMtu, scoMtu, frames[j]))
        && (fed.outcome == Waiting ==> fed.frames == Frames(s.sent) && fed.rest == []))
  {
    hide Accepts, Feed, Concat, Frames, Judge, Drain, Forwarded, FitsBuffers, Leads, FirstMisfit, Arrived;
    var frames := OnSocket(s);
    SentByReaders(ports, steps, s, bytes, written);
    Reachable(ports, steps, s);
    SocketWithin(s);
    assert Frames(s.sent) + [] == Frames(s.sent);
    BridgeReads(aclMtu, scoMtu, frames, chunks, sends);
    assert frames[..|frames|] == frames;
  }

  lemma BridgeTakes(aclMtu: nat, scoMtu: nat, frame: seq<Byte>)
    requires SizesAccepted(aclMtu, scoMtu)
    requires Accepts(LibraryController, frame) && frame[0] != LOG
    ensures frame != []
    ensures Accepts(BridgeController(aclMtu, scoMtu), frame) <==> FitsBuffers(aclMtu, scoMtu, frame)
    ensures !FitsBuffers(aclMtu, scoMtu, frame) ==> Judge(BridgeController(aclMtu, scoMtu), frame) == Refuse
  {
    hide FitsBuffers, Judge;
    BridgeTakesIff(aclMtu, scoMtu, frame);
  }

  lemma ConcatSplit(frames: seq<seq<Byte>>, k: nat)
    requires k < |frames|
    ensures Concat(frames) == Concat(frames[..k]) + (frames[k] + Concat(frames[k + 1..]))
  {
    assert frames == frames[..k] + frames[k..];
    ConcatAppend(frames[..k], frames[k..]);
  }
}

/**
H4 packets: the decoder of skw_h4.h, the packets it recognises, and its fixed stream buffer.
*/
module H4 {
  import opened Bytes

  const COMMAND: Byte := 1
  const ACL: Byte := 2
  const SCO: Byte := 3
  const EVENT: Byte := 4
  const ISO: Byte := 5
  const LOG: Byte := 7

  const KERNEL_MAX_FRAME := 1028
  const EVENT_MAX_FRAME := 258
  const COMMAND_MAX_FRAME := 259
  const SCO_MAX_FRAME := 259
  const ISO_MAX_FRAME := 256
  const STREAM_CAPACITY := 4096

  datatype Status = Invalid | Incomplete | Complete

  /** Fields not yet known are zero. */
  datatype Frame = Frame(kind: Byte, header: nat, payload: nat, size: nat)

  datatype Decoded = Decoded(status: Status, frame: Frame)

  function HeaderSize(kind: Byte): (n: nat) {
    if kind == COMMAND || kind == SCO || kind == LOG then 4
    else if kind == ACL || kind == ISO then 5
    else if kind == EVENT then 3
    else 0
  }

  /** The two-byte little-endian length field. */
  function Pair(low: Byte, high: Byte): (n: nat) {
    (low as int) + 256 * (high as int)
  }

  /** The payload size a complete header announces; the top bits of an ISO length are flags. */
  function PayloadSize(data: seq<Byte>): (n: nat)
    requires data != [] && HeaderSize(data[0]) > 0 && |data| >= HeaderSize(data[0])
  {
    var kind := data[0];
    if kind == COMMAND || kind == SCO then data[3]
    else if kind == EVENT then data[2]
    else if kind == ACL then Pair(data[3], data[4])
    else if kind == ISO then Pair(data[3], data[4] % 64)
    else Pair(data[2], data[3])
  }

  /** skw_h4_decode. */
  function Decode(data: seq<Byte>): (d: Decoded)
    ensures data != [] ==> d.frame.kind == data[0]
    ensures d.frame.size != 0 ==> 3 <= d.frame.header <= d.frame.size
    ensures d.status == Complete ==> 3 <= d.frame.size <= |data| && d.frame.size <= STREAM_CAPACITY
  {
    if data == [] then Decoded(Incomplete, Frame(0, 0, 0, 0))
    else
      var kind, header := data[0], HeaderSize(data[0]);
      if header == 0 then Decoded(Invalid, Frame(kind, 0, 0, 0))
      else if |data| < header then Decoded(Incomplete, Frame(kind, header, 0, 0))
      else if kind == ISO && data[4] / 64 == 3 then Decoded(Invalid, Frame(kind, header, 0, 0))
      else
        var payload := PayloadSize(data);
        var frame := Frame(kind, header, payload, header + payload);
        if frame.size > STREAM_CAPACITY then Decoded(Invalid, frame)
        else if |data| < frame.size then Decoded(Incomplete, frame)
        else Decoded(Complete, frame)
  }

  // ----- the bytes of a header -----

  /** The size the first bytes announce, header included; 0 while they do not tell. */
  ghost function Announced(data: seq<Byte>): (size: nat) {
    if data == [] then 0
    else
      var kind, n := data[0], |data|;
      if (kind == 1 || kind == 3) && n >= 4 then 4 + (data[3] as int)
      else if kind == 2 && n >= 5 then 5 + (data[3] as int) + 256 * (data[4] as int)
      else if kind == 4 && n >= 3 then 3 + (data[2] as int)
      else if kind == 5 && n >= 5 then 5 + (data[3] as int) + 256 * ((data[4] as int) % 64)
      else if kind == 7 && n >= 4 then 4 + (data[2] as int) + 256 * (data[3] as int)
      else 0
  }

  /** No packet starts like this: an unknown type, both reserved bits of an ISO length, or more than 4096 bytes. */
  ghost predicate Malformed(data: seq<Byte>) {
    data != [] &&
      (|| data[0] == 0 || data[0] == 6 || data[0] > 7
       || (data[0] == 5 && |data| >= 5 && data[4] >= 192)
       || Announced(data) > 4096)
  }

  /** The decoder, in terms of these bytes. */
  lemma DecodeMeans(data: seq<Byte>)
    ensures var d := Decode(data);
      && d.status == (if Malformed(data) then Invalid
                      else if Announced(data) == 0 || |data| < Announced(data) then Incomplete
                      else Complete)
      && (d.status != Invalid ==> d.frame.size == Announced(data))
  {
  }

  // ----- the packets -----

  /** The packets of the Bluetooth Core Specification, Vol 4 Part E section 5.4, and the chip's log packet. */
  datatype Packet =
    | CommandPacket(opcodeLow: Byte, opcodeHigh: Byte, body: seq<Byte>)
    | AclPacket(handleLow: Byte, handleHigh: Byte, body: seq<Byte>)
    | ScoPacket(handleLow: Byte, handleHigh: Byte, body: seq<Byte>)
    | EventPacket(code: Byte, body: seq<Byte>)
    | IsoPacket(handleLow: Byte, handleHigh: Byte, reserved: Byte, body: seq<Byte>)
    | LogPacket(tag: Byte, body: seq<Byte>)

  /** The lengths fit their fields; of an ISO packet's two reserved bits not both are set. */
  predicate Encodable(p: Packet) {
    match p
    case AclPacket(_, _, body) => |body| < 0x1_0000
    case LogPacket(_, body) => |body| < 0x1_0000
    case IsoPacket(_, _, reserved, body) => |body| < 0x4000 && reserved < 3
    case _ => |p.body| < 256
  }

  function Header(p: Packet): (s: seq<Byte>)
    requires Encodable(p)
    ensures |s| >= 3
  {
    var n := |p.body|;
    match p
    case CommandPacket(l, h, _) => [COMMAND, l, h, n]
    case AclPacket(l, h, _) => [ACL, l, h, n % 256, n / 256]
    case ScoPacket(l, h, _) => [SCO, l, h, n]
    case EventPacket(code, _) => [EVENT, code, n]
    case IsoPacket(l, h, reserved, _) => [ISO, l, h, n % 256, 64 * reserved + n / 256]
    case LogPacket(tag, _) => [LOG, tag, n % 256, n / 256]
  }

  function Encode(p: Packet): (s: seq<Byte>)
    requires Encodable(p)
  {
    Header(p) + p.body
  }

  /** Decoding finds every packet that fits the stream at the head of whatever follows it. */
  lemma DecodeEncode(p: Packet, rest: seq<Byte>)
    requires Encodable(p)
    ensures var d := Decode(Encode(p) + rest);
      && d.frame.kind == Header(p)[0] && d.frame.size == |Encode(p)|
      && d.status == if |Encode(p)| <= STREAM_CAPACITY then Complete else Invalid
  {
    var data := Encode(p) + rest;
    assert data[..|Header(p)|] == Header(p);
    DecodeOfHeader(p, data);
  }

  /** A header announces its packet's size, whatever the bytes behind it are. */
  lemma DecodeOfHeader(p: Packet, data: seq<Byte>)
    requires Encodable(p) && |data| >= |Encode(p)| && data[..|Header(p)|] == Header(p)
    ensures var d := Decode(data);
      && d.frame.kind == Header(p)[0] && d.frame.size == |Encode(p)|
      && d.status == if |Encode(p)| <= STREAM_CAPACITY then Complete else Invalid
  {
    var header := Header(p);
    assert forall i :: 0 <= i < |header| ==> data[i] == header[i];
    HeaderReads(p);
    assert PayloadSize(data) == PayloadSize(header);
  }

  /** The header's own length is that of its kind, and its length field is the length of the body. */
  lemma HeaderReads(p: Packet)
    requires Encodable(p)
    ensures var h := Header(p);
      && |h| == HeaderSize(h[0]) > 0 && PayloadSize(h) == |p.body|
      && (h[0] == ISO ==> h[4] / 64 < 3)
  {
  }

  /** The three verdicts as what they mean for a stream that may go on. */
  lemma Verdicts(data: seq<Byte>)
    ensures Decode(data).status == Complete <==>
      exists p :: Encodable(p) && |Encode(p)| <= STREAM_CAPACITY && Encode(p) <= data
    ensures Decode(data).status == Invalid <==> forall more :: Decode(data + more).status != Complete
  {
    if Decode(data).status == Complete {
      var p := DecodedPacket(data);
      assert data + [] == data;
      assert Decode(data + []).status == Complete;
    } else if Decode(data).status == Invalid {
      forall more
        ensures Decode(data + more).status != Complete
      {
        DecodeStable(data, more);
      }
    } else {
      var more := Completion(data);
      assert Decode(data + more).status == Complete;
    }
    forall p | Encodable(p) && |Encode(p)| <= STREAM_CAPACITY && Encode(p) <= data
      ensures Decode(data).status == Complete
    {
      assert data == Encode(p) + data[|Encode(p)|..];
      DecodeEncode(p, data[|Encode(p)|..]);
    }
  }

  /** Incomplete bytes can always go on to a packet: zeros finish the header and then the payload. */
  lemma Completion(data: seq<Byte>) returns (more: seq<Byte>)
    requires Decode(data).status == Incomplete
    ensures Decode(data + more).status == Complete
  {
    hide Decode, HeaderSize;
    var first := HeaderCompletion(data);
    var begun := data + first;
    var size := Decode(begun).frame.size;
    var rest := Zeros(if |begun| < size then size - |begun| else 0);
    SizeCompletes(begun, rest);
    assert begun + rest == data + (first + rest);
    more := first + rest;
  }

  lemma HeaderCompletion(data: seq<Byte>) returns (more: seq<Byte>)
    requires Decode(data).status == Incomplete
    ensures Decode(data + more).status != Invalid && Decode(data + more).frame.size != 0
  {
    if data == [] {
      more := [COMMAND, 0, 0, 0];
    } else {
      var header := HeaderSize(data[0]);
      more := if |data| < header then Zeros(header - |data|) else [];
      var begun := data + more;
      assert begun[0] == data[0] && |data| <= |begun|;
      if |data| < header {
        assert begun[header - 1] == 0;
        assert header == 5 ==> begun[4] == 0;
      } else {
        assert begun == data;
      }
    }
  }

  lemma SizeCompletes(data: seq<Byte>, more: seq<Byte>)
    requires Decode(data).status != Invalid && Decode(data).frame.size != 0
    requires |data| + |more| >= Decode(data).frame.size
    ensures Decode(data + more).status == Complete
  {
    DecodeStable(data, more);
  }

  /** And it finds nothing else: what decodes as complete starts with a packet. */
  lemma DecodedPacket(data: seq<Byte>) returns (p: Packet)
    requires Decode(data).status == Complete
    ensures Encodable(p) && Encode(p) == data[..Decode(data).frame.size]
  {
    var f := Decode(data).frame;
    p := PacketOf(data[..f.header], data[f.header..f.size]);
    assert data[..f.size] == data[..f.header] + data[f.header..f.size];
  }

  lemma PairParts(low: Byte, high: Byte)
    ensures Pair(low, high) % 256 == low && Pair(low, high) / 256 == high
  {
  }

  lemma PacketOf(header: seq<Byte>, body: seq<Byte>) returns (p: Packet)
    requires header != [] && |header| == HeaderSize(header[0]) > 0
    requires |body| == PayloadSize(header)
    requires header[0] == ISO ==> header[4] / 64 != 3
    ensures Encodable(p) && Header(p) == header && p.body == body
  {
    hide Pair;
    var kind := header[0];
    assert header == if |header| == 3 then header[..3]
                     else if |header| == 4 then [kind, header[1], header[2], header[3]]
                     else [kind, header[1], header[2], header[3], header[4]];
    if kind == COMMAND {
      p := CommandPacket(header[1], header[2], body);
    } else if kind == ACL {
      PairParts(header[3], header[4]);
      p := AclPacket(header[1], header[2], body);
    } else if kind == SCO {
      p := ScoPacket(header[1], header[2], body);
    } else if kind == EVENT {
      p := EventPacket(header[1], body);
    } else if kind == ISO {
      PairParts(header[3], header[4] % 64);
      p := IsoPacket(header[1], header[2], header[4] / 64, body);
    } else {
      PairParts(header[2], header[3]);
      p := LogPacket(header[1], body);
    }
  }

  /** More bytes never change a verdict, nor a size once it is known. */
  lemma DecodeStable(data: seq<Byte>, more: seq<Byte>)
    requires data != []
    ensures Decode(data + more).frame.kind == Decode(data).frame.kind == data[0]
    ensures Decode(data).status != Incomplete ==> Decode(data + more) == Decode(data)
    ensures Decode(data).frame.size != 0 ==> Decode(data + more).frame == Decode(data).frame
  {
  }

  /** A complete frame decodes the same without the bytes behind it. */
  lemma DecodedAlone(data: seq<Byte>)
    requires Decode(data).status == Complete
    ensures Decode(data[..Decode(data).frame.size]) == Decode(data)
  {
    assert data[..Decode(data).frame.size] != [];
  }

  // ----- the stream buffer -----

  class Stream {
    const data: array<Byte>
    var length: nat

    ghost predicate Valid()
      reads this
    {
      data.Length == STREAM_CAPACITY && length <= STREAM_CAPACITY
    }

    ghost function Held(): (s: seq<Byte>)
      requires Valid()
      reads this, data
    {
      data[..length]
    }

    constructor ()
      ensures Valid() && Held() == [] && fresh(data)
    {
      data := new Byte[STREAM_CAPACITY](_ => 0);
      length := 0;
    }

    /** skw_h4_stream_append; also what a read of at most the free space leaves in the buffer. */
    method Append(bytes: seq<Byte>) returns (ok: bool)
      requires Valid()
      modifies this`length, data
      ensures Valid()
      ensures ok == (|old(Held())| + |bytes| <= STREAM_CAPACITY)
      ensures Held() == if ok then old(Held()) + bytes else old(Held())
    {
      if |bytes| > STREAM_CAPACITY - length {
        return false;
      }
      forall i | 0 <= i < |bytes| {
        data[length + i] := bytes[i];
      }
      length := length + |bytes|;
      ok := true;
    }

    /** skw_h4_stream_next. */
    method Next() returns (d: Decoded)
      requires Valid()
      ensures d == Decode(Held())
    {
      d := Decode(data[..length]);
    }

    /** skw_h4_stream_consume. */
    method Consume(count: nat) returns (ok: bool)
      requires Valid()
      modifies this`length, data
      ensures Valid()
      ensures ok == (count <= |old(Held())|)
      ensures Held() == if ok then old(Held())[count..] else old(Held())
    {
      if count > length {
        return false;
      }
      length := length - count;
      forall i | 0 <= i < length {
        data[i] := data[count + i];
      }
      ok := true;
    }
  }
}

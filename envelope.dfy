/**
 * spc_serialize and spc_deserialize: the Mach message around the serialized
 * dictionary. A message with ports is "complex": a body count and one port
 * descriptor per collected port sit between the header and the content.
 * The methods are proved to compute EncodeMessage and DecodeMessage; the
 * lemmas state the layout, the error paths and the round trip.
 */
module Envelope {
  import opened Wire
  import opened Values
  import opened Results
  import opened Encoding
  import opened Decoding
  import opened Writing
  import opened Reading
  import RoundTrip

  // Sizes of the Mach structures on a 64-bit little-endian host.
  const HEADER_SIZE: nat := 24             // mach_msg_header_t
  const BODY_SIZE: nat := 4                // mach_msg_body_t
  const PORT_DESCRIPTOR_SIZE: nat := 12    // mach_msg_port_descriptor_t
  const OOL_DESCRIPTOR_SIZE: nat := 16     // mach_msg_ool_descriptor_t
  const OOL_PORTS_DESCRIPTOR_SIZE: nat := 16 // mach_msg_ool_ports_descriptor_t

  // mach_msg_descriptor_type_t values, found in the last byte of every descriptor.
  const PORT_DESCRIPTOR: byte := 0
  const OOL_DESCRIPTOR: byte := 1
  const OOL_PORTS_DESCRIPTOR: byte := 2

  /** MACH_MSGH_BITS_COMPLEX. */
  const COMPLEX: bv32 := 0x8000_0000

  /** MSGID_CONNECTION_INTERRUPTED. */
  const CONNECTION_INTERRUPTED: u32 := 71

  /** The 8 bytes "CPX@\x05\0\0\0" in front of the serialized dictionary. */
  const MAGIC: seq<byte> := [0x43, 0x50, 0x58, 0x40, 0x05, 0, 0, 0]

  /** mach_msg_header_t, without the voucher port, which the source never sets. */
  datatype Header = Header(bits: bv32, size: u32, remote: u32, local: u32, id: u32)

  /** spc_mach_message_t: the header and the bytes of buf that follow it. */
  datatype MachMessage = MachMessage(header: Header, body: seq<byte>)

  /** MACH_MSGH_BITS(remote, local). */
  function MsghBits(remote: u32, local: u32): bv32 {
    (remote as bv32) | ((local as bv32) << 8)
  }

  /** MACH_MSGH_BITS_REMOTE. */
  function RemoteBits(bits: bv32): u32 {
    (bits & 0x1f) as u32
  }

  /** MACH_MSGH_BITS_LOCAL. */
  function LocalBits(bits: bv32): u32 {
    ((bits & 0x1f00) >> 8) as u32
  }

  /** A port right name that the 5-bit fields of msgh_bits can carry. */
  predicate FitsMsghBits(disposition: u32) {
    disposition < 0x20
  }

  // ---------------------------------------------------------------------
  // Serializing

  /**
   * A port descriptor as spc_serialize fills it in: the name, padding (left
   * unset by the source, zero here), the disposition truncated to its 8-bit
   * field, and the descriptor type.
   */
  function PortDescriptor(p: Port): (r: seq<byte>)
    ensures |r| == PORT_DESCRIPTOR_SIZE
  {
    U32Bytes(p.name) + Zeros(6) + [p.disposition % 0x100, PORT_DESCRIPTOR]
  }

  /** One descriptor per port, in the order the writer collected them. */
  function Descriptors(ps: seq<Port>): (r: seq<byte>)
    ensures |r| == PORT_DESCRIPTOR_SIZE * |ps|
  {
    if ps == [] then [] else PortDescriptor(ps[0]) + Descriptors(ps[1..])
  }

  /** What the writer holds after spc_serialize's three writes: the magic, the DICT tag, the dictionary. */
  function Content(es: seq<Entry>): seq<byte> {
    MAGIC + EncodeValue(Dict(es))
  }

  /** buf of the message: for a complex one, the descriptor count and the descriptors in front of the content. */
  function Body(ports: seq<Port>, content: seq<byte>): seq<byte> {
    if ports == [] then content else U32Bytes(Trunc32(|ports|)) + Descriptors(ports) + content
  }

  /** The Mach message spc_serialize builds for msg. */
  function EncodeMessage(msg: Message): (m: MachMessage)
    ensures m.header.remote == msg.remote.name && m.header.local == msg.local.name && m.header.id == msg.id
    ensures |m.body| >= |MAGIC| + 4
  {
    var ports := PortsOfEntries(msg.content);
    var body := Body(ports, Content(msg.content));
    var bits := (if ports == [] then 0 else COMPLEX) | MsghBits(msg.remote.disposition, msg.local.disposition);
    MachMessage(Header(bits, Trunc32(HEADER_SIZE + |body|), msg.remote.name, msg.local.name, msg.id), body)
  }

  lemma {:induction false} DescriptorsSnoc(ps: seq<Port>, p: Port)
    ensures Descriptors(ps + [p]) == Descriptors(ps) + PortDescriptor(p)
  {
    if ps == [] {
      assert ps + [p] == [p];
      assert Descriptors([p]) == PortDescriptor(p) + Descriptors([]);
    } else {
      assert (ps + [p])[0] == ps[0] && (ps + [p])[1..] == ps[1..] + [p];
      DescriptorsSnoc(ps[1..], p);
      AppendAssoc(PortDescriptor(ps[0]), Descriptors(ps[1..]), PortDescriptor(p));
    }
  }

  /**
   * The first half of spc_serialize: a writer with the heuristic initial
   * size (32 bytes per item) takes the magic, the DICT tag and the
   * dictionary; the bytes it wrote and the ports it collected come back.
   */
  method WriteContent(es: seq<Entry>) returns (content: seq<byte>, ports: seq<Port>)
    ensures content == Content(es)
    ensures ports == PortsOfEntries(es)
  {
    var writer := new Writer(|es| * 32);
    var _ := writer.Write(MAGIC);
    var _ := writer.WriteU32(DICT_TAG);
    var _ := writer.WriteDict(es);
    content := writer.buf[..writer.ptr];
    ports := writer.ports;
    ghost var dict := Framed(|es|, EncodeEntries(es));
    assert content == [] + MAGIC + U32Bytes(DICT_TAG) + dict;
    assert EncodeValue(Dict(es)) == U32Bytes(DICT_TAG) + dict;
    AppendAssoc(MAGIC, U32Bytes(DICT_TAG), dict);
    assert [] + MAGIC == MAGIC;
  }

  /** The descriptor loop of spc_serialize: the count, then one port descriptor per port. */
  method WriteDescriptors(ports: seq<Port>) returns (body: seq<byte>)
    ensures body == U32Bytes(Trunc32(|ports|)) + Descriptors(ports)
  {
    body := U32Bytes(Trunc32(|ports|));
    var i := 0;
    while i < |ports|
      invariant i <= |ports|
      invariant body == U32Bytes(Trunc32(|ports|)) + Descriptors(ports[..i])
    {
      assert ports[..i + 1] == ports[..i] + [ports[i]];
      DescriptorsSnoc(ports[..i], ports[i]);
      body := body + PortDescriptor(ports[i]);
      i := i + 1;
    }
    assert ports[..i] == ports;
  }

  /**
   * spc_serialize: the content, then the header, the descriptors if any
   * ports were collected, and the content copied behind them.
   */
  method Serialize(msg: Message) returns (m: MachMessage)
    ensures m == EncodeMessage(msg)
  {
    var content, ports := WriteContent(msg.content);
    var bits: bv32;
    var body: seq<byte>;
    if |ports| != 0 {
      bits := COMPLEX;
      var descriptors := WriteDescriptors(ports);
      body := descriptors + content;
    } else {
      bits := 0;
      body := content;
    }
    var size := HEADER_SIZE + |body|;
    bits := bits | MsghBits(msg.remote.disposition, msg.local.disposition);
    m := MachMessage(Header(bits, Trunc32(size), msg.remote.name, msg.local.name, msg.id), body);
  }

  // ---------------------------------------------------------------------
  // Deserializing

  /** The bytes [mach_msg->buf, end) that the reader may consume, end being msgh_size bytes from the header. */
  function Received(m: MachMessage): (r: seq<byte>)
    requires m.header.size <= HEADER_SIZE + |m.body|
    ensures |r| == if m.header.size <= HEADER_SIZE then 0 else m.header.size - HEADER_SIZE
    ensures r == m.body[..|r|]
  {
    if m.header.size <= HEADER_SIZE then [] else m.body[..m.header.size - HEADER_SIZE]
  }

  /**
   * The descriptor loop of spc_deserialize from pos, count descriptors to go,
   * with the ports acc taken so far. The type byte of a descriptor is peeked
   * before any bounds check; a port descriptor adds its port, the two
   * out-of-line kinds are skipped, any other kind ends the process.
   */
  function ParseDescriptors(b: seq<byte>, pos: nat, count: nat, acc: seq<Port>): (r: Result<Read<seq<Port>>, Failure>)
    ensures r.Err? ==> r.error.IsFatal()
    decreases count
  {
    if count == 0 then Ok(Read(acc, pos))
    else if pos + PORT_DESCRIPTOR_SIZE > |b| then Err(PeekPastEnd)
    else
      var kind := b[pos + 11];
      if kind == PORT_DESCRIPTOR then
        var d := b[pos..pos + PORT_DESCRIPTOR_SIZE];
        ParseDescriptors(b, pos + PORT_DESCRIPTOR_SIZE, count - 1, acc + [Port(U32At(d, 0), d[10])])
      else if kind == OOL_DESCRIPTOR then
        var d :- ReadBytes(b, pos, OOL_DESCRIPTOR_SIZE);
        ParseDescriptors(b, d.pos, count - 1, acc)
      else if kind == OOL_PORTS_DESCRIPTOR then
        var d :- ReadBytes(b, pos, OOL_PORTS_DESCRIPTOR_SIZE);
        ParseDescriptors(b, d.pos, count - 1, acc)
      else
        Err(BadDescriptor(kind))
  }

  /** The body of a complex message: its descriptor count, then the descriptors. A simple one has none. */
  function ParseBody(bits: bv32, b: seq<byte>): (r: Result<Read<seq<Port>>, Failure>)
    ensures bits & COMPLEX == 0 ==> r == Ok(Read([], 0))
    ensures r.Ok? && bits & COMPLEX != 0 ==>
              BODY_SIZE + PORT_DESCRIPTOR_SIZE * |r.value.value| <= r.value.pos <= |b|
    ensures r.Err? ==> r.error.IsFatal()
  {
    if bits & COMPLEX == 0 then Ok(Read([], 0))
    else
      var count :- Decoding.ReadU32(b, 0);
      var r := ParseDescriptors(b, count.pos, count.value, []);
      if r.Ok? then
        ParseDescriptorsBounds(b, count.pos, count.value, []);
        r
      else r
  }

  /**
   * What spc_deserialize makes of m: the message, NULL (BadMagic, NotADict),
   * or the point where it ends the process. The local port's name is taken
   * from msgh_remote_port, as the source does.
   */
  function DecodeMessage(m: MachMessage): (r: Result<Message, Failure>)
    requires m.header.size <= HEADER_SIZE + |m.body|
    ensures m.header.id == CONNECTION_INTERRUPTED ==> r == Err(ConnectionInterrupted)
    ensures r.Err? && !r.error.IsFatal() ==>
              m.header.id != CONNECTION_INTERRUPTED && ParseBody(m.header.bits, Received(m)).Ok?
    ensures r.Ok? ==>
              && r.value.remote.name == m.header.remote
              && r.value.local.name == m.header.remote
              && r.value.id == m.header.id
  {
    if m.header.id == CONNECTION_INTERRUPTED then Err(ConnectionInterrupted)
    else
      var b := Received(m);
      var desc :- ParseBody(m.header.bits, b);
      var magic :- ReadBytes(b, desc.pos, 8);
      if magic.value != MAGIC then Err(BadMagic)
      else
        var v :- DecodeValue(b, magic.pos, desc.value, 0);
        if !v.value.Dict? then Err(NotADict)
        else
          Ok(Message(Port(m.header.remote, RemoteBits(m.header.bits)),
                     Port(m.header.remote, LocalBits(m.header.bits)),
                     m.header.id, v.value.entries))
  }

  /**
   * The descriptor loop of spc_deserialize: count descriptors from the
   * reader's position, each port descriptor's port appended to its list.
   */
  method ReadDescriptors(reader: Reader, count: nat) returns (r: Result<seq<Port>, Failure>)
    requires reader.Valid() && reader.nextPort == 0
    modifies reader
    ensures reader.Valid() && reader.nextPort == 0
    ensures r.Ok? ==> r.value == reader.ports
    ensures Got(r, reader.ptr) == ParseDescriptors(reader.data, old(reader.ptr), count, old(reader.ports))
  {
    var i: nat := 0;
    while i < count
      invariant reader.Valid() && reader.nextPort == 0 && i <= count
      invariant ParseDescriptors(reader.data, reader.ptr, count - i, reader.ports)
             == ParseDescriptors(reader.data, old(reader.ptr), count, old(reader.ports))
    {
      if reader.ptr + PORT_DESCRIPTOR_SIZE > |reader.data| {
        return Err(PeekPastEnd);
      }
      var kind := reader.data[reader.ptr + 11];
      if kind == PORT_DESCRIPTOR {
        var read := reader.Read(PORT_DESCRIPTOR_SIZE);
        var d := read.value;
        reader.ports := reader.ports + [Port(U32At(d, 0), d[10])];
      } else if kind == OOL_DESCRIPTOR {
        var _ :- reader.Read(OOL_DESCRIPTOR_SIZE);
      } else if kind == OOL_PORTS_DESCRIPTOR {
        var _ :- reader.Read(OOL_PORTS_DESCRIPTOR_SIZE);
      } else {
        return Err(BadDescriptor(kind));
      }
      i := i + 1;
    }
    r := Ok(reader.ports);
  }

  /**
   * spc_deserialize, given a message at least msgh_size bytes long: a reader
   * over [buf, end), the descriptors filling the reader's port list, the
   * magic, and the top-level value.
   */
  method Deserialize(m: MachMessage) returns (r: Result<Message, Failure>)
    requires m.header.size <= HEADER_SIZE + |m.body|
    ensures r == DecodeMessage(m)
  {
    var reader := new Reader(Received(m));
    if m.header.id == CONNECTION_INTERRUPTED {
      return Err(ConnectionInterrupted);
    }
    if m.header.bits & COMPLEX != 0 {
      var count :- reader.ReadU32();
      var _ :- ReadDescriptors(reader, count);
    }
    assert ParseBody(m.header.bits, reader.data) == Ok(Read(reader.ports, reader.ptr));
    var magic :- reader.Read(8);
    if magic != MAGIC {
      return Err(BadMagic);
    }
    var value :- reader.DeserializeValue();
    if !value.Dict? {
      return Err(NotADict);
    }
    r := Ok(Message(Port(m.header.remote, RemoteBits(m.header.bits)),
                    Port(m.header.remote, LocalBits(m.header.bits)),
                    m.header.id, value.entries));
  }

  // ---------------------------------------------------------------------
  // Layout of the message spc_serialize builds

  /** The offset of the content in buf: after the body count and descriptors of a complex message. */
  function ContentOffset(ports: seq<Port>): nat {
    if ports == [] then 0 else BODY_SIZE + PORT_DESCRIPTOR_SIZE * |ports|
  }

  /** The fields of a port descriptor where the receiver reads them: name, disposition byte, type byte. */
  lemma {:induction false} PortDescriptorFields(b: seq<byte>, pos: nat, p: Port)
    requires At(b, pos, PortDescriptor(p))
    ensures pos + PORT_DESCRIPTOR_SIZE <= |b|
    ensures U32At(b, pos) == p.name
    ensures b[pos + 10] == p.disposition % 0x100 && b[pos + 11] == PORT_DESCRIPTOR
  {
    var tail: seq<byte> := [p.disposition % 0x100, PORT_DESCRIPTOR];
    assert PortDescriptor(p) == U32Bytes(p.name) + Zeros(6) + tail;
    AtSplit3(b, pos, U32Bytes(p.name), Zeros(6), tail);
    AtU32(b, pos, p.name);
    AtAll(b, pos + 10, tail);
    assert b[pos + 10 + 0] == tail[0];
    assert b[pos + 10 + 1] == tail[1];
  }

  /** Descriptor i of the list sits 12 * i bytes after the first. */
  lemma {:induction false} DescriptorAt(b: seq<byte>, pos: nat, ps: seq<Port>)
    requires At(b, pos, Descriptors(ps))
    ensures forall i | 0 <= i < |ps| :: At(b, pos + PORT_DESCRIPTOR_SIZE * i, PortDescriptor(ps[i]))
    decreases |ps|
  {
    if ps != [] {
      AtConcat(b, pos, PortDescriptor(ps[0]), Descriptors(ps[1..]));
      DescriptorAt(b, pos + PORT_DESCRIPTOR_SIZE, ps[1..]);
      forall i | 0 <= i < |ps|
        ensures At(b, pos + PORT_DESCRIPTOR_SIZE * i, PortDescriptor(ps[i]))
      {
        if i > 0 {
          assert ps[1..][i - 1] == ps[i];
          assert pos + PORT_DESCRIPTOR_SIZE + PORT_DESCRIPTOR_SIZE * (i - 1) == pos + PORT_DESCRIPTOR_SIZE * i;
        }
      }
    }
  }

  /** The content sits at ContentOffset of buf and runs to its end. */
  lemma {:induction false} BodyContent(ports: seq<Port>, content: seq<byte>)
    ensures |Body(ports, content)| == ContentOffset(ports) + |content|
    ensures At(Body(ports, content), ContentOffset(ports), content)
  {
    var b := Body(ports, content);
    AtWhole(b);
    if ports != [] {
      AtSplit3(b, 0, U32Bytes(Trunc32(|ports|)), Descriptors(ports), content);
    }
  }

  /** A complex message's buf starts with the descriptor count, then descriptor i for port i. */
  lemma {:induction false} BodyDescriptors(ports: seq<Port>, content: seq<byte>)
    requires ports != []
    ensures At(Body(ports, content), 0, U32Bytes(Trunc32(|ports|)))
    ensures At(Body(ports, content), BODY_SIZE, Descriptors(ports))
    ensures forall i | 0 <= i < |ports| ::
              At(Body(ports, content), BODY_SIZE + PORT_DESCRIPTOR_SIZE * i, PortDescriptor(ports[i]))
  {
    var b := Body(ports, content);
    AtWhole(b);
    AtSplit3(b, 0, U32Bytes(Trunc32(|ports|)), Descriptors(ports), content);
    DescriptorAt(b, BODY_SIZE, ports);
  }

  /** The content: the magic, then the dictionary, whose encoding starts with the DICT tag. */
  lemma {:induction false} ContentFields(b: seq<byte>, off: nat, es: seq<Entry>)
    requires At(b, off, Content(es))
    ensures At(b, off, MAGIC)
    ensures At(b, off + 8, EncodeValue(Dict(es)))
    ensures At(b, off + 8, U32Bytes(DICT_TAG))
  {
    AtConcat(b, off, MAGIC, EncodeValue(Dict(es)));
    AtConcat(b, off + 8, U32Bytes(DICT_TAG), Payload(Dict(es)));
  }

  /**
   * The size of the message spc_serialize builds: the content runs from
   * ContentOffset to the end of buf, and msgh_size counts header, body count,
   * descriptors and content, truncated to its 32 bits.
   */
  lemma {:induction false} EncodeMessageSize(msg: Message)
    ensures var m := EncodeMessage(msg);
            var off := ContentOffset(PortsOfEntries(msg.content));
            && |m.body| == off + 8 + |EncodeValue(Dict(msg.content))|
            && m.header.size == Trunc32(HEADER_SIZE + off + 8 + |EncodeValue(Dict(msg.content))|)
  {
    var ports := PortsOfEntries(msg.content);
    assert EncodeMessage(msg).body == Body(ports, Content(msg.content));
    BodyContent(ports, Content(msg.content));
  }

  /** The content of the message spc_serialize builds: the magic, then the DICT tag and the dictionary. */
  lemma {:induction false} EncodeMessageContent(msg: Message)
    ensures var b := EncodeMessage(msg).body;
            var off := ContentOffset(PortsOfEntries(msg.content));
            && At(b, off, MAGIC)
            && At(b, off + 8, U32Bytes(DICT_TAG))
            && At(b, off + 8, EncodeValue(Dict(msg.content)))
  {
    var ports := PortsOfEntries(msg.content);
    var b := EncodeMessage(msg).body;
    assert b == Body(ports, Content(msg.content));
    BodyContent(ports, Content(msg.content));
    ContentFields(b, ContentOffset(ports), msg.content);
  }

  /**
   * The descriptors of the message spc_serialize builds: with ports, buf
   * starts with their number (modulo 2^32) and descriptor i carries port i.
   */
  lemma {:induction false} EncodeMessageDescriptors(msg: Message)
    requires PortsOfEntries(msg.content) != []
    ensures var b := EncodeMessage(msg).body;
            var ports := PortsOfEntries(msg.content);
            && At(b, 0, U32Bytes(Trunc32(|ports|)))
            && forall i | 0 <= i < |ports| ::
                 At(b, BODY_SIZE + PORT_DESCRIPTOR_SIZE * i, PortDescriptor(ports[i]))
  {
    var ports := PortsOfEntries(msg.content);
    assert EncodeMessage(msg).body == Body(ports, Content(msg.content));
    BodyDescriptors(ports, Content(msg.content));
  }

  /**
   * The bits spc_serialize sets: the complex bit exactly when there are ports
   * to describe, and the two dispositions where MACH_MSGH_BITS_REMOTE and
   * MACH_MSGH_BITS_LOCAL find them, for dispositions that fit their 5-bit fields.
   */
  lemma {:induction false} EncodeMessageBits(msg: Message)
    requires FitsMsghBits(msg.remote.disposition) && FitsMsghBits(msg.local.disposition)
    ensures var bits := EncodeMessage(msg).header.bits;
            && (bits & COMPLEX != 0 <==> PortsOfEntries(msg.content) != [])
            && RemoteBits(bits) == msg.remote.disposition
            && LocalBits(bits) == msg.local.disposition
  {
    var c: bv32 := if PortsOfEntries(msg.content) == [] then 0 else COMPLEX;
    MsghBitsFields(c, msg.remote.disposition, msg.local.disposition);
  }

  /** Setting MACH_MSGH_BITS(remote, local) beside the complex bit c keeps all three readable. */
  lemma {:induction false} MsghBitsFields(c: bv32, remote: u32, local: u32)
    requires c == 0 || c == COMPLEX
    requires FitsMsghBits(remote) && FitsMsghBits(local)
    ensures (c | MsghBits(remote, local)) & COMPLEX == c
    ensures RemoteBits(c | MsghBits(remote, local)) == remote
    ensures LocalBits(c | MsghBits(remote, local)) == local
  {
    ComplexField(c, remote, local);
    RemoteField(c, remote, local);
    LocalField(c, remote, local);
  }

  lemma {:induction false} ComplexField(c: bv32, remote: u32, local: u32)
    requires c == 0 || c == COMPLEX
    requires FitsMsghBits(remote) && FitsMsghBits(local)
    ensures (c | MsghBits(remote, local)) & COMPLEX == c
  {
    SmallBits(remote);
    SmallBits(local);
    BitFields(c, remote as bv32, local as bv32);
  }

  lemma {:induction false} RemoteField(c: bv32, remote: u32, local: u32)
    requires c == 0 || c == COMPLEX
    requires FitsMsghBits(remote) && FitsMsghBits(local)
    ensures RemoteBits(c | MsghBits(remote, local)) == remote
  {
    SmallBits(remote);
    SmallBits(local);
    BitFields(c, remote as bv32, local as bv32);
  }

  lemma {:induction false} LocalField(c: bv32, remote: u32, local: u32)
    requires c == 0 || c == COMPLEX
    requires FitsMsghBits(remote) && FitsMsghBits(local)
    ensures LocalBits(c | MsghBits(remote, local)) == local
  {
    SmallBits(remote);
    SmallBits(local);
    BitFields(c, remote as bv32, local as bv32);
  }

  /** A number that fits 5 bits keeps its value through bv32. */
  lemma {:induction false} SmallBits(x: u32)
    requires x < 0x20
    ensures x as bv32 < 0x20 && (x as bv32) as int == x
  {
    assert (x as bv5) as int == x;
    assert (x as bv32) == (x as bv5) as bv32;
  }

  /** The bitwise core of MsghBitsFields: three fields that do not overlap. */
  lemma {:induction false} BitFields(c: bv32, r: bv32, l: bv32)
    requires c == 0 || c == COMPLEX
    requires r < 0x20 && l < 0x20
    ensures (c | (r | (l << 8))) & COMPLEX == c
    ensures (c | (r | (l << 8))) & 0x1f == r
    ensures ((c | (r | (l << 8))) & 0x1f00) >> 8 == l
  {
  }

  // ---------------------------------------------------------------------
  // What spc_deserialize does with it

  /** Descriptors written for ports with 8-bit dispositions are parsed back into those ports, in order. */
  lemma {:induction false} ParseDescriptorsAt(b: seq<byte>, pos: nat, ps: seq<Port>, acc: seq<Port>)
    requires At(b, pos, Descriptors(ps))
    requires forall i | 0 <= i < |ps| :: ps[i].disposition < 0x100
    ensures ParseDescriptors(b, pos, |ps|, acc) == Ok(Read(acc + ps, pos + PORT_DESCRIPTOR_SIZE * |ps|))
    decreases |ps|
  {
    if ps == [] {
      assert acc + ps == acc;
    } else {
      AtConcat(b, pos, PortDescriptor(ps[0]), Descriptors(ps[1..]));
      PortDescriptorFields(b, pos, ps[0]);
      var d := b[pos..pos + PORT_DESCRIPTOR_SIZE];
      AtIsSlice(b, pos, PortDescriptor(ps[0]));
      AtWhole(d);
      PortDescriptorFields(d, 0, ps[0]);
      assert Port(U32At(d, 0), d[10]) == ps[0];
      ParseDescriptorsAt(b, pos + PORT_DESCRIPTOR_SIZE, ps[1..], acc + [ps[0]]);
      assert acc + [ps[0]] + ps[1..] == acc + ps;
    }
  }

  /**
   * Each descriptor adds at most one port and consumes 12 or 16 bytes, all
   * within the message; the ports taken before are kept in front.
   */
  lemma {:induction false} ParseDescriptorsBounds(b: seq<byte>, pos: nat, count: nat, acc: seq<Port>)
    requires ParseDescriptors(b, pos, count, acc).Ok?
    ensures var r := ParseDescriptors(b, pos, count, acc).value;
            && |acc| <= |r.value| <= |acc| + count && r.value[..|acc|] == acc
            && pos + PORT_DESCRIPTOR_SIZE * count <= r.pos <= |b| + (if count == 0 then pos else 0)
    decreases count
  {
    if count > 0 {
      var kind := b[pos + 11];
      if kind == PORT_DESCRIPTOR {
        var d := b[pos..pos + PORT_DESCRIPTOR_SIZE];
        var acc' := acc + [Port(U32At(d, 0), d[10])];
        ParseDescriptorsBounds(b, pos + PORT_DESCRIPTOR_SIZE, count - 1, acc');
        var r := ParseDescriptors(b, pos, count, acc).value;
        assert r.value[..|acc|] == r.value[..|acc'|][..|acc|];
      } else {
        ParseDescriptorsBounds(b, pos + OOL_DESCRIPTOR_SIZE, count - 1, acc);
      }
    }
  }

  /** A descriptor of any other type ends the process, whatever follows it. */
  lemma {:induction false} BadDescriptorIsFatal(b: seq<byte>, pos: nat, count: nat, acc: seq<Port>)
    requires count > 0 && pos + PORT_DESCRIPTOR_SIZE <= |b|
    requires b[pos + 11] !in {PORT_DESCRIPTOR, OOL_DESCRIPTOR, OOL_PORTS_DESCRIPTOR}
    ensures ParseDescriptors(b, pos, count, acc) == Err(BadDescriptor(b[pos + 11]))
    ensures ParseDescriptors(b, pos, count, acc).error.IsFatal()
  {
  }

  /** Out-of-line memory and out-of-line port descriptors are stepped over and add no port. */
  lemma {:induction false} OutOfLineSkipped(b: seq<byte>, pos: nat, count: nat, acc: seq<Port>)
    requires count > 0 && pos + OOL_DESCRIPTOR_SIZE <= |b|
    requires b[pos + 11] == OOL_DESCRIPTOR || b[pos + 11] == OOL_PORTS_DESCRIPTOR
    ensures ParseDescriptors(b, pos, count, acc) == ParseDescriptors(b, pos + OOL_DESCRIPTOR_SIZE, count - 1, acc)
  {
  }

  /**
   * Bytes other than the magic after the accepted descriptors, or at the
   * start of a simple message: NULL, "Invalid XPC message header".
   */
  lemma {:induction false} BadMagicReturnsNull(m: MachMessage, ports: seq<Port>, off: nat, x: seq<byte>)
    requires m.header.size <= HEADER_SIZE + |m.body|
    requires m.header.id != CONNECTION_INTERRUPTED
    requires ParseBody(m.header.bits, Received(m)) == Ok(Read(ports, off))
    requires ReadBytes(Received(m), off, 8) == Ok(Read(x, off + 8)) && x != MAGIC
    ensures DecodeMessage(m) == Err(BadMagic) && !DecodeMessage(m).error.IsFatal()
  {
  }

  /**
   * A top-level value other than a dictionary after the accepted descriptors
   * and the magic: NULL, "Invalid XPC message type".
   */
  lemma {:induction false} NotADictReturnsNull(m: MachMessage, ports: seq<Port>, off: nat, d: Decoded<Value>)
    requires m.header.size <= HEADER_SIZE + |m.body|
    requires m.header.id != CONNECTION_INTERRUPTED
    requires ParseBody(m.header.bits, Received(m)) == Ok(Read(ports, off))
    requires ReadBytes(Received(m), off, 8) == Ok(Read(MAGIC, off + 8))
    requires off + 8 <= |Received(m)| && DecodeValue(Received(m), off + 8, ports, 0) == Ok(d) && !d.value.Dict?
    ensures DecodeMessage(m) == Err(NotADict) && !DecodeMessage(m).error.IsFatal()
  {
  }

  // ---------------------------------------------------------------------
  // The round trip

  /** The count and descriptors of Body are parsed back into the ports, in order, up to the content. */
  lemma {:induction false} ParseBodyOf(bits: bv32, ports: seq<Port>, content: seq<byte>)
    requires bits & COMPLEX != 0 <==> ports != []
    requires |ports| < 0x1_0000_0000
    requires forall p | p in ports :: p.disposition < 0x100
    ensures ParseBody(bits, Body(ports, content)) == Ok(Read(ports, ContentOffset(ports)))
  {
    if ports != [] {
      var b := Body(ports, content);
      BodyDescriptors(ports, content);
      RoundTrip.ReadU32At(b, 0, |ports|);
      forall i | 0 <= i < |ports| ensures ports[i].disposition < 0x100 {
        assert ports[i] in ports;
      }
      ParseDescriptorsAt(b, BODY_SIZE, ports, []);
      assert [] + ports == ports;
    }
  }

  /** DecodeMessage, once the descriptors, the magic and a top-level dictionary have been read. */
  lemma {:induction false} DecodeMessageOf(m: MachMessage, ports: seq<Port>, off: nat, d: Decoded<Value>)
    requires m.header.size <= HEADER_SIZE + |m.body|
    requires m.header.id != CONNECTION_INTERRUPTED
    requires ParseBody(m.header.bits, Received(m)) == Ok(Read(ports, off))
    requires ReadBytes(Received(m), off, 8) == Ok(Read(MAGIC, off + 8))
    requires off + 8 <= |Received(m)| && DecodeValue(Received(m), off + 8, ports, 0) == Ok(d)
    requires d.value.Dict?
    ensures DecodeMessage(m) == Ok(Message(Port(m.header.remote, RemoteBits(m.header.bits)),
                                           Port(m.header.remote, LocalBits(m.header.bits)),
                                           m.header.id, d.value.entries))
  {
  }

  /** A message whose size fits msgh_size is read up to its last byte. */
  lemma {:induction false} ReceivedIsBody(msg: Message)
    requires HEADER_SIZE + |EncodeMessage(msg).body| < 0x1_0000_0000
    ensures EncodeMessage(msg).header.size == HEADER_SIZE + |EncodeMessage(msg).body|
    ensures Received(EncodeMessage(msg)) == EncodeMessage(msg).body
  {
  }

  /** The content reads back: the magic, then a dictionary decoded, against the ports it collected, as RoundTrip expects. */
  lemma {:induction false} ContentReads(b: seq<byte>, off: nat, es: seq<Entry>)
    requires RoundTrip.Representable(Dict(es))
    requires At(b, off, Content(es))
    ensures ReadBytes(b, off, 8) == Ok(Read(MAGIC, off + 8))
    ensures off + 8 <= |b|
    ensures DecodeValue(b, off + 8, PortsOfEntries(es), 0) == Ok(RoundTrip.Expected(Dict(es), off + 8, 0))
  {
    var ports := PortsOfEntries(es);
    ContentFields(b, off, es);
    AtIsSlice(b, off, MAGIC);
    AtWhole(ports);
    assert PortsOf(Dict(es)) == ports;
    RoundTrip.DecodeEncode(Dict(es), b, off + 8, ports, 0);
  }

  /**
   * A message whose buf holds the descriptors of ports and then the content
   * for es, complex exactly when there are ports, is decoded into es as the
   * decoder gives it back, whatever the rest of its header holds.
   */
  lemma {:induction false} DecodeBuilt(h: Header, es: seq<Entry>)
    requires h.id != CONNECTION_INTERRUPTED
    requires RoundTrip.Representable(Dict(es))
    requires h.bits & COMPLEX != 0 <==> PortsOfEntries(es) != []
    requires forall p | p in PortsOfEntries(es) :: p.disposition < 0x100
    requires h.size == HEADER_SIZE + |Body(PortsOfEntries(es), Content(es))|
    ensures DecodeMessage(MachMessage(h, Body(PortsOfEntries(es), Content(es))))
         == Ok(Message(Port(h.remote, RemoteBits(h.bits)), Port(h.remote, LocalBits(h.bits)), h.id,
                       Reversed(RoundTrip.AsDecodedEntries(es))))
  {
    var ports := PortsOfEntries(es);
    var content := Content(es);
    var m := MachMessage(h, Body(ports, content));
    var b := m.body;
    var off := ContentOffset(ports);
    assert Received(m) == b;
    BodyContent(ports, content);
    ParseBodyOf(h.bits, ports, content);
    ContentReads(b, off, es);
    var d := RoundTrip.Expected(Dict(es), off + 8, 0);
    assert d.value == Dict(Reversed(RoundTrip.AsDecodedEntries(es)));
    DecodeMessageOf(m, ports, off, d);
  }

  /**
   * What spc_deserialize makes of the message spc_serialize built: the same
   * remote port and id, a local port that carries its own disposition but the
   * remote port's name, and the dictionary's entries as the decoder gives
   * them back (in reverse list order, handles reattached in order).
   */
  lemma {:induction false} DeserializeSerialize(msg: Message)
    requires msg.id != CONNECTION_INTERRUPTED
    requires RoundTrip.Representable(Dict(msg.content))
    requires FitsMsghBits(msg.remote.disposition) && FitsMsghBits(msg.local.disposition)
    requires forall p | p in PortsOfEntries(msg.content) :: p.disposition < 0x100
    requires HEADER_SIZE + |EncodeMessage(msg).body| < 0x1_0000_0000
    ensures EncodeMessage(msg).header.size == HEADER_SIZE + |EncodeMessage(msg).body|
    ensures DecodeMessage(EncodeMessage(msg))
         == Ok(Message(msg.remote, Port(msg.remote.name, msg.local.disposition), msg.id,
                       Reversed(RoundTrip.AsDecodedEntries(msg.content))))
  {
    var m := EncodeMessage(msg);
    ReceivedIsBody(msg);
    EncodeMessageBits(msg);
    assert m == MachMessage(m.header, Body(PortsOfEntries(msg.content), Content(msg.content)));
    DecodeBuilt(m.header, msg.content);
  }
}

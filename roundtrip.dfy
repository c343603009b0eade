/**
 * Decoding what the encoder wrote. The decoder gives back the value with
 * two inherited distortions: a Bool keeps only the 32 bits that were written,
 * and every dictionary comes back in reverse list order, because
 * spc_deserialize_dict prepends each entry it reads. Handles are matched
 * with the port list by position.
 */
module RoundTrip {
  import opened Wire
  import opened Values
  import opened Results
  import opened Encoding
  import opened Decoding

  /** The value spc_deserialize_value rebuilds from the encoding of v. */
  function AsDecoded(v: Value): Value
    decreases v, 0
  {
    if v.Bool? then Bool(Trunc32(v.flag))
    else if v.Array? then Array(AsDecodedElems(v.elems))
    else if v.Dict? then Dict(Reversed(AsDecodedEntries(v.entries)))
    else v
  }

  function AsDecodedElems(vs: seq<Value>): (r: seq<Value>)
    ensures |r| == |vs|
    decreases vs, 1
  {
    if vs == [] then [] else [AsDecoded(vs[0])] + AsDecodedElems(vs[1..])
  }

  function AsDecodedEntries(es: seq<Entry>): (r: seq<Entry>)
    ensures |r| == |es|
    decreases es, 1
  {
    if es == [] then [] else [Entry(es[0].key, AsDecoded(es[0].value))] + AsDecodedEntries(es[1..])
  }

  /**
   * A value the decoder can read back: no FD handle (the decoder has no case
   * for its tag), no unknown tag, and every length and count fits the 32-bit
   * field that carries it.
   */
  predicate Representable(v: Value)
    decreases v, 0
  {
    if v.Fd? || v.Unsupported? then false
    else if v.Str? then |v.s| + 1 < 0x1_0000_0000
    else if v.Data? then |v.bytes| < 0x1_0000_0000
    else if v.Array? then |v.elems| < 0x1_0000_0000 && RepresentableElems(v.elems)
    else if v.Dict? then |v.entries| < 0x1_0000_0000 && RepresentableEntries(v.entries)
    else true
  }

  predicate RepresentableElems(vs: seq<Value>)
    decreases vs, 1
  {
    vs != [] ==> Representable(vs[0]) && RepresentableElems(vs[1..])
  }

  predicate RepresentableEntries(es: seq<Entry>)
    decreases es, 1
  {
    es != [] ==> Representable(es[0].value) && RepresentableEntries(es[1..])
  }

  // ---------------------------------------------------------------------
  // Reading back the fields the writer produced

  lemma {:induction false} ReadU32At(b: seq<byte>, pos: nat, x: u32)
    requires At(b, pos, U32Bytes(x))
    ensures ReadU32(b, pos) == Ok(Read(x, pos + 4))
  {
    AtU32(b, pos, x);
  }

  lemma {:induction false} ReadU64At(b: seq<byte>, pos: nat, x: u64)
    requires At(b, pos, U64Bytes(x))
    ensures ReadU64(b, pos) == Ok(Read(x, pos + 8))
  {
    AtU64(b, pos, x);
  }

  /** spc_read_str finds the terminator spc_write_str wrote and skips its padding. */
  lemma {:induction false} ReadStrAt(b: seq<byte>, pos: nat, s: CString)
    requires At(b, pos, StrBytes(s))
    ensures pos <= |b|
    ensures ReadStr(b, pos) == Ok(Read(s, pos + |StrBytes(s)|))
  {
    var z := pos + |s|;
    var sb := StrBytes(s);
    AtAll(b, pos, sb);
    forall i | 0 <= i <= |s|
      ensures b[pos + i] == (s + [0])[i]
    {
      assert sb[i] == sb[..|s| + 1][i];
    }
    assert b[pos + |s|] == (s + [0])[|s|];
    forall i | pos <= i < z ensures b[i] != 0 {
      assert b[pos + (i - pos)] == (s + [0])[i - pos];
    }
    FindZeroAt(b, pos, z);
    assert At(b, pos, s) by {
      AtAll(b, pos, s);
      forall i | 0 <= i < |s| ensures b[pos + i] == s[i] {
        assert b[pos + i] == (s + [0])[i];
      }
    }
    AtIsSlice(b, pos, s);
  }

  /** A zero at z with none before it from pos on is what FindZero finds. */
  lemma {:induction false} FindZeroAt(b: seq<byte>, pos: nat, z: nat)
    requires pos <= z < |b| && b[z] == 0
    requires forall i | pos <= i < z :: b[i] != 0
    ensures FindZero(b, pos) == Some(z)
    decreases z - pos
  {
    if pos < z {
      FindZeroAt(b, pos + 1, z);
    }
  }

  /** The size and count fields in front of an array's or a dictionary's items. */
  lemma {:induction false} ReadFramedAt(b: seq<byte>, pos: nat, count: nat, items: seq<byte>)
    requires count < 0x1_0000_0000
    requires At(b, pos, Framed(count, items))
    ensures ReadU32(b, pos).Ok? && ReadU32(b, pos).value.pos == pos + 4
    ensures ReadU32(b, pos + 4) == Ok(Read(count, pos + 8))
    ensures At(b, pos + 8, items)
  {
    var body := U32Bytes(Trunc32(count)) + items;
    AtConcat(b, pos, U32Bytes(Trunc32(|body|)), body);
    AtConcat(b, pos + 4, U32Bytes(Trunc32(count)), items);
    ReadU32At(b, pos, Trunc32(|body|));
    ReadU32At(b, pos + 4, count);
  }

  // ---------------------------------------------------------------------
  // The round trip

  /** What the decoder gives back for the encoding of v at pos, with the ports of v from index next on. */
  function Expected(v: Value, pos: nat, next: nat): Decoded<Value> {
    Decoded(AsDecoded(v), pos + |EncodeValue(v)|, next + |PortsOf(v)|)
  }

  /** What the array loop gives back for the elements vs, appended to the elements acc. */
  function ExpectedElems(vs: seq<Value>, acc: seq<Value>, pos: nat, next: nat): Decoded<seq<Value>> {
    Decoded(acc + AsDecodedElems(vs), pos + |EncodeElems(vs)|, next + |PortsOfElems(vs)|)
  }

  /** What the dictionary loop gives back for the entries es: reversed, in front of the entries acc. */
  function ExpectedEntries(es: seq<Entry>, acc: seq<Entry>, pos: nat, next: nat): Decoded<seq<Entry>> {
    Decoded(Reversed(AsDecodedEntries(es)) + acc, pos + |EncodeEntries(es)|, next + |PortsOfEntries(es)|)
  }

  /**
   * Decoding the bytes spc_serialize_value wrote for a representable value,
   * with its handles waiting in the port list at the reader's next index,
   * rebuilds AsDecoded(v), consumes exactly those bytes and exactly those ports.
   */
  lemma {:induction false} DecodeEncode(v: Value, b: seq<byte>, pos: nat, ports: seq<Port>, next: nat)
    requires Representable(v)
    requires At(b, pos, EncodeValue(v)) && At(ports, next, PortsOf(v))
    ensures ValueFrom(b, pos, ports, next) == Ok(Expected(v, pos, next))
    decreases v, 1
  {
    if v.Array? {
      DecodeEncodeArray(v, b, pos, ports, next);
    } else if v.Dict? {
      DecodeEncodeDict(v, b, pos, ports, next);
    } else if v.Str? {
      DecodeStr(v, b, pos, ports, next);
    } else if v.Data? {
      DecodeData(v, b, pos, ports, next);
    } else if v.SendPort? || v.RecvPort? {
      DecodeHandle(v, b, pos, ports, next);
    } else if v.UInt64? || v.Int64? || v.Double? {
      DecodeWide(v, b, pos, ports, next);
    } else {
      DecodeLeaf(v, b, pos, ports, next);
    }
  }

  /** DecodeValue reads the tag and hands the rest to the switch. */
  lemma {:induction false} ValueTag(t: u32, b: seq<byte>, pos: nat, ports: seq<Port>, next: nat)
    requires pos + 4 <= |b| && next <= |ports|
    requires ReadU32(b, pos) == Ok(Read(t, pos + 4))
    ensures DecodeValue(b, pos, ports, next) == DecodeBody(t, b, pos + 4, ports, next)
  {
  }

  /** Null, a Bool or a UUID: the tag, then a payload of fixed size, and no ports. */
  lemma {:induction false} DecodeLeaf(v: Value, b: seq<byte>, pos: nat, ports: seq<Port>, next: nat)
    requires v.Null? || v.Bool? || v.Uuid?
    requires At(b, pos, EncodeValue(v)) && next <= |ports|
    ensures ValueFrom(b, pos, ports, next) == Ok(Expected(v, pos, next))
  {
    AtConcat(b, pos, U32Bytes(TagOf(v)), Payload(v));
    ReadU32At(b, pos, TagOf(v));
    ValueTag(TagOf(v), b, pos, ports, next);
    match v {
      case Null =>
      case Bool(x) => ReadU32At(b, pos + 4, Trunc32(x));
      case Uuid(u) => AtIsSlice(b, pos + 4, u);
    }
  }

  /** A uint64, an int64 or a double: the tag, then the 8 bytes of the number, and no ports. */
  lemma {:induction false} DecodeWide(v: Value, b: seq<byte>, pos: nat, ports: seq<Port>, next: nat)
    requires v.UInt64? || v.Int64? || v.Double?
    requires At(b, pos, EncodeValue(v)) && next <= |ports|
    ensures ValueFrom(b, pos, ports, next) == Ok(Expected(v, pos, next))
  {
    AtConcat(b, pos, U32Bytes(TagOf(v)), Payload(v));
    ReadU32At(b, pos, TagOf(v));
    ValueTag(TagOf(v), b, pos, ports, next);
    var x := if v.UInt64? then v.u else if v.Int64? then I64Bits(v.i) else v.bits;
    assert Payload(v) == U64Bytes(x);
    ReadU64At(b, pos + 4, x);
    WideBody(v, x, b, pos + 4, ports, next);
  }

  /** The switch of spc_deserialize_value on a 64-bit kind, with the 8 bytes x in place. */
  lemma {:induction false} WideBody(v: Value, x: u64, b: seq<byte>, p: nat, ports: seq<Port>, next: nat)
    requires v.UInt64? || v.Int64? || v.Double?
    requires x == if v.UInt64? then v.u else if v.Int64? then I64Bits(v.i) else v.bits
    requires p <= |b| && next <= |ports|
    requires ReadU64(b, p) == Ok(Read(x, p + 8))
    ensures DecodeBody(TagOf(v), b, p, ports, next) == Ok(Decoded(AsDecoded(v), p + 8, next))
  {
    if v.Int64? {
      I64RoundTrip(v.i);
    }
  }

  /** A send or receive right: the bare tag, and the next port of the list. */
  lemma {:induction false} DecodeHandle(v: Value, b: seq<byte>, pos: nat, ports: seq<Port>, next: nat)
    requires v.SendPort? || v.RecvPort?
    requires At(b, pos, EncodeValue(v)) && At(ports, next, PortsOf(v))
    ensures ValueFrom(b, pos, ports, next) == Ok(Expected(v, pos, next))
  {
    AtConcat(b, pos, U32Bytes(TagOf(v)), Payload(v));
    ReadU32At(b, pos, TagOf(v));
    ValueTag(TagOf(v), b, pos, ports, next);
    AtAll(ports, next, PortsOf(v));
    assert ports[next + 0] == PortsOf(v)[0];
  }

  lemma {:induction false} DecodeStr(v: Value, b: seq<byte>, pos: nat, ports: seq<Port>, next: nat)
    requires v.Str? && Representable(v)
    requires At(b, pos, EncodeValue(v)) && next <= |ports|
    ensures ValueFrom(b, pos, ports, next) == Ok(Expected(v, pos, next))
  {
    var s, p := v.s, pos + 4;
    AtConcat(b, pos, U32Bytes(STRING_TAG), Payload(v));
    ReadU32At(b, pos, STRING_TAG);
    ValueTag(STRING_TAG, b, pos, ports, next);
    AtConcat(b, p, U32Bytes(Trunc32(|s| + 1)), StrBytes(s));
    ReadU32At(b, p, Trunc32(|s| + 1));
    ReadStrAt(b, p + 4, s);
  }

  lemma {:induction false} DecodeData(v: Value, b: seq<byte>, pos: nat, ports: seq<Port>, next: nat)
    requires v.Data? && Representable(v)
    requires At(b, pos, EncodeValue(v)) && next <= |ports|
    ensures ValueFrom(b, pos, ports, next) == Ok(Expected(v, pos, next))
  {
    var d, p := v.bytes, pos + 4;
    AtConcat(b, pos, U32Bytes(DATA_TAG), Payload(v));
    ReadU32At(b, pos, DATA_TAG);
    ValueTag(DATA_TAG, b, pos, ports, next);
    AtConcat(b, p, U32Bytes(Trunc32(|d|)), Padded(d));
    ReadU32At(b, p, |d|);
    AtIsSlice(b, p + 4, Padded(d));
    AtWhole(Padded(d));
    AtConcat(Padded(d), 0, d, Zeros(PadLen(|d|)));
    AtIsSlice(Padded(d), 0, d);
  }

  /** Where the items of an encoded array or dictionary start: after tag, size and count. */
  lemma {:induction false} FramedItemsAt(v: Value, b: seq<byte>, pos: nat)
    requires v.Array? || v.Dict?
    requires Representable(v)
    requires At(b, pos, EncodeValue(v))
    ensures At(b, pos + 12, if v.Array? then EncodeElems(v.elems) else EncodeEntries(v.entries))
    ensures |EncodeValue(v)| == 12 + |if v.Array? then EncodeElems(v.elems) else EncodeEntries(v.entries)|
    ensures ReadU32(b, pos) == Ok(Read(TagOf(v), pos + 4))
    ensures ReadU32(b, pos + 4).Ok? && ReadU32(b, pos + 4).value.pos == pos + 8
    ensures ReadU32(b, pos + 8) == Ok(Read(if v.Array? then |v.elems| else |v.entries|, pos + 12))
  {
    var items := if v.Array? then EncodeElems(v.elems) else EncodeEntries(v.entries);
    var count := if v.Array? then |v.elems| else |v.entries|;
    AtConcat(b, pos, U32Bytes(TagOf(v)), Payload(v));
    ReadU32At(b, pos, TagOf(v));
    ReadFramedAt(b, pos + 4, count, items);
  }

  /** spc_deserialize_array, once its size and count fields have been read. */
  lemma {:induction false} ArrayFields(b: seq<byte>, p: nat, ports: seq<Port>, next: nat, count: nat, r: Decoded<seq<Value>>)
    requires p + 8 <= |b| && next <= |ports|
    requires ReadU32(b, p).Ok? && ReadU32(b, p).value.pos == p + 4
    requires ReadU32(b, p + 4) == Ok(Read(count, p + 8))
    requires ElemsFrom(b, p + 8, count, ports, next, []) == Ok(r)
    ensures DecodeBody(ARRAY_TAG, b, p, ports, next) == Ok(Decoded(Array(r.value), r.pos, r.next))
  {
  }

  /** spc_deserialize_dict, once its size and count fields have been read. */
  lemma {:induction false} DictFields(b: seq<byte>, p: nat, ports: seq<Port>, next: nat, count: nat, r: Decoded<seq<Entry>>)
    requires p + 8 <= |b| && next <= |ports|
    requires ReadU32(b, p).Ok? && ReadU32(b, p).value.pos == p + 4
    requires ReadU32(b, p + 4) == Ok(Read(count, p + 8))
    requires EntriesFrom(b, p + 8, count, ports, next, []) == Ok(r)
    ensures DecodeBody(DICT_TAG, b, p, ports, next) == Ok(Decoded(Dict(r.value), r.pos, r.next))
  {
  }

  lemma {:induction false} DecodeEncodeArray(v: Value, b: seq<byte>, pos: nat, ports: seq<Port>, next: nat)
    requires v.Array? && Representable(v)
    requires At(b, pos, EncodeValue(v)) && At(ports, next, PortsOf(v))
    ensures ValueFrom(b, pos, ports, next) == Ok(Expected(v, pos, next))
    decreases v, 0
  {
    FramedItemsAt(v, b, pos);
    ValueTag(ARRAY_TAG, b, pos, ports, next);
    DecodeEncodeElems(v.elems, b, pos + 12, ports, next, []);
    ArrayExpected(v, pos, next);
    ArrayFields(b, pos + 4, ports, next, |v.elems|, ExpectedElems(v.elems, [], pos + 12, next));
  }

  lemma {:induction false} DecodeEncodeDict(v: Value, b: seq<byte>, pos: nat, ports: seq<Port>, next: nat)
    requires v.Dict? && Representable(v)
    requires At(b, pos, EncodeValue(v)) && At(ports, next, PortsOf(v))
    ensures ValueFrom(b, pos, ports, next) == Ok(Expected(v, pos, next))
    decreases v, 0
  {
    FramedItemsAt(v, b, pos);
    ValueTag(DICT_TAG, b, pos, ports, next);
    DecodeEncodeEntries(v.entries, b, pos + 12, ports, next, []);
    DictExpected(v, pos, next);
    DictFields(b, pos + 4, ports, next, |v.entries|, ExpectedEntries(v.entries, [], pos + 12, next));
  }

  /** An array decodes to its decoded elements, after the tag, size and count fields. */
  lemma {:induction false} ArrayExpected(v: Value, pos: nat, next: nat)
    requires v.Array?
    ensures var r := ExpectedElems(v.elems, [], pos + 12, next);
            Expected(v, pos, next) == Decoded(Array(r.value), r.pos, r.next)
  {
    var vs := v.elems;
    assert |EncodeValue(v)| == 4 + |Framed(|vs|, EncodeElems(vs))| == 12 + |EncodeElems(vs)|;
    assert [] + AsDecodedElems(vs) == AsDecodedElems(vs);
  }

  /** A dictionary decodes to its decoded entries, reversed, after the tag, size and count fields. */
  lemma {:induction false} DictExpected(v: Value, pos: nat, next: nat)
    requires v.Dict?
    ensures var r := ExpectedEntries(v.entries, [], pos + 12, next);
            Expected(v, pos, next) == Decoded(Dict(r.value), r.pos, r.next)
  {
    var es := v.entries;
    assert |EncodeValue(v)| == 4 + |Framed(|es|, EncodeEntries(es))| == 12 + |EncodeEntries(es)|;
    assert Reversed(AsDecodedEntries(es)) + [] == Reversed(AsDecodedEntries(es));
  }

  /** The array loop reads the elements back in index order, appending to acc. */
  lemma {:induction false} DecodeEncodeElems(vs: seq<Value>, b: seq<byte>, pos: nat, ports: seq<Port>, next: nat, acc: seq<Value>)
    requires RepresentableElems(vs)
    requires At(b, pos, EncodeElems(vs)) && At(ports, next, PortsOfElems(vs))
    ensures ElemsFrom(b, pos, |vs|, ports, next, acc) == Ok(ExpectedElems(vs, acc, pos, next))
    decreases vs, 2
  {
    if vs != [] {
      var d := Expected(vs[0], pos, next);
      ElemsHead(vs, b, pos, ports, next);
      DecodeEncode(vs[0], b, pos, ports, next);
      DecodeEncodeElems(vs[1..], b, d.pos, ports, d.next, acc + [d.value]);
      ElemsStep(b, pos, |vs|, ports, next, acc, d);
      ExpectedElemsCons(vs, acc, pos, next);
    } else {
      assert acc + AsDecodedElems(vs) == acc;
    }
  }

  /** Where the first element and the remaining ones sit, in the bytes and in the port list. */
  lemma {:induction false} ElemsHead(vs: seq<Value>, b: seq<byte>, pos: nat, ports: seq<Port>, next: nat)
    requires vs != [] && RepresentableElems(vs)
    requires At(b, pos, EncodeElems(vs)) && At(ports, next, PortsOfElems(vs))
    ensures Representable(vs[0]) && At(b, pos, EncodeValue(vs[0])) && At(ports, next, PortsOf(vs[0]))
    ensures RepresentableElems(vs[1..])
    ensures At(b, Expected(vs[0], pos, next).pos, EncodeElems(vs[1..]))
    ensures At(ports, Expected(vs[0], pos, next).next, PortsOfElems(vs[1..]))
  {
    var x, rest := vs[0], vs[1..];
    assert EncodeElems(vs) == EncodeValue(x) + EncodeElems(rest);
    AtConcat(b, pos, EncodeValue(x), EncodeElems(rest));
    assert PortsOfElems(vs) == PortsOf(x) + PortsOfElems(rest);
    AtConcat(ports, next, PortsOf(x), PortsOfElems(rest));
  }

  /** The expected elements, split into the first one and the rest appended after it. */
  lemma {:induction false} ExpectedElemsCons(vs: seq<Value>, acc: seq<Value>, pos: nat, next: nat)
    requires vs != []
    ensures var d := Expected(vs[0], pos, next);
            ExpectedElems(vs[1..], acc + [d.value], d.pos, d.next) == ExpectedElems(vs, acc, pos, next)
  {
    var x := AsDecoded(vs[0]);
    assert AsDecodedElems(vs) == [x] + AsDecodedElems(vs[1..]);
    AppendAssoc(acc, [x], AsDecodedElems(vs[1..]));
  }

  /** Where the first entry's key, its value and the remaining entries sit, in the bytes and in the port list. */
  lemma {:induction false} EntryHead(es: seq<Entry>, b: seq<byte>, pos: nat, ports: seq<Port>, next: nat)
    requires es != [] && RepresentableEntries(es)
    requires At(b, pos, EncodeEntries(es)) && At(ports, next, PortsOfEntries(es))
    ensures At(b, pos, StrBytes(es[0].key))
    ensures var p := pos + |StrBytes(es[0].key)|;
            Representable(es[0].value) && At(b, p, EncodeValue(es[0].value)) && At(ports, next, PortsOf(es[0].value))
    ensures RepresentableEntries(es[1..])
    ensures var d := Expected(es[0].value, pos + |StrBytes(es[0].key)|, next);
            At(b, d.pos, EncodeEntries(es[1..])) && At(ports, d.next, PortsOfEntries(es[1..]))
  {
    AtSplit3(b, pos, StrBytes(es[0].key), EncodeValue(es[0].value), EncodeEntries(es[1..]));
    AtConcat(ports, next, PortsOf(es[0].value), PortsOfEntries(es[1..]));
  }

  /** The expected entries, split into the first entry and the rest decoded in front of it. */
  lemma {:induction false} ExpectedEntriesCons(es: seq<Entry>, acc: seq<Entry>, pos: nat, next: nat)
    requires es != []
    ensures var d := Expected(es[0].value, pos + |StrBytes(es[0].key)|, next);
            var acc' := [Entry(es[0].key, d.value)] + acc;
            ExpectedEntries(es[1..], acc', d.pos, d.next) == ExpectedEntries(es, acc, pos, next)
  {
    var e := Entry(es[0].key, AsDecoded(es[0].value));
    assert AsDecodedEntries(es) == [e] + AsDecodedEntries(es[1..]);
    ReversedCons(e, AsDecodedEntries(es[1..]));
    AppendAssoc(Reversed(AsDecodedEntries(es[1..])), [e], acc);
  }

  /** The dictionary loop reads the entries in list order and prepends each to acc. */
  lemma {:induction false} DecodeEncodeEntries(es: seq<Entry>, b: seq<byte>, pos: nat, ports: seq<Port>, next: nat, acc: seq<Entry>)
    requires RepresentableEntries(es)
    requires At(b, pos, EncodeEntries(es)) && At(ports, next, PortsOfEntries(es))
    ensures EntriesFrom(b, pos, |es|, ports, next, acc) == Ok(ExpectedEntries(es, acc, pos, next))
    decreases es, 2
  {
    if es != [] {
      var p := pos + |StrBytes(es[0].key)|;
      var d := Expected(es[0].value, p, next);
      EntryHead(es, b, pos, ports, next);
      ReadStrAt(b, pos, es[0].key);
      DecodeEncode(es[0].value, b, p, ports, next);
      DecodeEncodeEntries(es[1..], b, d.pos, ports, d.next, [Entry(es[0].key, d.value)] + acc);
      EntriesStep(b, pos, |es|, ports, next, acc, es[0].key, p, d);
      ExpectedEntriesCons(es, acc, pos, next);
    } else {
      assert Reversed(AsDecodedEntries(es)) + acc == acc;
    }
  }

  /** The whole encoding of v, with exactly its ports, decodes to AsDecoded(v) and uses up both. */
  lemma {:induction false} DecodeOwnEncoding(v: Value)
    requires Representable(v)
    ensures DecodeValue(EncodeValue(v), 0, PortsOf(v), 0)
         == Ok(Decoded(AsDecoded(v), |EncodeValue(v)|, |PortsOf(v)|))
  {
    AtWhole(EncodeValue(v));
    AtWhole(PortsOf(v));
    DecodeEncode(v, EncodeValue(v), 0, PortsOf(v), 0);
    assert Expected(v, 0, 0) == Decoded(AsDecoded(v), |EncodeValue(v)|, |PortsOf(v)|);
  }

  /**
   * An FD handle or a value of unknown type is written as its bare tag, and
   * the decoder stops at that tag: exit(-1) in the source.
   */
  lemma {:induction false} UndecodableKinds(v: Value, b: seq<byte>, pos: nat, ports: seq<Port>, next: nat)
    requires v.Fd? || v.Unsupported?
    requires At(b, pos, EncodeValue(v)) && next <= |ports|
    ensures DecodeValue(b, pos, ports, next) == Err(UnknownTag(TagOf(v)))
    ensures DecodeValue(b, pos, ports, next).error.IsFatal()
  {
    AtConcat(b, pos, U32Bytes(TagOf(v)), Payload(v));
    ReadU32At(b, pos, TagOf(v));
    ValueTag(TagOf(v), b, pos, ports, next);
  }
}

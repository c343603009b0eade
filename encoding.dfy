/**
 * What spc_serialize_value, spc_write_array and spc_write_dict append to the
 * writer's buffer, and which ports they collect on the side, as functions of
 * the value tree. The Writer class is proved against these.
 */
module Encoding {
  import opened Wire
  import opened Values

  /** spc_write_str: the string and its terminator, padded to 4 bytes. */
  function StrBytes(s: CString): (r: seq<byte>)
    ensures |r| >= 4 && |r| % 4 == 0 && |r| > |s|
    ensures r[..|s|] == s && r[|s|] == 0
  {
    PaddedFacts(s + [0]);
    assert Padded(s + [0])[..|s|] == (s + [0])[..|s|];
    Padded(s + [0])
  }

  /**
   * The layout spc_write_array and spc_write_dict produce: a byte-size field
   * (backpatched, holding the number of bytes that follow it), the item
   * count, then the items.
   */
  function Framed(count: nat, items: seq<byte>): (r: seq<byte>)
    ensures |r| == 8 + |items| && r[8..] == items
  {
    var body := U32Bytes(Trunc32(count)) + items;
    U32Bytes(Trunc32(|body|)) + body
  }

  /** spc_serialize_value: the 4-byte type tag, then the payload. */
  function EncodeValue(v: Value): (r: seq<byte>)
    ensures |r| >= 4 && r[..4] == U32Bytes(TagOf(v))
    decreases v, 1
  {
    U32Bytes(TagOf(v)) + Payload(v)
  }

  /** The bytes spc_serialize_value writes after the tag. */
  function Payload(v: Value): (r: seq<byte>)
    ensures r == [] <==> v.Null? || v.Fd? || v.SendPort? || v.RecvPort? || v.Unsupported?
    decreases v, 0
  {
    match v
    case Null => []
    case Bool(x) => U32Bytes(Trunc32(x))
    case UInt64(x) => U64Bytes(x)
    case Int64(x) => U64Bytes(I64Bits(x))
    case Double(x) => U64Bytes(x)
    case Str(s) => U32Bytes(Trunc32(|s| + 1)) + StrBytes(s)
    case Array(vs) => Framed(|vs|, EncodeElems(vs))
    case Dict(es) => Framed(|es|, EncodeEntries(es))
    case Fd(_) => []
    case SendPort(_) => []
    case RecvPort(_) => []
    case Uuid(u) => u
    case Data(d) => U32Bytes(Trunc32(|d|)) + Padded(d)
    case Unsupported(_) => []
  }

  /** The elements of an array, one after another, in index order. */
  function EncodeElems(vs: seq<Value>): (r: seq<byte>)
    ensures |r| >= 4 * |vs|
    decreases vs, 2
  {
    if vs == [] then [] else EncodeValue(vs[0]) + EncodeElems(vs[1..])
  }

  /** The entries of a dictionary in list order, each a key and a value. */
  function EncodeEntries(es: seq<Entry>): (r: seq<byte>)
    ensures |r| >= 8 * |es|
    decreases es, 2
  {
    if es == [] then [] else StrBytes(es[0].key) + EncodeValue(es[0].value) + EncodeEntries(es[1..])
  }

  /** The ports spc_write_port collects while a value is written, in traversal order. */
  function PortsOf(v: Value): (r: seq<Port>)
    ensures v.Fd? || v.SendPort? || v.RecvPort? ==> r == [v.port]
    ensures r != [] ==> v.Fd? || v.SendPort? || v.RecvPort? || v.Array? || v.Dict?
    decreases v, 0
  {
    if v.Fd? || v.SendPort? || v.RecvPort? then [v.port]
    else if v.Array? then PortsOfElems(v.elems)
    else if v.Dict? then PortsOfEntries(v.entries)
    else []
  }

  function PortsOfElems(vs: seq<Value>): seq<Port>
    decreases vs, 1
  {
    if vs == [] then [] else PortsOf(vs[0]) + PortsOfElems(vs[1..])
  }

  function PortsOfEntries(es: seq<Entry>): seq<Port>
    decreases es, 1
  {
    if es == [] then [] else PortsOf(es[0].value) + PortsOfEntries(es[1..])
  }

  // ---------------------------------------------------------------------
  // Properties of the encoding

  /** Encoding a longer list appends: what the writer's element loop relies on. */
  lemma {:induction false} ElemsAppend(a: seq<Value>, b: seq<Value>)
    ensures EncodeElems(a + b) == EncodeElems(a) + EncodeElems(b)
    ensures PortsOfElems(a + b) == PortsOfElems(a) + PortsOfElems(b)
  {
    if a == [] {
      assert a + b == b;
    } else {
      var ab := a + b;
      assert ab[0] == a[0] && ab[1..] == a[1..] + b;
      ElemsAppend(a[1..], b);
      var head := EncodeValue(a[0]);
      calc {
        EncodeElems(ab);
        head + EncodeElems(a[1..] + b);
        head + (EncodeElems(a[1..]) + EncodeElems(b));
        { AppendAssoc(head, EncodeElems(a[1..]), EncodeElems(b)); }
        EncodeElems(a) + EncodeElems(b);
      }
      AppendAssoc(PortsOf(a[0]), PortsOfElems(a[1..]), PortsOfElems(b));
    }
  }

  lemma {:induction false} EntriesAppend(a: seq<Entry>, b: seq<Entry>)
    ensures EncodeEntries(a + b) == EncodeEntries(a) + EncodeEntries(b)
    ensures PortsOfEntries(a + b) == PortsOfEntries(a) + PortsOfEntries(b)
  {
    if a == [] {
      assert a + b == b;
    } else {
      var ab := a + b;
      assert ab[0] == a[0] && ab[1..] == a[1..] + b;
      EntriesAppend(a[1..], b);
      var head := StrBytes(a[0].key) + EncodeValue(a[0].value);
      calc {
        EncodeEntries(ab);
        head + EncodeEntries(a[1..] + b);
        head + (EncodeEntries(a[1..]) + EncodeEntries(b));
        { AppendAssoc(head, EncodeEntries(a[1..]), EncodeEntries(b)); }
        EncodeEntries(a) + EncodeEntries(b);
      }
      AppendAssoc(PortsOf(a[0].value), PortsOfEntries(a[1..]), PortsOfEntries(b));
    }
  }

  /** Handles and the tag-only kinds contribute their tag and nothing else to the bytes. */
  lemma {:induction false} TagOnlyKinds(v: Value)
    requires v.Null? || v.Fd? || v.SendPort? || v.RecvPort? || v.Unsupported?
    ensures EncodeValue(v) == U32Bytes(TagOf(v))
    ensures PortsOf(v) == if v.Null? || v.Unsupported? then [] else [v.port]
  {
  }

  lemma {:induction false} Mod4Sum(a: nat, b: nat)
    requires a % 4 == 0 && b % 4 == 0
    ensures (a + b) % 4 == 0
  {
  }

  /** Every encoded value is at least its tag and keeps the stream 4-byte aligned. */
  lemma {:induction false} EncodedAligned(v: Value)
    ensures |EncodeValue(v)| >= 4 && |EncodeValue(v)| % 4 == 0
    decreases v, 1
  {
    var p := Payload(v);
    match v {
      case Str(s) =>
        PaddedFacts(s + [0]);
        assert |p| == 4 + |StrBytes(s)|;
        Mod4Sum(4, |StrBytes(s)|);
      case Data(d) =>
        PaddedFacts(d);
        assert |p| == 4 + |Padded(d)|;
        Mod4Sum(4, |Padded(d)|);
      case Array(vs) =>
        ElemsAligned(vs);
        assert |p| == 8 + |EncodeElems(vs)|;
        Mod4Sum(8, |EncodeElems(vs)|);
      case Dict(es) =>
        EntriesAligned(es);
        assert |p| == 8 + |EncodeEntries(es)|;
        Mod4Sum(8, |EncodeEntries(es)|);
      case Uuid(u) =>
      case Null =>
      case Bool(_) =>
      case UInt64(_) =>
      case Int64(_) =>
      case Double(_) =>
      case Fd(_) =>
      case SendPort(_) =>
      case RecvPort(_) =>
      case Unsupported(_) =>
    }
    assert |p| % 4 == 0;
    Mod4Sum(4, |p|);
  }

  lemma {:induction false} ElemsAligned(vs: seq<Value>)
    ensures |EncodeElems(vs)| % 4 == 0
    decreases vs, 2
  {
    if vs != [] {
      EncodedAligned(vs[0]);
      ElemsAligned(vs[1..]);
      Mod4Sum(|EncodeValue(vs[0])|, |EncodeElems(vs[1..])|);
    }
  }

  lemma {:induction false} EntriesAligned(es: seq<Entry>)
    ensures |EncodeEntries(es)| % 4 == 0
    decreases es, 2
  {
    if es != [] {
      EncodedAligned(es[0].value);
      EntriesAligned(es[1..]);
      PaddedFacts(es[0].key + [0]);
      Mod4Sum(|StrBytes(es[0].key)|, |EncodeValue(es[0].value)|);
      Mod4Sum(|StrBytes(es[0].key)| + |EncodeValue(es[0].value)|, |EncodeEntries(es[1..])|);
    }
  }

  /**
   * The backpatched size field of an array or dictionary holds, truncated to
   * 32 bits, the number of bytes that follow it; the next field is the count.
   */
  lemma {:induction false} FramedFields(count: nat, items: seq<byte>)
    ensures |Framed(count, items)| == 8 + |items|
    ensures U32At(Framed(count, items), 0) == Trunc32(|Framed(count, items)| - 4)
    ensures U32At(Framed(count, items), 4) == Trunc32(count)
  {
    var f := Framed(count, items);
    var body := U32Bytes(Trunc32(count)) + items;
    AtWhole(f);
    AtConcat(f, 0, U32Bytes(Trunc32(|body|)), body);
    AtConcat(f, 4, U32Bytes(Trunc32(count)), items);
    AtU32(f, 0, Trunc32(|body|));
    AtU32(f, 4, Trunc32(count));
  }
}

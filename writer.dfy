/**
 * writer_t and the spc_write_* functions of the serializer: a buffer
 * [start, end) that grows on demand, the write position ptr, and the list of
 * ports collected beside the bytes. Every method is proved against the
 * functions of Encoding: what it appends is the encoding of its argument.
 */
module Writing {
  import opened Wire
  import opened Values
  import opened Encoding

  class Writer {
    /** The allocation [start, end). */
    var buf: seq<byte>
    /** The write position, as the offset ptr - start. */
    var ptr: nat
    /** ports[0 .. num_ports), in the order spc_write_port received them. */
    var ports: seq<Port>

    ghost predicate Valid()
      reads this
    {
      ptr <= |buf|
    }

    /** The bytes written so far, [start, ptr). */
    ghost function Written(): seq<byte>
      reads this
      requires Valid()
    {
      buf[..ptr]
    }

    /** The writer spc_serialize sets up: capacity bytes allocated, nothing written, no ports. */
    constructor (capacity: nat)
      ensures Valid() && |buf| == capacity
      ensures Written() == [] && ports == []
    {
      buf := Zeros(capacity);
      ptr := 0;
      ports := [];
    }

    /**
     * spc_ensure_space: when fewer than n bytes are left after ptr, realloc
     * the buffer to its old size plus n, which keeps the bytes and the offset.
     */
    method EnsureSpace(n: nat)
      requires Valid()
      modifies this
      ensures Valid() && ptr == old(ptr) && ports == old(ports)
      ensures ptr + n <= |buf|
      ensures if old(ptr) + n > old(|buf|)
              then |buf| == old(|buf|) + n
              else buf == old(buf)
      ensures buf[..old(|buf|)] == old(buf)
      ensures Written() == old(Written())
    {
      if ptr + n > |buf| {
        buf := buf + Zeros(n);
      }
    }

    /** memcpy(ptr, data, |data|); ptr += |data|, where the space is already there. */
    method Put(data: seq<byte>)
      requires Valid() && ptr + |data| <= |buf|
      modifies this
      ensures Valid() && ports == old(ports) && |buf| == old(|buf|)
      ensures Written() == old(Written()) + data
    {
      buf := buf[..ptr] + data + buf[ptr + |data|..];
      ptr := ptr + |data|;
    }

    /** spc_write: len bytes, and len as the number written. */
    method Write(data: seq<byte>) returns (written: nat)
      requires Valid()
      modifies this
      ensures Valid() && ports == old(ports)
      ensures Written() == old(Written()) + data
      ensures written == |data|
    {
      EnsureSpace(|data|);
      Put(data);
      written := |data|;
    }

    /** spc_write_padded: the bytes, then zeros up to the next multiple of 4. */
    method WritePadded(data: seq<byte>) returns (written: nat)
      requires Valid()
      modifies this
      ensures Valid() && ports == old(ports)
      ensures Written() == old(Written()) + Padded(data)
      ensures written == |Padded(data)| && written % 4 == 0
    {
      var remainder := (4 - |data| % 4) % 4;
      PadLenMod(|data|);
      EnsureSpace(|data| + remainder);
      Put(data);
      Put(Zeros(remainder));
      written := |data| + remainder;
    }

    /** spc_write_str: strlen(str) + 1 bytes, so the terminator too, padded. */
    method WriteStr(s: CString) returns (written: nat)
      requires Valid()
      modifies this
      ensures Valid() && ports == old(ports)
      ensures Written() == old(Written()) + StrBytes(s)
      ensures written == |StrBytes(s)|
    {
      written := WritePadded(s + [0]);
    }

    /** spc_write_uint32: the four bytes of x, and 4. */
    method WriteU32(x: u32) returns (written: nat)
      requires Valid()
      modifies this
      ensures Valid() && ports == old(ports)
      ensures Written() == old(Written()) + U32Bytes(x)
      ensures written == 4
    {
      EnsureSpace(4);
      Put(U32Bytes(x));
      written := 4;
    }

    /** spc_write_uint64: the eight bytes of x, and 8. */
    method WriteU64(x: u64) returns (written: nat)
      requires Valid()
      modifies this
      ensures Valid() && ports == old(ports)
      ensures Written() == old(Written()) + U64Bytes(x)
      ensures written == 8
    {
      EnsureSpace(8);
      Put(U64Bytes(x));
      written := 8;
    }

    /** spc_write_int64, whose parameter is a uint64_t: the caller's int64 arrives as its bit pattern. */
    method WriteI64(x: u64) returns (written: nat)
      requires Valid()
      modifies this
      ensures Valid() && ports == old(ports)
      ensures Written() == old(Written()) + U64Bytes(x)
      ensures written == 8
    {
      EnsureSpace(8);
      Put(U64Bytes(x));
      written := 8;
    }

    /** spc_write_double: the eight bytes of the double's representation. */
    method WriteDouble(bits: u64) returns (written: nat)
      requires Valid()
      modifies this
      ensures Valid() && ports == old(ports)
      ensures Written() == old(Written()) + U64Bytes(bits)
      ensures written == 8
    {
      EnsureSpace(8);
      Put(U64Bytes(bits));
      written := 8;
    }

    /** spc_write_port: the port goes to the end of the port list; no bytes are written. */
    method WritePort(p: Port)
      requires Valid()
      modifies this`ports
      ensures Valid() && Written() == old(Written())
      ensures ports == old(ports) + [p]
    {
      ports := ports + [p];
    }

    /** *(uint32_t*)(start + offset) = x: four bytes already written are overwritten. */
    method StoreU32(offset: nat, x: u32)
      requires Valid() && offset + 4 <= ptr
      modifies this
      ensures Valid() && ports == old(ports) && ptr == old(ptr) && |buf| == old(|buf|)
      ensures Written() == old(Written())[..offset] + U32Bytes(x) + old(Written())[offset + 4..]
    {
      var bytes := U32Bytes(x);
      buf := buf[..offset] + bytes + buf[offset + 4..];
      assert Written() == old(Written())[..offset] + bytes + old(Written())[offset + 4..];
    }

    /**
     * spc_serialize_value: the tag, then what the switch writes for the kind.
     * The bytes appended are EncodeValue(v), the ports appended are PortsOf(v),
     * and the number returned is the number of bytes appended.
     */
    method SerializeValue(v: Value) returns (written: nat)
      requires Valid()
      modifies this
      ensures Valid()
      ensures Written() == old(Written()) + EncodeValue(v)
      ensures ports == old(ports) + PortsOf(v)
      ensures written == |EncodeValue(v)|
      decreases v, 2
    {
      ghost var before := Written();
      written := WriteU32(TagOf(v));
      var n := 0;
      match v {
        case Null | Unsupported(_) =>
          assert Payload(v) == [] && PortsOf(v) == [];
        case Bool(_) | UInt64(_) | Int64(_) | Double(_) =>
          n := WriteScalar(v);
        case Str(s) =>
          n := WriteString(s);
        case Data(d) =>
          n := WriteData(d);
        case Uuid(u) =>
          n := Write(u);
        case Array(vs) =>
          n := WriteArray(vs);
        case Dict(es) =>
          n := WriteDict(es);
        case Fd(_) | SendPort(_) | RecvPort(_) =>
          WritePort(v.port);
          assert Payload(v) == [] && PortsOf(v) == [v.port];
      }
      ghost var after := Written();
      AppendAssoc(before, U32Bytes(TagOf(v)), Payload(v));
      assert after == before + EncodeValue(v);
      written := written + n;
    }

    /** The cases of spc_serialize_value that write one number after the tag; a bool is cast to uint32_t. */
    method WriteScalar(v: Value) returns (written: nat)
      requires Valid() && (v.Bool? || v.UInt64? || v.Int64? || v.Double?)
      modifies this
      ensures Valid() && ports == old(ports)
      ensures Written() == old(Written()) + Payload(v)
      ensures written == |Payload(v)|
    {
      match v {
        case Bool(x) => written := WriteU32(Trunc32(x));
        case UInt64(x) => written := WriteU64(x);
        case Int64(x) => written := WriteI64(I64Bits(x));
        case Double(x) => written := WriteDouble(x);
      }
    }

    /** The string case of spc_serialize_value: strlen + 1 as a uint32_t, then the string. */
    method WriteString(s: CString) returns (written: nat)
      requires Valid()
      modifies this
      ensures Valid() && ports == old(ports)
      ensures Written() == old(Written()) + Payload(Str(s))
      ensures written == |Payload(Str(s))|
    {
      written := WriteU32(Trunc32(|s| + 1));
      var n := WriteStr(s);
      written := written + n;
    }

    /** The data case of spc_serialize_value: the length as a uint32_t, then the bytes, padded. */
    method WriteData(d: seq<byte>) returns (written: nat)
      requires Valid()
      modifies this
      ensures Valid() && ports == old(ports)
      ensures Written() == old(Written()) + Payload(Data(d))
      ensures written == |Payload(Data(d))|
    {
      written := WriteU32(Trunc32(|d|));
      var n := WritePadded(d);
      written := written + n;
    }

    /**
     * spc_write_array: a placeholder for the byte size, the length, the
     * elements in index order, then the byte size patched in.
     */
    method WriteArray(vs: seq<Value>) returns (written: nat)
      requires Valid()
      modifies this
      ensures Valid()
      ensures Written() == old(Written()) + Framed(|vs|, EncodeElems(vs))
      ensures ports == old(ports) + PortsOfElems(vs)
      ensures written == |Framed(|vs|, EncodeElems(vs))|
      decreases vs, 3
    {
      var offset := ptr;
      var _ := WriteU32(0);
      written := WriteU32(Trunc32(|vs|));
      ghost var head := Written();
      var i := 0;
      while i < |vs|
        invariant Valid()
        invariant i <= |vs|
        invariant Written() == head + EncodeElems(vs[..i])
        invariant ports == old(ports) + PortsOfElems(vs[..i])
        invariant written == 4 + |EncodeElems(vs[..i])|
      {
        var n := SerializeValue(vs[i]);
        ElemsSnoc(vs, i);
        AppendAssoc(head, EncodeElems(vs[..i]), EncodeValue(vs[i]));
        AppendAssoc(old(ports), PortsOfElems(vs[..i]), PortsOf(vs[i]));
        written := written + n;
        i := i + 1;
      }
      assert vs[..i] == vs;
      BackPatch(old(Written()), |vs|, EncodeElems(vs));
      StoreU32(offset, Trunc32(written));
      written := written + 4;
    }

    /**
     * spc_write_dict: a placeholder for the byte size, the item count, each
     * item of the list as its key and its value, then the byte size patched in.
     */
    method WriteDict(es: seq<Entry>) returns (written: nat)
      requires Valid()
      modifies this
      ensures Valid()
      ensures Written() == old(Written()) + Framed(|es|, EncodeEntries(es))
      ensures ports == old(ports) + PortsOfEntries(es)
      ensures written == |Framed(|es|, EncodeEntries(es))|
      decreases es, 3
    {
      var offset := ptr;
      var _ := WriteU32(0);
      written := WriteU32(Trunc32(|es|));
      ghost var head := Written();
      var i := 0;
      while i < |es|
        invariant Valid()
        invariant i <= |es|
        invariant Written() == head + EncodeEntries(es[..i])
        invariant ports == old(ports) + PortsOfEntries(es[..i])
        invariant written == 4 + |EncodeEntries(es[..i])|
      {
        var k := WriteStr(es[i].key);
        var n := SerializeValue(es[i].value);
        EntriesSnoc(es, i);
        Extend(head, EncodeEntries(es[..i]), StrBytes(es[i].key), EncodeValue(es[i].value));
        AppendAssoc(old(ports), PortsOfEntries(es[..i]), PortsOf(es[i].value));
        written := written + k + n;
        i := i + 1;
      }
      assert es[..i] == es;
      BackPatch(old(Written()), |es|, EncodeEntries(es));
      StoreU32(offset, Trunc32(written));
      written := written + 4;
    }
  }

  lemma {:induction false} Extend<T>(h: seq<T>, x: seq<T>, y: seq<T>, z: seq<T>)
    ensures h + x + y + z == h + (x + y + z)
  {
  }

  /** One more element written: the encoding of vs[..i + 1] extends that of vs[..i]. */
  lemma {:induction false} ElemsSnoc(vs: seq<Value>, i: nat)
    requires i < |vs|
    ensures EncodeElems(vs[..i + 1]) == EncodeElems(vs[..i]) + EncodeValue(vs[i])
    ensures PortsOfElems(vs[..i + 1]) == PortsOfElems(vs[..i]) + PortsOf(vs[i])
  {
    assert vs[..i + 1] == vs[..i] + [vs[i]];
    ElemsAppend(vs[..i], [vs[i]]);
    assert [vs[i]][1..] == [];
  }

  /** One more dictionary item written: its key and its value follow the earlier ones. */
  lemma {:induction false} EntriesSnoc(es: seq<Entry>, i: nat)
    requires i < |es|
    ensures EncodeEntries(es[..i + 1]) == EncodeEntries(es[..i]) + StrBytes(es[i].key) + EncodeValue(es[i].value)
    ensures PortsOfEntries(es[..i + 1]) == PortsOfEntries(es[..i]) + PortsOf(es[i].value)
  {
    assert es[..i + 1] == es[..i] + [es[i]];
    EntriesAppend(es[..i], [es[i]]);
    assert [es[i]][1..] == [];
  }

  /**
   * Patching the placeholder that follows before, in before + placeholder +
   * count + items, with the number of bytes after it leaves before + Framed(...).
   */
  lemma {:induction false} BackPatch(before: seq<byte>, count: nat, items: seq<byte>)
    ensures var w := before + U32Bytes(0) + U32Bytes(Trunc32(count)) + items;
            |before| + 4 <= |w| &&
            w[..|before|] + U32Bytes(Trunc32(4 + |items|)) + w[|before| + 4..] == before + Framed(count, items)
  {
    var w := before + U32Bytes(0) + U32Bytes(Trunc32(count)) + items;
    assert w[..|before|] == before;
    assert w[|before| + 4..] == U32Bytes(Trunc32(count)) + items;
  }
}

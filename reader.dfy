/**
 * reader_t, the spc_read_* functions and the recursive descent of
 * spc_deserialize_value, spc_deserialize_array and spc_deserialize_dict over
 * it. Each method is proved to compute what the function of Decoding of the
 * same name computes: the same value and new offset on success, the same
 * failure where the source aborts, exits or dereferences NULL.
 */
module Reading {
  import opened Wire
  import opened Values
  import opened Results
  import opened Decoding

  /** What a reader method returned, r, with the offset it left, ptr, as a Read result. */
  function Got<T>(r: Result<T, Failure>, ptr: nat): Result<Read<T>, Failure> {
    if r.Ok? then Ok(Read(r.value, ptr)) else Err(r.error)
  }

  /** Got, for a decode that also leaves the port index at next. */
  function GotDecoded<T>(r: Result<T, Failure>, ptr: nat, next: nat): Result<Decoded<T>, Failure> {
    if r.Ok? then Ok(Decoded(r.value, ptr, next)) else Err(r.error)
  }

  class Reader {
    /** The bytes [mach_msg->buf, end) of the received message. */
    const data: seq<byte>
    /** The read position, as the offset ptr - mach_msg->buf. */
    var ptr: nat
    /** ports[0 .. num_ports), as spc_deserialize took them from the descriptors. */
    var ports: seq<Port>
    /** next_port: the index of the port spc_reader_next_port hands out next. */
    var nextPort: nat

    ghost predicate Valid()
      reads this
    {
      ptr <= |data| && nextPort <= |ports|
    }

    /** The reader spc_deserialize sets up: at the start of the content, no ports yet. */
    constructor (data: seq<byte>)
      ensures Valid() && this.data == data
      ensures ptr == 0 && ports == [] && nextPort == 0
    {
      this.data := data;
      ptr := 0;
      ports := [];
      nextPort := 0;
    }

    /** spc_read: the next len bytes, or the abort when ptr + len passes end. */
    method Read(len: nat) returns (r: Result<seq<byte>, Failure>)
      requires Valid()
      modifies this`ptr
      ensures Valid()
      ensures r.Err? <==> old(ptr) + len > |data|
      ensures r.Err? ==> r.error == OutOfBounds
      ensures r.Ok? ==> r.value == data[old(ptr)..old(ptr) + len] && ptr == old(ptr) + len
    {
      if ptr + len > |data| {
        return Err(OutOfBounds);
      }
      r := Ok(data[ptr..ptr + len]);
      ptr := ptr + len;
    }

    /** spc_read_uint32: the uint32_t at the bytes spc_read returns. */
    method ReadU32() returns (r: Result<u32, Failure>)
      requires Valid()
      modifies this`ptr
      ensures Valid() && Got(r, ptr) == Decoding.ReadU32(data, old(ptr))
    {
      var at := ptr;
      var _ :- Read(4);
      r := Ok(U32At(data, at));
    }

    /** spc_read_uint64; spc_read_double reads the same 8 bytes, as the double's bit pattern. */
    method ReadU64() returns (r: Result<u64, Failure>)
      requires Valid()
      modifies this`ptr
      ensures Valid() && Got(r, ptr) == Decoding.ReadU64(data, old(ptr))
    {
      var at := ptr;
      var _ :- Read(8);
      r := Ok(U64At(data, at));
    }

    /** spc_read_int64: the same 8 bytes, as a two's-complement int64_t. */
    method ReadI64() returns (r: Result<i64, Failure>)
      requires Valid()
      modifies this`ptr
      ensures Valid()
      ensures r.Err? <==> Decoding.ReadU64(data, old(ptr)).Err?
      ensures r.Ok? ==> (r.value == I64Of(Decoding.ReadU64(data, old(ptr)).value.value) &&
                         ptr == Decoding.ReadU64(data, old(ptr)).value.pos)
      ensures r.Err? ==> r.error == OutOfBounds
    {
      var x :- ReadU64();
      r := Ok(I64Of(x));
    }

    /** spc_read_padded: size bytes, and the reader moves past their padding too. */
    method ReadPadded(size: nat) returns (r: Result<seq<byte>, Failure>)
      requires Valid()
      modifies this`ptr
      ensures Valid() && Got(r, ptr) == Decoding.ReadPadded(data, old(ptr), size)
    {
      var remainder := (4 - size % 4) % 4;
      PadLenMod(size);
      r := Read(size + remainder);
    }

    /**
     * spc_read_str with the strdup its callers apply: memchr finds the
     * terminator, and the string with its terminator and padding is consumed.
     */
    method ReadStr() returns (r: Result<CString, Failure>)
      requires Valid()
      modifies this`ptr
      ensures Valid() && Got(r, ptr) == Decoding.ReadStr(data, old(ptr))
    {
      var start := ptr;
      var end := FindZero(data, ptr);
      if end.None? {
        return Err(MissingTerminator);
      }
      var _ :- ReadPadded(end.value - start + 1);
      FindZeroIsFirst(data, start);
      assert forall i | 0 <= i < end.value - start :: data[start..end.value][i] == data[start + i];
      r := Ok(data[start..end.value]);
    }

    /** spc_reader_next_port: the next collected port, or SPC_NULL_PORT once they are used up. */
    method NextPort() returns (p: Port)
      requires Valid()
      modifies this`nextPort
      ensures Valid() && (p, nextPort) == Decoding.NextPort(ports, old(nextPort))
    {
      if nextPort >= |ports| {
        return NULL_PORT;
      }
      nextPort := nextPort + 1;
      p := ports[nextPort - 1];
    }

    /**
     * spc_deserialize_value: the type tag, then what the switch reads for it.
     * The result, the offset and the port index are those of DecodeValue.
     */
    method DeserializeValue() returns (r: Result<Value, Failure>)
      requires Valid()
      modifies this`ptr, this`nextPort
      ensures Valid()
      ensures GotDecoded(r, ptr, nextPort) == DecodeValue(data, old(ptr), ports, old(nextPort))
      decreases |data| - ptr, 2
    {
      var t :- ReadU32();
      if t == NULL_TAG {
        r := Ok(Null);
      } else if t == BOOL_TAG {
        var x :- ReadU32();
        r := Ok(Bool(x));
      } else if t == UINT64_TAG {
        var x :- ReadU64();
        r := Ok(UInt64(x));
      } else if t == INT64_TAG {
        var x :- ReadI64();
        r := Ok(Int64(x));
      } else if t == DOUBLE_TAG {
        var x :- ReadU64();
        r := Ok(Double(x));
      } else if t == STRING_TAG {
        var _ :- ReadU32();
        var s :- ReadStr();
        r := Ok(Str(s));
      } else if t == ARRAY_TAG {
        var a :- DeserializeArray();
        r := Ok(Array(a));
      } else if t == DICT_TAG {
        var d :- DeserializeDict();
        r := Ok(Dict(d));
      } else if t == SEND_PORT_TAG {
        var p := NextPort();
        r := Ok(SendPort(p));
      } else if t == RECV_PORT_TAG {
        var p := NextPort();
        r := Ok(RecvPort(p));
      } else if t == UUID_TAG {
        var u :- Read(16);
        r := Ok(Uuid(u));
      } else if t == DATA_TAG {
        var size :- ReadU32();
        var d :- ReadPadded(size);
        r := Ok(Data(d[..size]));
      } else {
        r := Err(UnknownTag(t));
      }
    }

    /**
     * spc_deserialize_array: the byte size, read and ignored, the length,
     * then that many values, each set at the next index.
     */
    method DeserializeArray() returns (r: Result<seq<Value>, Failure>)
      requires Valid()
      modifies this`ptr, this`nextPort
      ensures Valid()
      ensures GotDecoded(r, ptr, nextPort) == DecodeArray(data, old(ptr), ports, old(nextPort))
      decreases |data| - ptr, 1
    {
      var _ :- ReadU32();
      var length :- ReadU32();
      ghost var start := ptr;
      var values: seq<Value> := [];
      var i := 0;
      while i < length
        invariant Valid() && old(ptr) < start <= ptr
        invariant i <= length
        invariant ElemsFrom(data, ptr, length - i, ports, nextPort, values)
               == DecodeArray(data, old(ptr), ports, old(nextPort))
      {
        ghost var at, next := ptr, nextPort;
        var value :- DeserializeValue();
        ElemsStep(data, at, length - i, ports, next, values, Decoded(value, ptr, nextPort));
        values := values + [value];
        i := i + 1;
      }
      r := Ok(values);
    }

    /**
     * spc_deserialize_dict: the byte size, read and ignored, the item count,
     * then that many keys and values, each item put at the head of the list.
     */
    method DeserializeDict() returns (r: Result<seq<Entry>, Failure>)
      requires Valid()
      modifies this`ptr, this`nextPort
      ensures Valid()
      ensures GotDecoded(r, ptr, nextPort) == DecodeDict(data, old(ptr), ports, old(nextPort))
      decreases |data| - ptr, 1
    {
      var _ :- ReadU32();
      var numItems :- ReadU32();
      ghost var start := ptr;
      var items: seq<Entry> := [];
      var i := 0;
      while i < numItems
        invariant Valid() && old(ptr) < start <= ptr
        invariant i <= numItems
        invariant EntriesFrom(data, ptr, numItems - i, ports, nextPort, items)
               == DecodeDict(data, old(ptr), ports, old(nextPort))
      {
        ghost var at, next := ptr, nextPort;
        var key :- ReadStr();
        ghost var valueAt := ptr;
        var value :- DeserializeValue();
        EntriesStep(data, at, numItems - i, ports, next, items, key, valueAt, Decoded(value, ptr, nextPort));
        items := [Entry(key, value)] + items;
        i := i + 1;
      }
      r := Ok(items);
    }
  }
}

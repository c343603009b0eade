/**
 * What the reader functions and spc_deserialize_value compute from a byte
 * range [pos, |b|) and the positional port list, as functions. The Reader
 * class is proved against these; an Err is the point where the source
 * aborts, exits or dereferences NULL.
 */
module Decoding {
  import opened Wire
  import opened Values
  import opened Results

  /** Something read at an offset, and the offset just past it. */
  datatype Read<+T> = Read(value: T, pos: nat)

  /** A decoded value, the offset just past it and the index of the next unused port. */
  datatype Decoded<+T> = Decoded(value: T, pos: nat, next: nat)

  /** spc_read: the next len bytes, or the abort when fewer remain. */
  function ReadBytes(b: seq<byte>, pos: nat, len: nat): (r: Result<Read<seq<byte>>, Failure>)
    ensures r.Err? <==> pos + len > |b|
    ensures r.Err? ==> r.error == OutOfBounds
    ensures r.Ok? ==> |r.value.value| == len && r.value.pos == pos + len
  {
    if pos + len > |b| then Err(OutOfBounds) else Ok(Read(b[pos..pos + len], pos + len))
  }

  /** spc_read_uint32. */
  function ReadU32(b: seq<byte>, pos: nat): (r: Result<Read<u32>, Failure>)
    ensures r.Err? <==> pos + 4 > |b|
    ensures r.Err? ==> r.error == OutOfBounds
    ensures r.Ok? ==> r.value.pos == pos + 4
  {
    if pos + 4 > |b| then Err(OutOfBounds) else Ok(Read(U32At(b, pos), pos + 4))
  }

  /** spc_read_uint64, spc_read_int64 and spc_read_double read the same 8 bytes. */
  function ReadU64(b: seq<byte>, pos: nat): (r: Result<Read<u64>, Failure>)
    ensures r.Err? <==> pos + 8 > |b|
    ensures r.Err? ==> r.error == OutOfBounds
    ensures r.Ok? ==> r.value.pos == pos + 8
  {
    if pos + 8 > |b| then Err(OutOfBounds) else Ok(Read(U64At(b, pos), pos + 8))
  }

  /**
   * spc_read_padded: size bytes and the padding after them, which is skipped
   * unchecked; the offset moves by a multiple of 4.
   */
  function ReadPadded(b: seq<byte>, pos: nat, size: nat): (r: Result<Read<seq<byte>>, Failure>)
    ensures r.Err? <==> pos + PaddedLen(size) > |b|
    ensures r.Ok? ==> size <= |r.value.value| && (r.value.pos - pos) % 4 == 0
    ensures r.Ok? ==> r.value.pos == pos + PaddedLen(size) && r.value.value == b[pos..pos + PaddedLen(size)]
  {
    PadLenMod(size);
    ReadBytes(b, pos, PaddedLen(size))
  }

  /** memchr(b + from, 0, |b| - from): the first zero byte at or after from. */
  function FindZero(b: seq<byte>, from: nat): (r: Option<nat>)
    ensures r.Some? ==> from <= r.value < |b|
    decreases |b| - from
  {
    if from >= |b| then None
    else if b[from] == 0 then Some(from)
    else FindZero(b, from + 1)
  }

  /** FindZero finds the first zero byte, and fails exactly when none is left. */
  lemma {:induction false} FindZeroIsFirst(b: seq<byte>, from: nat)
    ensures FindZero(b, from).Some? ==> b[FindZero(b, from).value] == 0
    ensures FindZero(b, from).Some? ==> forall i | from <= i < FindZero(b, from).value :: b[i] != 0
    ensures FindZero(b, from).None? <==> forall i | from <= i < |b| :: b[i] != 0
    decreases |b| - from
  {
    if from < |b| && b[from] != 0 {
      FindZeroIsFirst(b, from + 1);
    }
  }

  /**
   * spc_read_str followed by strdup: the string up to the first zero byte,
   * then past the terminator and its padding. No zero byte left is a failure.
   */
  function ReadStr(b: seq<byte>, pos: nat): (r: Result<Read<CString>, Failure>)
    requires pos <= |b|
    ensures r.Ok? ==> pos + |r.value.value| < r.value.pos <= |b|
    ensures r.Err? ==> r.error == MissingTerminator || r.error == OutOfBounds
  {
    match FindZero(b, pos)
    case None => Err(MissingTerminator)
    case Some(z) =>
      var r :- ReadPadded(b, pos, z - pos + 1);
      FindZeroIsFirst(b, pos);
      assert forall i | 0 <= i < z - pos :: b[pos..z][i] == b[pos + i];
      Ok(Read(b[pos..z], r.pos))
  }

  /** spc_reader_next_port: the ports in order, then SPC_NULL_PORT without moving on. */
  function NextPort(ports: seq<Port>, next: nat): (r: (Port, nat))
    requires next <= |ports|
    ensures r.1 <= |ports|
    ensures r.1 == next ==> r.0 == NULL_PORT
  {
    if next >= |ports| then (NULL_PORT, next) else (ports[next], next + 1)
  }

  /** The ports k successive calls of spc_reader_next_port hand out from index next, and the index after them. */
  function TakePorts(ports: seq<Port>, next: nat, k: nat): (seq<Port>, nat)
    requires next <= |ports|
    decreases k
  {
    if k == 0 then ([], next)
    else
      var (p, n) := NextPort(ports, next);
      var (rest, last) := TakePorts(ports, n, k - 1);
      ([p] + rest, last)
  }

  /** spc_reader_next_port hands the ports out in order from next, then SPC_NULL_PORT for every further call. */
  lemma {:induction false} TakePortsInOrder(ports: seq<Port>, next: nat, k: nat)
    requires next <= |ports|
    ensures |TakePorts(ports, next, k).0| == k
    ensures forall i | 0 <= i < k ::
              TakePorts(ports, next, k).0[i] == if next + i < |ports| then ports[next + i] else NULL_PORT
    ensures TakePorts(ports, next, k).1 == if next + k <= |ports| then next + k else |ports|
    decreases k
  {
    if k > 0 {
      var (p, n) := NextPort(ports, next);
      TakePortsInOrder(ports, n, k - 1);
      var r := TakePorts(ports, next, k).0;
      forall i | 0 <= i < k
        ensures r[i] == if next + i < |ports| then ports[next + i] else NULL_PORT
      {
        if i > 0 {
          assert r[i] == TakePorts(ports, n, k - 1).0[i - 1];
        }
      }
    }
  }

  /**
   * spc_deserialize_value over b from pos, taking handles from ports[next..]:
   * the type tag, then what the switch on it reads.
   * A successful decode consumes at least the tag and stays within b.
   */
  function DecodeValue(b: seq<byte>, pos: nat, ports: seq<Port>, next: nat): (r: Result<Decoded<Value>, Failure>)
    requires pos <= |b| && next <= |ports|
    ensures r.Ok? ==> pos + 4 <= r.value.pos <= |b| && next <= r.value.next <= |ports|
    ensures r.Err? ==> r.error.IsFatal()
    decreases |b| - pos, 2, 0
  {
    var tag :- ReadU32(b, pos);
    DecodeBody(tag.value, b, tag.pos, ports, next)
  }

  /** The switch of spc_deserialize_value on the tag t, reading from p. */
  function DecodeBody(t: u32, b: seq<byte>, p: nat, ports: seq<Port>, next: nat): (r: Result<Decoded<Value>, Failure>)
    requires p <= |b| && next <= |ports|
    ensures r.Ok? ==> p <= r.value.pos <= |b| && next <= r.value.next <= |ports|
    ensures r.Err? ==> r.error.IsFatal()
    decreases |b| - p, 1, 0
  {
    if t == NULL_TAG then
      Ok(Decoded(Null, p, next))
    else if t == BOOL_TAG then
      var x :- ReadU32(b, p);
      Ok(Decoded(Bool(x.value), x.pos, next))
    else if t == UINT64_TAG then
      var x :- ReadU64(b, p);
      Ok(Decoded(UInt64(x.value), x.pos, next))
    else if t == INT64_TAG then
      var x :- ReadU64(b, p);
      Ok(Decoded(Int64(I64Of(x.value)), x.pos, next))
    else if t == DOUBLE_TAG then
      var x :- ReadU64(b, p);
      Ok(Decoded(Double(x.value), x.pos, next))
    else if t == STRING_TAG then
      var len :- ReadU32(b, p);
      var s :- ReadStr(b, len.pos);
      Ok(Decoded(Str(s.value), s.pos, next))
    else if t == ARRAY_TAG then
      var a :- DecodeArray(b, p, ports, next);
      Ok(Decoded(Array(a.value), a.pos, a.next))
    else if t == DICT_TAG then
      var d :- DecodeDict(b, p, ports, next);
      Ok(Decoded(Dict(d.value), d.pos, d.next))
    else if t == SEND_PORT_TAG then
      var (port, n) := NextPort(ports, next);
      Ok(Decoded(SendPort(port), p, n))
    else if t == RECV_PORT_TAG then
      var (port, n) := NextPort(ports, next);
      Ok(Decoded(RecvPort(port), p, n))
    else if t == UUID_TAG then
      var u :- ReadBytes(b, p, 16);
      Ok(Decoded(Uuid(u.value), u.pos, next))
    else if t == DATA_TAG then
      var size :- ReadU32(b, p);
      var d :- ReadPadded(b, size.pos, size.value);
      Ok(Decoded(Data(d.value[..size.value]), d.pos, next))
    else
      Err(UnknownTag(t))
  }

  /**
   * spc_deserialize_array: the byte-size field, read and ignored, the element
   * count, then that many values in order.
   */
  function DecodeArray(b: seq<byte>, pos: nat, ports: seq<Port>, next: nat): (r: Result<Decoded<seq<Value>>, Failure>)
    requires pos <= |b| && next <= |ports|
    ensures r.Ok? ==> pos + 8 <= r.value.pos <= |b| && next <= r.value.next <= |ports|
    ensures r.Err? ==> r.error.IsFatal()
    decreases |b| - pos, 0, 0
  {
    var size :- ReadU32(b, pos);
    var count :- ReadU32(b, size.pos);
    DecodeElems(b, count.pos, count.value, ports, next, [])
  }

  /**
   * spc_deserialize_dict: the byte-size field, read and ignored, the entry
   * count, then that many key/value pairs.
   */
  function DecodeDict(b: seq<byte>, pos: nat, ports: seq<Port>, next: nat): (r: Result<Decoded<seq<Entry>>, Failure>)
    requires pos <= |b| && next <= |ports|
    ensures r.Ok? ==> pos + 8 <= r.value.pos <= |b| && next <= r.value.next <= |ports|
    ensures r.Err? ==> r.error.IsFatal()
    decreases |b| - pos, 0, 0
  {
    var size :- ReadU32(b, pos);
    var count :- ReadU32(b, size.pos);
    DecodeEntries(b, count.pos, count.value, ports, next, [])
  }

  /**
   * The loop of spc_deserialize_array: count more values, each appended to
   * the elements acc decoded so far.
   */
  function DecodeElems(b: seq<byte>, pos: nat, count: nat, ports: seq<Port>, next: nat, acc: seq<Value>)
    : (r: Result<Decoded<seq<Value>>, Failure>)
    requires pos <= |b| && next <= |ports|
    ensures r.Ok? ==> pos <= r.value.pos <= |b| && next <= r.value.next <= |ports|
    ensures r.Err? ==> r.error.IsFatal()
    decreases |b| - pos, 3, count
  {
    if count == 0 then
      Ok(Decoded(acc, pos, next))
    else
      var v :- DecodeValue(b, pos, ports, next);
      DecodeElems(b, v.pos, count - 1, ports, v.next, acc + [v.value])
  }

  /**
   * The loop of spc_deserialize_dict: count more key/value pairs, each
   * prepended to the entries acc decoded so far.
   */
  function DecodeEntries(b: seq<byte>, pos: nat, count: nat, ports: seq<Port>, next: nat, acc: seq<Entry>)
    : (r: Result<Decoded<seq<Entry>>, Failure>)
    requires pos <= |b| && next <= |ports|
    ensures r.Ok? ==> pos <= r.value.pos <= |b| && next <= r.value.next <= |ports|
    ensures r.Err? ==> r.error.IsFatal()
    decreases |b| - pos, 3, count
  {
    if count == 0 then
      Ok(Decoded(acc, pos, next))
    else
      var key :- ReadStr(b, pos);
      var v :- DecodeValue(b, key.pos, ports, next);
      DecodeEntries(b, v.pos, count - 1, ports, v.next, [Entry(key.value, v.value)] + acc)
  }

  /** DecodeElems from pos, with acc decoded before; out of bounds when pos or next is past the end. */
  function ElemsFrom(b: seq<byte>, pos: nat, count: nat, ports: seq<Port>, next: nat, acc: seq<Value>)
    : Result<Decoded<seq<Value>>, Failure>
  {
    if pos <= |b| && next <= |ports| then DecodeElems(b, pos, count, ports, next, acc) else Err(OutOfBounds)
  }

  /** DecodeValue from pos; out of bounds when pos or next is past the end. */
  function ValueFrom(b: seq<byte>, pos: nat, ports: seq<Port>, next: nat): Result<Decoded<Value>, Failure> {
    if pos <= |b| && next <= |ports| then DecodeValue(b, pos, ports, next) else Err(OutOfBounds)
  }

  /** DecodeEntries from pos, with acc decoded before; out of bounds when pos or next is past the end. */
  function EntriesFrom(b: seq<byte>, pos: nat, count: nat, ports: seq<Port>, next: nat, acc: seq<Entry>)
    : Result<Decoded<seq<Entry>>, Failure>
  {
    if pos <= |b| && next <= |ports| then DecodeEntries(b, pos, count, ports, next, acc) else Err(OutOfBounds)
  }

  /** One turn of the array loop: a value appended to acc. */
  lemma {:induction false} ElemsStep(b: seq<byte>, pos: nat, count: nat, ports: seq<Port>, next: nat, acc: seq<Value>,
                                     d: Decoded<Value>)
    requires count > 0
    requires ValueFrom(b, pos, ports, next) == Ok(d)
    ensures ElemsFrom(b, pos, count, ports, next, acc) == ElemsFrom(b, d.pos, count - 1, ports, d.next, acc + [d.value])
  {
  }

  /** One turn of the dictionary loop: a key, a value, and the entry they make prepended to acc. */
  lemma {:induction false} EntriesStep(b: seq<byte>, pos: nat, count: nat, ports: seq<Port>, next: nat, acc: seq<Entry>,
                                       k: CString, p: nat, d: Decoded<Value>)
    requires count > 0 && pos <= |b|
    requires ReadStr(b, pos) == Ok(Read(k, p))
    requires ValueFrom(b, p, ports, next) == Ok(d)
    ensures EntriesFrom(b, pos, count, ports, next, acc) == EntriesFrom(b, d.pos, count - 1, ports, d.next, [Entry(k, d.value)] + acc)
  {
  }

  /**
   * spc_read_str fails for want of a zero byte exactly when none is left.
   * With a zero byte found, it succeeds exactly when the terminator's padding
   * still fits, and otherwise spc_read aborts. On success the string is the
   * bytes before the first zero byte and the reader moves past the
   * terminator and its padding.
   */
  lemma {:induction false} ReadStrOutcome(b: seq<byte>, pos: nat)
    requires pos <= |b|
    ensures ReadStr(b, pos) == Err(MissingTerminator) <==> forall i | pos <= i < |b| :: b[i] != 0
    ensures FindZero(b, pos).Some? ==>
              (ReadStr(b, pos).Ok? <==> pos + PaddedLen(FindZero(b, pos).value - pos + 1) <= |b|)
    ensures FindZero(b, pos).Some? && ReadStr(b, pos).Err? ==> ReadStr(b, pos).error == OutOfBounds
    ensures ReadStr(b, pos).Ok? ==>
              var s := ReadStr(b, pos).value.value;
              pos + |s| < |b| && b[pos + |s|] == 0 && b[pos..pos + |s|] == s &&
              ReadStr(b, pos).value.pos == pos + PaddedLen(|s| + 1)
  {
    FindZeroIsFirst(b, pos);
  }

  /** spc_deserialize_value exits on an FD tag and on every tag it does not know. */
  lemma {:induction false} UnknownTagIsFatal(t: u32, b: seq<byte>, p: nat, ports: seq<Port>, next: nat)
    requires p <= |b| && next <= |ports|
    requires !IsKnownTag(t) || t == FD_TAG
    ensures DecodeBody(t, b, p, ports, next) == Err(UnknownTag(t))
    ensures DecodeBody(t, b, p, ports, next).error.IsFatal()
  {
  }
}

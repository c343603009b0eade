/**
 * The value tree carried in a message (spc_value_t and its containers), the
 * port handles that travel beside it, the message itself, and the ways a
 * decode can end without a message.
 */
module Values {
  import opened Wire

  // Type tags of spc_type_t. The header that declares them is not part of
  // this model; these are the XPC wire values, and the proofs use only the
  // fact that they are distinct.
  const NULL_TAG: u32 := 0x1000
  const BOOL_TAG: u32 := 0x2000
  const INT64_TAG: u32 := 0x3000
  const UINT64_TAG: u32 := 0x4000
  const DOUBLE_TAG: u32 := 0x5000
  const DATA_TAG: u32 := 0x8000
  const STRING_TAG: u32 := 0x9000
  const UUID_TAG: u32 := 0xa000
  const FD_TAG: u32 := 0xb000
  const SEND_PORT_TAG: u32 := 0xd000
  const ARRAY_TAG: u32 := 0xe000
  const DICT_TAG: u32 := 0xf000
  const RECV_PORT_TAG: u32 := 0x15000

  predicate IsKnownTag(t: u32) {
    t == NULL_TAG || t == BOOL_TAG || t == INT64_TAG || t == UINT64_TAG || t == DOUBLE_TAG ||
    t == DATA_TAG || t == STRING_TAG || t == UUID_TAG || t == FD_TAG || t == SEND_PORT_TAG ||
    t == ARRAY_TAG || t == DICT_TAG || t == RECV_PORT_TAG
  }

  /** A type field that names none of the kinds above. */
  type OtherTag = t: u32 | !IsKnownTag(t) witness 0

  type Uuid16 = s: seq<byte> | |s| == 16 witness [0, 0, 0, 0, 0, 0, 0, 0, 0, 0, 0, 0, 0, 0, 0, 0]

  /** spc_port_t: a kernel port name and the right it carries. */
  datatype Port = Port(name: u32, disposition: u32)

  /** SPC_NULL_PORT, handed out once the reader's port list is used up. */
  const NULL_PORT: Port := Port(0, 0)

  /**
   * spc_value_t. Bool keeps the 64-bit field the C union stores it in; a
   * double is carried as its 8-byte pattern; Unsupported is a value whose
   * type field holds none of the known tags.
   */
  datatype Value =
    | Null
    | Bool(flag: u64)
    | UInt64(u: u64)
    | Int64(i: i64)
    | Double(bits: u64)
    | Str(s: CString)
    | Array(elems: seq<Value>)
    | Dict(entries: seq<Entry>)
    | Data(bytes: seq<byte>)
    | Uuid(uuid: Uuid16)
    | Fd(port: Port)
    | SendPort(port: Port)
    | RecvPort(port: Port)
    | Unsupported(tag: OtherTag)

  /** One item of a dictionary's linked list, in list order. */
  datatype Entry = Entry(key: CString, value: Value)

  /** spc_message_t. */
  datatype Message = Message(remote: Port, local: Port, id: u32, content: seq<Entry>)

  /** The type field of a value. */
  function TagOf(v: Value): (t: u32)
    ensures v.Unsupported? <==> !IsKnownTag(t)
  {
    match v
    case Null => NULL_TAG
    case Bool(_) => BOOL_TAG
    case UInt64(_) => UINT64_TAG
    case Int64(_) => INT64_TAG
    case Double(_) => DOUBLE_TAG
    case Str(_) => STRING_TAG
    case Array(_) => ARRAY_TAG
    case Dict(_) => DICT_TAG
    case Data(_) => DATA_TAG
    case Uuid(_) => UUID_TAG
    case Fd(_) => FD_TAG
    case SendPort(_) => SEND_PORT_TAG
    case RecvPort(_) => RECV_PORT_TAG
    case Unsupported(t) => t
  }

  /**
   * How a decode ends without a message. The source terminates the process
   * for every kind except BadMagic and NotADict, for which it returns NULL.
   */
  datatype Failure =
    | OutOfBounds            // spc_read: abort()
    | MissingTerminator      // spc_read_str found no zero byte; strdup(NULL) follows
    | UnknownTag(tag: u32)   // spc_deserialize_value: exit(-1)
    | PeekPastEnd            // a descriptor's type byte lies beyond the message
    | BadDescriptor(kind: byte) // spc_deserialize: exit(-1)
    | ConnectionInterrupted  // message id 71: exit(-1)
    | BadMagic               // returns NULL
    | NotADict               // returns NULL
  {
    predicate IsFatal() {
      !BadMagic? && !NotADict?
    }
  }

  function Reversed<T>(s: seq<T>): (r: seq<T>)
    ensures |r| == |s|
  {
    if s == [] then [] else Reversed(s[1..]) + [s[0]]
  }

  lemma {:induction false} AppendAssoc<T>(a: seq<T>, b: seq<T>, c: seq<T>)
    ensures (a + b) + c == a + (b + c)
  {
  }

  lemma {:induction false} ReversedCons<T>(h: T, t: seq<T>)
    ensures Reversed([h] + t) == Reversed(t) + [h]
  {
    assert ([h] + t)[1..] == t;
  }
}

/**
 * The SequentialId value: four signed 32-bit fields (timestamp, machine, pid,
 * random), its fixed 16-byte big-endian encoding, field-wise equality, ordering
 * by timestamp alone and the hash over timestamp and random.
 */
module SequentialIds {
  import opened TwosComplement

  /** The exceptions the identifier throws on bad input. */
  datatype Error =
    | NullInput        // ArgumentNullException
    | InvalidLength    // ArgumentException for a buffer that is not 16 bytes long
    | InvalidArgument  // ArgumentException for an argument of another type

  datatype Result<T> = Ok(value: T) | Err(error: Error)

  datatype Option<T> = None | Some(value: T)

  /** An immutable identifier; the fields are listed in the order of the binary layout. */
  datatype SequentialId = SequentialId(timestamp: int32, machine: int32, pid: int32, random: int32)

  /** An argument of static type `object`, as the untyped overloads receive it. */
  datatype Object = Null | Boxed(id: SequentialId) | OtherType

  /** `SequentialId.Empty`, the default value of the struct. */
  const Empty: SequentialId := SequentialId(0, 0, 0, 0)

  /** Ticks (100 ns units) from 0001-01-01 to the Unix epoch 1970-01-01T00:00:00Z. */
  const UNIX_EPOCH_TICKS: int := 621_355_968_000_000_000
  const TICKS_PER_SECOND: int := 10_000_000

  // ---------------------------------------------------------------------------
  // Binary layout

  /** Four bytes read as an unsigned big-endian number. */
  function BigEndian(w: seq<byte>): (n: nat)
    requires |w| == 4
    ensures n < TWO32
  {
    (w[0] as int) * 0x100_0000 + (w[1] as int) * 0x1_0000 + (w[2] as int) * 0x100 + (w[3] as int)
  }

  /** The four bytes `ToByteArray` writes for one field: `(byte)(x >> 24)` down to `(byte)x`. */
  function Int32Bytes(x: int32): (w: seq<byte>)
    ensures |w| == 4
  {
    [ToByte(ShiftRight(x, 24)), ToByte(ShiftRight(x, 16)), ToByte(ShiftRight(x, 8)), ToByte(x)]
  }

  /** One field as the decoding constructor computes it: `(b0 << 24) + (b1 << 16) + (b2 << 8) + b3`. */
  function ReadInt32(b0: byte, b1: byte, b2: byte, b3: byte): int32
  {
    Wrap32(Wrap32(Wrap32(ShiftLeft(b0, 24) + ShiftLeft(b1, 16)) + ShiftLeft(b2, 8)) + b3)
  }

  /** The shifts and wrapping additions of the decoder give the field whose bit pattern is the big-endian number. */
  lemma ReadInt32Value(b0: byte, b1: byte, b2: byte, b3: byte)
    ensures ReadInt32(b0, b1, b2, b3) == Signed(BigEndian([b0, b1, b2, b3]))
  {
    Pow2Values();
    assert ShiftLeft(b1, 16) == b1 * 0x1_0000;
    assert ShiftLeft(b2, 8) == b2 * 0x100;
    if b0 < 128 {
      assert ShiftLeft(b0, 24) == b0 * 0x100_0000;
    } else {
      assert ShiftLeft(b0, 24) == b0 * 0x100_0000 - TWO32;
    }
  }

  /** An arithmetic shift followed by a byte cast sees the same byte as in the unsigned bit pattern. */
  lemma ByteOfBits(x: int32, d: nat)
    requires d == 1 || d == 0x100 || d == 0x1_0000 || d == 0x100_0000
    ensures (x / d) % 256 == (Bits(x) / d) % 256
  {
    if x < 0 {
      var u := x + TWO32;
      assert Bits(x) == u;
      var k := TWO32 / d;
      assert k % 256 == 0;
      DivShift(x, d, k);
      ModShift(x / d, k / 256);
    }
  }

  /** Adding a multiple of `d` to a number adds that many to its quotient by `d`. */
  lemma DivShift(x: int, d: nat, k: int)
    requires d == 1 || d == 0x100 || d == 0x1_0000 || d == 0x100_0000
    ensures (x + k * d) / d == x / d + k
  {
    if d == 1 {
    } else if d == 0x100 {
    } else if d == 0x1_0000 {
    } else {
    }
  }

  lemma ModShift(y: int, k: int)
    ensures (y + k * 256) % 256 == y % 256
  {
  }

  /** A number below 2^32 is the sum of its four base-256 digits. */
  lemma Digits(u: nat)
    requires u < TWO32
    ensures (u / 0x100_0000) % 256 * 0x100_0000 + (u / 0x1_0000) % 256 * 0x1_0000
            + (u / 0x100) % 256 * 0x100 + u % 256 == u
  {
  }

  /** The bytes written for a field are its bit pattern, most significant byte first. */
  lemma Int32BytesValue(x: int32)
    ensures BigEndian(Int32Bytes(x)) == Bits(x)
  {
    Pow2Values();
    var w := Int32Bytes(x);
    var u := Bits(x);
    ByteOfBits(x, 0x100_0000);
    ByteOfBits(x, 0x1_0000);
    ByteOfBits(x, 0x100);
    ByteOfBits(x, 1);
    assert w[0] == (u / 0x100_0000) % 256;
    assert w[1] == (u / 0x1_0000) % 256;
    assert w[2] == (u / 0x100) % 256;
    assert w[3] == u % 256;
    Digits(u);
  }

  lemma DivModUnique(n: int, m: int, q: int, r: int)
    requires m == 0x100 || m == 0x1_0000 || m == 0x100_0000
    requires 0 <= r < m && n == q * m + r
    ensures n / m == q && n % m == r
  {
    if m == 0x100 {
    } else if m == 0x1_0000 {
    } else {
    }
  }

  /** Four bytes are the base-256 digits of the number they denote. */
  lemma BigEndianDigits(w: seq<byte>)
    requires |w| == 4
    ensures w[3] == BigEndian(w) % 0x100
    ensures w[2] == (BigEndian(w) / 0x100) % 0x100
    ensures w[1] == (BigEndian(w) / 0x1_0000) % 0x100
    ensures w[0] == BigEndian(w) / 0x100_0000
  {
    var n := BigEndian(w);
    var a0, a1, a2, a3 := w[0] as int, w[1] as int, w[2] as int, w[3] as int;
    DivModUnique(n, 0x100, a0 * 0x1_0000 + a1 * 0x100 + a2, a3);
    DivModUnique(n / 0x100, 0x100, a0 * 0x100 + a1, a2);
    DivModUnique(n, 0x1_0000, a0 * 0x100 + a1, a2 * 0x100 + a3);
    DivModUnique(n / 0x1_0000, 0x100, a0, a1);
    DivModUnique(n, 0x100_0000, a0, a1 * 0x1_0000 + a2 * 0x100 + a3);
  }

  /** Writing the field that four bytes denote gives those four bytes back. */
  lemma Int32BytesOfValue(w: seq<byte>)
    requires |w| == 4
    ensures Int32Bytes(Signed(BigEndian(w))) == w
  {
    var x := Signed(BigEndian(w));
    Int32BytesValue(x);
    var v := Int32Bytes(x);
    assert BigEndian(v) == BigEndian(w);
    BigEndianDigits(v);
    BigEndianDigits(w);
  }

  /** `ToByteArray` as a value: the four fields in layout order, each big-endian. */
  function Encode(id: SequentialId): (b: seq<byte>)
    ensures |b| == 16
  {
    Int32Bytes(id.timestamp) + Int32Bytes(id.machine) + Int32Bytes(id.pid) + Int32Bytes(id.random)
  }

  /**
   * Bytes 4k..4k+3 of the encoding are the big-endian bit pattern of field k,
   * for the fields timestamp, machine, pid and random in that order.
   */
  lemma EncodeLayout(id: SequentialId)
    ensures |Encode(id)| == 16
    ensures BigEndian(Encode(id)[0..4]) == Bits(id.timestamp)
    ensures BigEndian(Encode(id)[4..8]) == Bits(id.machine)
    ensures BigEndian(Encode(id)[8..12]) == Bits(id.pid)
    ensures BigEndian(Encode(id)[12..16]) == Bits(id.random)
  {
    var b := Encode(id);
    assert b[0..4] == Int32Bytes(id.timestamp);
    assert b[4..8] == Int32Bytes(id.machine);
    assert b[8..12] == Int32Bytes(id.pid);
    assert b[12..16] == Int32Bytes(id.random);
    Int32BytesValue(id.timestamp);
    Int32BytesValue(id.machine);
    Int32BytesValue(id.pid);
    Int32BytesValue(id.random);
  }

  /** The body of the `SequentialId(byte[])` constructor once the buffer is known not to be null. */
  function Decode(b: seq<byte>): (r: Result<SequentialId>)
    ensures r.Err? <==> |b| != 16
    ensures r.Err? ==> r.error == InvalidLength
  {
    if |b| != 16 then Err(InvalidLength)
    else Ok(SequentialId(ReadInt32(b[0], b[1], b[2], b[3]),
                         ReadInt32(b[4], b[5], b[6], b[7]),
                         ReadInt32(b[8], b[9], b[10], b[11]),
                         ReadInt32(b[12], b[13], b[14], b[15])))
  }

  /** The `SequentialId(byte[])` constructor: a null buffer and a buffer of any length but 16 are refused. */
  function FromByteArray(b: array?<byte>): (r: Result<SequentialId>)
    reads b
    ensures b == null <==> r == Err(NullInput)
    ensures b != null && b.Length != 16 <==> r == Err(InvalidLength)
    ensures r.Ok? <==> b != null && b.Length == 16
  {
    if b == null then Err(NullInput) else Decode(b[..])
  }

  /** Decoding the encoding of an identifier gives back all four of its fields. */
  lemma DecodeEncode(id: SequentialId)
    ensures Decode(Encode(id)) == Ok(id)
  {
    var b := Encode(id);
    EncodeLayout(id);
    assert b[0..4] == [b[0], b[1], b[2], b[3]];
    assert b[4..8] == [b[4], b[5], b[6], b[7]];
    assert b[8..12] == [b[8], b[9], b[10], b[11]];
    assert b[12..16] == [b[12], b[13], b[14], b[15]];
    ReadInt32Value(b[0], b[1], b[2], b[3]);
    ReadInt32Value(b[4], b[5], b[6], b[7]);
    ReadInt32Value(b[8], b[9], b[10], b[11]);
    ReadInt32Value(b[12], b[13], b[14], b[15]);
    SignedOfBits(id.timestamp);
    SignedOfBits(id.machine);
    SignedOfBits(id.pid);
    SignedOfBits(id.random);
  }

  /** Re-encoding the field read from four bytes gives those bytes. */
  lemma FieldBytesRoundTrip(w: seq<byte>)
    requires |w| == 4
    ensures Int32Bytes(ReadInt32(w[0], w[1], w[2], w[3])) == w
  {
    ReadInt32Value(w[0], w[1], w[2], w[3]);
    assert [w[0], w[1], w[2], w[3]] == w;
    Int32BytesOfValue(w);
  }

  /** Every 16-byte buffer decodes, and encoding the result gives the same 16 bytes. */
  lemma EncodeDecode(b: seq<byte>)
    requires |b| == 16
    ensures Decode(b).Ok? && Encode(Decode(b).value) == b
  {
    var id := Decode(b).value;
    FieldBytesRoundTrip(b[0..4]);
    FieldBytesRoundTrip(b[4..8]);
    FieldBytesRoundTrip(b[8..12]);
    FieldBytesRoundTrip(b[12..16]);
    assert Int32Bytes(id.timestamp) == b[0..4];
    assert Int32Bytes(id.machine) == b[4..8];
    assert Int32Bytes(id.pid) == b[8..12];
    assert Int32Bytes(id.random) == b[12..16];
    assert b == b[0..4] + b[4..8] + b[8..12] + b[12..16];
  }

  /** `ToByteArray`: a new 16-byte array filled one index at a time. */
  method ToByteArray(id: SequentialId) returns (b: array<byte>)
    ensures fresh(b)
    ensures b.Length == 16 && b[..] == Encode(id)
    ensures FromByteArray(b) == Ok(id)
  {
    b := new byte[16];
    b[0] := ToByte(ShiftRight(id.timestamp, 24));
    b[1] := ToByte(ShiftRight(id.timestamp, 16));
    b[2] := ToByte(ShiftRight(id.timestamp, 8));
    b[3] := ToByte(id.timestamp);
    b[4] := ToByte(ShiftRight(id.machine, 24));
    b[5] := ToByte(ShiftRight(id.machine, 16));
    b[6] := ToByte(ShiftRight(id.machine, 8));
    b[7] := ToByte(id.machine);
    b[8] := ToByte(ShiftRight(id.pid, 24));
    b[9] := ToByte(ShiftRight(id.pid, 16));
    b[10] := ToByte(ShiftRight(id.pid, 8));
    b[11] := ToByte(id.pid);
    b[12] := ToByte(ShiftRight(id.random, 24));
    b[13] := ToByte(ShiftRight(id.random, 16));
    b[14] := ToByte(ShiftRight(id.random, 8));
    b[15] := ToByte(id.random);
    assert b[..] == Encode(id);
    DecodeEncode(id);
  }

  /** The empty identifier is sixteen zero bytes, and sixteen zero bytes decode to it. */
  lemma EmptyEncoding()
    ensures Encode(Empty) == seq(16, _ => 0)
    ensures Decode(seq(16, _ => 0)) == Ok(Empty)
  {
    Pow2Values();
    assert Encode(Empty) == seq(16, _ => 0);
    DecodeEncode(Empty);
  }

  // ---------------------------------------------------------------------------
  // Points in time

  /** `ToTimestamp`: the Unix epoch plus `timestamp` seconds, as a count of ticks. */
  function ToTimestamp(id: SequentialId): (t: int)
    ensures (t - UNIX_EPOCH_TICKS) % TICKS_PER_SECOND == 0
    ensures (t - UNIX_EPOCH_TICKS) / TICKS_PER_SECOND == id.timestamp
  {
    UNIX_EPOCH_TICKS + id.timestamp * TICKS_PER_SECOND
  }

  /** An identifier read back from its bytes names the same point in time. */
  lemma TimestampSurvivesRoundTrip(id: SequentialId)
    ensures Decode(Encode(id)).Ok?
    ensures ToTimestamp(Decode(Encode(id)).value) == ToTimestamp(id)
  {
    DecodeEncode(id);
  }

  // ---------------------------------------------------------------------------
  // Equality

  /** `Equals(SequentialId)`: the fields are compared random first, then timestamp, machine and pid. */
  function Equals(a: SequentialId, other: SequentialId): (r: bool)
    ensures r <==> a == other
  {
    if a.random != other.random then false
    else if a.timestamp != other.timestamp then false
    else if a.machine != other.machine then false
    else if a.pid != other.pid then false
    else true
  }

  /** `Equals(object)`: false for null, an exception for an object of another type. */
  function EqualsObject(a: SequentialId, obj: Object): (r: Result<bool>)
    ensures obj == Null ==> r == Ok(false)
    ensures obj == OtherType ==> r == Err(InvalidArgument)
    ensures obj.Boxed? ==> r.Ok? && (r.value <==> obj.id == a)
  {
    match obj
    case Null => Ok(false)
    case OtherType => Err(InvalidArgument)
    case Boxed(other) => Ok(Equals(a, other))
  }

  /** `operator ==(SequentialId, SequentialId)`. */
  function OpEquals(a: SequentialId, b: SequentialId): (r: bool)
    ensures r <==> a == b
  {
    Equals(a, b)
  }

  /** `operator !=(SequentialId, SequentialId)`. */
  function OpNotEquals(a: SequentialId, b: SequentialId): (r: bool)
    ensures r <==> a != b
  {
    !OpEquals(a, b)
  }

  // ---------------------------------------------------------------------------
  // Ordering

  /** `CompareTo(SequentialId)`: the sign of the difference of the timestamps; the other fields are not looked at. */
  function CompareTo(a: SequentialId, other: SequentialId): (r: int)
    ensures r == -1 || r == 0 || r == 1
    ensures r < 0 <==> a.timestamp < other.timestamp
    ensures r > 0 <==> a.timestamp > other.timestamp
  {
    if other.timestamp != a.timestamp then
      (if a.timestamp < other.timestamp then -1 else 1)
    else 0
  }

  /** `CompareTo(object)`: null sorts first, an object of another type is an error. */
  function CompareToObject(a: SequentialId, obj: Object): (r: Result<int>)
    ensures obj == Null ==> r == Ok(1)
    ensures obj == OtherType ==> r == Err(InvalidArgument)
    ensures obj.Boxed? ==> r.Ok? && (r.value < 0 <==> a.timestamp < obj.id.timestamp)
                                  && (r.value == 0 <==> a.timestamp == obj.id.timestamp)
  {
    match obj
    case Null => Ok(1)
    case OtherType => Err(InvalidArgument)
    case Boxed(other) => Ok(CompareTo(a, other))
  }

  lemma CompareAntisymmetric(a: SequentialId, b: SequentialId)
    ensures CompareTo(a, b) == -CompareTo(b, a)
  {
  }

  lemma CompareTransitive(a: SequentialId, b: SequentialId, c: SequentialId)
    requires CompareTo(a, b) <= 0 && CompareTo(b, c) <= 0
    ensures CompareTo(a, c) <= 0
  {
  }

  /** Identifiers from the same second compare as equal whatever their machine, pid and random. */
  lemma CompareIgnoresOtherFields(a: SequentialId, b: SequentialId)
    requires a.timestamp == b.timestamp
    ensures CompareTo(a, b) == 0
  {
  }

  lemma EqualsImpliesCompareZero(a: SequentialId, b: SequentialId)
    requires Equals(a, b)
    ensures CompareTo(a, b) == 0
  {
  }

  /** Ordering is coarser than equality: two ids of the same second that differ only in random. */
  lemma CompareZeroDoesNotImplyEquals(machine: int32, pid: int32)
    ensures var a, b := SequentialId(100, machine, pid, 1), SequentialId(100, machine, pid, 2);
            CompareTo(a, b) == 0 && !Equals(a, b)
  {
  }

  /** The ordering is the order of the points in time the identifiers name. */
  lemma CompareAgreesWithToTimestamp(a: SequentialId, b: SequentialId)
    ensures CompareTo(a, b) < 0 <==> ToTimestamp(a) < ToTimestamp(b)
    ensures CompareTo(a, b) == 0 <==> ToTimestamp(a) == ToTimestamp(b)
  {
  }

  // ---------------------------------------------------------------------------
  // Hashing

  const PRIME_INITIALIZER: int32 := 17
  const PRIME_MULTIPLIER: int32 := 37

  /**
   * `GetHashCode`: unchecked `((17 * 37) ^ timestamp) * 37 ^ random`; machine and
   * pid are left out. The step that mixes in the random value can be undone:
   * once the timestamp is known, the random value is recovered from the hash.
   */
  function HashCode(id: SequentialId): (h: int32)
    ensures Xor32(Mul32(Xor32(Mul32(PRIME_INITIALIZER, PRIME_MULTIPLIER), id.timestamp), PRIME_MULTIPLIER), h) == id.random
  {
    var h := Xor32(Mul32(PRIME_INITIALIZER, PRIME_MULTIPLIER), id.timestamp);
    var key := Mul32(h, PRIME_MULTIPLIER);
    Xor32Cancel(key, id.random);
    Xor32(key, id.random)
  }

  /** Only timestamp and random feed the hash. */
  lemma HashIgnoresMachineAndPid(a: SequentialId, b: SequentialId)
    requires a.timestamp == b.timestamp && a.random == b.random
    ensures HashCode(a) == HashCode(b)
  {
  }

  /** Equal identifiers have equal hash codes. */
  lemma EqualsImpliesEqualHash(a: SequentialId, b: SequentialId)
    requires Equals(a, b)
    ensures HashCode(a) == HashCode(b)
  {
  }

  /** Identifiers of the same second with different random values never share a hash code. */
  lemma HashSeparatesRandoms(a: SequentialId, b: SequentialId)
    requires a.timestamp == b.timestamp && a.random != b.random
    ensures HashCode(a) != HashCode(b)
  {
    var h := Xor32(Mul32(PRIME_INITIALIZER, PRIME_MULTIPLIER), a.timestamp);
    Xor32Injective(Mul32(h, PRIME_MULTIPLIER), a.random, b.random);
  }

  /** Identifiers with the same random value and different seconds never share a hash code. */
  lemma HashSeparatesTimestamps(a: SequentialId, b: SequentialId)
    requires a.random == b.random && a.timestamp != b.timestamp
    ensures HashCode(a) != HashCode(b)
  {
    var k := Mul32(PRIME_INITIALIZER, PRIME_MULTIPLIER);
    var ha, hb := Xor32(k, a.timestamp), Xor32(k, b.timestamp);
    Xor32Injective(k, a.timestamp, b.timestamp);
    Mul37Injective(ha, hb);
    XorCommutes(Mul32(ha, PRIME_MULTIPLIER), a.random);
    XorCommutes(Mul32(hb, PRIME_MULTIPLIER), b.random);
    Xor32Injective(a.random, Mul32(ha, PRIME_MULTIPLIER), Mul32(hb, PRIME_MULTIPLIER));
  }

  // ---------------------------------------------------------------------------
  // Comparison with a byte array

  /**
   * `operator ==(byte[], SequentialId)` as written: its body `x == y` resolves to
   * the same operator, so each call makes one more identical call and none returns.
   * `depth` bounds how many of those calls the model unfolds; None means no value yet.
   * The operators `!=(byte[], SequentialId)`, `==(SequentialId, byte[])` and
   * `!=(SequentialId, byte[])` reach the same kind of self-call.
   */
  function EqualsByteArrayAsWritten(x: array?<byte>, y: SequentialId, depth: nat): (r: Option<bool>)
  {
    if depth == 0 then None else EqualsByteArrayAsWritten(x, y, depth - 1)
  }

  /** However deep the calls go, the operator as written produces no value. */
  lemma {:induction false} EqualsByteArrayNeverReturns(x: array?<byte>, y: SequentialId, depth: nat)
    ensures EqualsByteArrayAsWritten(x, y, depth) == None
  {
    if depth > 0 {
      EqualsByteArrayNeverReturns(x, y, depth - 1);
    }
  }

  /** The intended byte-array equality: the array holds exactly the 16 bytes of the identifier. */
  function EqualsByteArray(x: array?<byte>, y: SequentialId): bool
    reads x
  {
    x != null && x[..] == Encode(y)
  }

  /** A byte array equals an identifier exactly when it decodes to that identifier. */
  lemma EqualsByteArrayMeansDecodes(x: array?<byte>, y: SequentialId)
    ensures EqualsByteArray(x, y) <==> FromByteArray(x) == Ok(y)
  {
    DecodeEncode(y);
    if x != null && x.Length == 16 {
      EncodeDecode(x[..]);
    }
  }
}

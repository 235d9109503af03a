# SequentialId in Dafny

A model of the `SequentialId` struct: an immutable 128-bit identifier that is ordered by time. It is built from four signed 32-bit fields: `timestamp` (seconds since the Unix epoch), `machine` (machine-name hash plus application-domain id), `pid` (the process id) and `random` (a process-wide counter). The model covers:

- the 16-byte big-endian binary form (`ToByteArray` and the `SequentialId(byte[])` constructor);
- field-wise equality, with its `object` overload and the `==` / `!=` operators;
- the ordering, which compares timestamps only;
- the hash over `timestamp` and `random`;
- the process-wide state: the machine and process signatures, and the shared counter that every counter-based constructor advances.

Files:

- `twos_complement.dfy` (module `TwosComplement`) defines the C# `int` and `byte` operations the struct uses, over unbounded integers. These are unchecked wrapping arithmetic, `<<`, the arithmetic `>>`, the truncating `(byte)` cast and `^`. Exclusive or is defined bit by bit on the 32-bit pattern.
- `sequential_id.dfy` (module `SequentialIds`) holds the value type, the codec, equality, ordering and hashing, as functions and lemmas. `ToByteArray` is a method that fills a new 16-byte array one index at a time.
- `generator.dfy` (module `Generation`) models the static fields as a `Generator` object created once per process. Its `randomSeed` field is advanced by `WithTimestamp`, the model of `new SequentialId(int)`. A ghost list of the random values issued so far carries the uniqueness argument.

Modelling choices:

- A C# `object` argument is the datatype `Object`, which is `Null`, a boxed identifier, or a value of another type.
- Exceptions are the `Err` side of a `Result`.
- A `byte[]` is `array?<byte>`.
- The C# code runs in the default unchecked context, so every `int` operation is wrapped to 32 bits explicitly.

## Model

| member | source | states |
|---|---|---|
| `TwosComplement.Xor32Injective` | SequentialId/SequentialId.cs:127-130 | for a fixed left operand, the hash's `^` step sends different `int`s to different results |
| `TwosComplement.Mul37Injective` | SequentialId/SequentialId.cs:127-130 | unchecked multiplication by the prime multiplier 37 sends different `int`s to different results |
| `SequentialIds.ReadInt32Value` | SequentialId/SequentialId.cs:83-86 | `(b0 << 24) + (b1 << 16) + (b2 << 8) + b3`, with wrapping shifts and additions, is the `int` whose bit pattern is the big-endian number b0 b1 b2 b3 |
| `SequentialIds.Int32BytesValue` | SequentialId/SequentialId.cs:97-112 | the bytes `(byte)(x >> 24)`, `(byte)(x >> 16)`, `(byte)(x >> 8)` and `(byte)x` are the big-endian digits of the bit pattern of `x`, negative `x` included |
| `SequentialIds.Int32BytesOfValue` | SequentialId/SequentialId.cs:83-112 | writing the field that four bytes denote gives the same four bytes back |
| `SequentialIds.Encode` | SequentialId/SequentialId.cs:93-115 | the value `ToByteArray` writes always has exactly 16 bytes; its layout is stated by `EncodeLayout` |
| `SequentialIds.EncodeLayout` | SequentialId/SequentialId.cs:93-115 | the encoding has exactly 16 bytes; bytes 4k..4k+3 are the big-endian bit pattern of field k, in the order timestamp, machine, pid, random |
| `SequentialIds.Decode` | SequentialId/SequentialId.cs:80-87 | decoding fails with `InvalidLength` exactly when the buffer is not 16 bytes long, whether shorter or longer; it never truncates or pads |
| `SequentialIds.FromByteArray` | SequentialId/SequentialId.cs:76-87 | a null array gives `NullInput`; a non-null array of length other than 16 gives `InvalidLength`; exactly the 16-byte arrays decode |
| `SequentialIds.DecodeEncode` | SequentialId/SequentialId.cs:76-115 | decoding the encoding of any identifier gives back all four of its fields |
| `SequentialIds.EncodeDecode` | SequentialId/SequentialId.cs:76-115 | every 16-byte buffer decodes, and re-encoding the result gives the same bytes, so the codec is a bijection |
| `SequentialIds.ToByteArray` | SequentialId/SequentialId.cs:93-115 | returns a new 16-element array holding the encoding; decoding that array gives the identifier back |
| `SequentialIds.EmptyEncoding` | SequentialId/SequentialId.cs:23 | `Empty` (all four fields zero) encodes to sixteen zero bytes, and sixteen zero bytes decode to `Empty` |
| `SequentialIds.ToTimestamp` | SequentialId/SequentialId.cs:117-120 | the result is the Unix epoch plus exactly `timestamp` whole seconds, counted in 100-nanosecond ticks |
| `SequentialIds.TimestampSurvivesRoundTrip` | SequentialId/SequentialId.cs:117-120 | an identifier decoded from the bytes of another names the same point in time |
| `SequentialIds.Equals` | SequentialId/SequentialId.cs:180-192 | true exactly when timestamp, machine, pid and random all match |
| `SequentialIds.EqualsObject` | SequentialId/SequentialId.cs:136-148 | null gives false; an object of another type gives `InvalidArgument`; a boxed identifier gives field-wise equality |
| `SequentialIds.OpEquals` | SequentialId/SequentialId.cs:225-228 | `==` holds exactly when the two identifiers are equal |
| `SequentialIds.OpNotEquals` | SequentialId/SequentialId.cs:220-223 | `!=` holds exactly when the two identifiers differ |
| `SequentialIds.CompareTo` | SequentialId/SequentialId.cs:169-178 | the result is -1, 0 or 1; it is negative exactly when this timestamp is smaller and positive exactly when it is larger |
| `SequentialIds.CompareToObject` | SequentialId/SequentialId.cs:155-167 | null gives 1; an object of another type gives `InvalidArgument`; a boxed identifier is compared by timestamp |
| `SequentialIds.CompareAntisymmetric` | SequentialId/SequentialId.cs:169-178 | compare(a, b) = -compare(b, a) |
| `SequentialIds.CompareTransitive` | SequentialId/SequentialId.cs:169-178 | the order is transitive |
| `SequentialIds.CompareIgnoresOtherFields` | SequentialId/SequentialId.cs:169-178 | identifiers with the same timestamp compare as 0, whatever their machine, pid and random |
| `SequentialIds.EqualsImpliesCompareZero` | SequentialId/SequentialId.cs:169-192 | equal identifiers compare as 0 |
| `SequentialIds.CompareZeroDoesNotImplyEquals` | SequentialId/SequentialId.cs:169-192 | (100, m, p, 1) and (100, m, p, 2) compare as 0 but are not equal |
| `SequentialIds.CompareAgreesWithToTimestamp` | SequentialId/SequentialId.cs:117-120 | the order of identifiers is the order of the points in time they name |
| `SequentialIds.HashCode` | SequentialId/SequentialId.cs:122-134 | unchecked `((17*37) ^ timestamp) * 37 ^ random`, with machine and pid not read; given the timestamp, the random value is recovered from the hash by the same exclusive or |
| `SequentialIds.HashIgnoresMachineAndPid` | SequentialId/SequentialId.cs:122-134 | identifiers that agree on timestamp and random have the same hash code, whatever their machine and pid |
| `SequentialIds.EqualsImpliesEqualHash` | SequentialId/SequentialId.cs:122-134 | equal identifiers have equal hash codes |
| `SequentialIds.HashSeparatesRandoms` | SequentialId/SequentialId.cs:122-134 | identifiers with the same timestamp and different random values have different hash codes |
| `SequentialIds.HashSeparatesTimestamps` | SequentialId/SequentialId.cs:122-134 | identifiers with the same random value and different timestamps have different hash codes |
| `SequentialIds.EqualsByteArrayNeverReturns` | SequentialId/SequentialId.cs:257-260 | `==(byte[], SequentialId)` as written never produces a value, however deep its self-calls are unfolded |
| `SequentialIds.EqualsByteArrayMeansDecodes` | SequentialId/SequentialId.cs:252-270 | the corrected byte-array equality holds exactly when the array decodes to the identifier |
| `Generation.Advance` | SequentialId/SequentialId.cs:60-62 | n successive wrapping increments of the shared counter add n to its seed modulo 2^32 |
| `Generation.AdvanceDistinct` | SequentialId/SequentialId.cs:60-62 | counter values fewer than 2^32 increments apart differ |
| `Generation.Generator.constructor` | SequentialId/SequentialId.cs:16-18 | the machine signature is the unchecked sum of machine hash and application id; the pid is the process id; the counter starts at the seed, with nothing issued yet |
| `Generation.Generator.WithRandom` | SequentialId/SequentialId.cs:68-74 | stores exactly the given timestamp and random, with this process's machine and pid, and leaves the counter alone |
| `Generation.Generator.WithTimestamp` | SequentialId/SequentialId.cs:60-62 | the counter goes up by exactly one, wrapping at 32 bits; the new value becomes the random field; it differs from every random issued before, while fewer than 2^32 have been issued |
| `Generation.Generator.IssuedDistinct` | SequentialId/SequentialId.cs:18 | while at most 2^32 values have been issued, all random values issued by one process are pairwise distinct |
| `Generation.SuccessiveIdsDiffer` | SequentialId.Tests/u_SequentialId.cs:18-23 | two identifiers made one after the other from the counter take the next two counter values as their random fields, the generator stays valid with both values recorded as issued, and the two identifiers are not equal |

## Findings

| source | as written | input that shows it | evidently intended | confidence | as-written member | corrected member |
|---|---|---|---|---|---|---|
| SequentialId/SequentialId.cs:252-270 | the body of `operator ==(byte[] x, SequentialId y)` is `x == y`, which resolves to the same operator; `!=` and the mirrored `(SequentialId, byte[])` pair reach the same self-call | any call, e.g. `new byte[16] == SequentialId.Empty` | true exactly when the array holds the 16 bytes of the identifier (null and wrong lengths give false) | not executed; high, because C# overload resolution prefers the exactly matching user-defined operator | `SequentialIds.EqualsByteArrayNeverReturns` (over `EqualsByteArrayAsWritten`) | `SequentialIds.EqualsByteArrayMeansDecodes` (over `EqualsByteArray`) |

## Left out

- `ToString()`, `ToString(format)` and `ToString(format, provider)` (SequentialId/SequentialId.cs:150-153, 194-202) are not modelled. They format through `System.Guid(byte[])`, whose internal byte order is library behaviour outside this model.
- The implicit conversions to and from `Guid` (SequentialId/SequentialId.cs:208-217) are left out for the same reason.
- The `==` / `!=` operators between `Guid` and `SequentialId` (SequentialId/SequentialId.cs:231-249) are left out. Their bodies call themselves, like the byte-array operators under Findings, but the intended comparison would go through `Guid`'s byte order.
- `NewId()` (SequentialId/SequentialId.cs:276-279) reads the clock, which the model does not have; the seconds it would read are the `timestamp` argument of `WithTimestamp`.
- The `DateTime` constructors and `GetTimestampSeconds` (SequentialId/SequentialId.cs:56-58, 64-66, 297-300) take a `DateTime` and floor a `double` number of seconds. `Convert.ToInt32` then throws `OverflowException` for a value outside the `int` range rather than wrapping. Neither the `DateTime` arithmetic nor that exception is modelled; the model starts from the `int` seconds.
- `ToTimestamp`: modelled as the Unix epoch plus `timestamp` whole seconds, counted in 100-nanosecond ticks. The floating-point path of `DateTime.AddSeconds` and `DateTime`'s range checks are not modelled.
- `GetMachineHash`, `GetProcessId`, `GetApplicationId` and the thread-local `Random` (SequentialId/SequentialId.cs:15, 281-294) call the operating system and a random source. Their results are the arguments of the `Generator` constructor.
- `Generation.Generator.WithTimestamp`: the atomicity of `Interlocked.Increment` is not modelled, because concurrency is out of scope. The counter is advanced by one sequential step per call.
- The static fields are modelled as one `Generator` object per process rather than as global state, and the lazy initialisation order of static fields is not modelled.
- `[Serializable]` and the `IFormattable` interface (SequentialId/SequentialId.cs:12-13) have no behaviour of their own here.

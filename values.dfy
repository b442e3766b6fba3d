/**
 * The value types: the type map, the type-code byte, the 4-byte integer
 * codec and the Data accessors of Text and Integer.
 */
module Values {
  import opened Common
  import Alphabet

  /** A C# int: 32-bit signed. */
  newtype int32 = z: int | -0x8000_0000 <= z < 0x8000_0000

  const TwoTo32: int := 0x1_0000_0000

  /** The registered value types, in TypeMap order. */
  datatype ValueType = TextType | IntegerType

  const TypeMap: seq<ValueType> := [TextType, IntegerType]

  /** A decoded cell: a Text or an Integer instance holding its data. */
  datatype Value = Text(text: string) | Integer(number: int32)

  function TypeOf(v: Value): ValueType {
    match v
    case Text(_) => TextType
    case Integer(_) => IntegerType
  }

  /** Chain: a one-byte array holding b. */
  function Chain(b: byte): (r: seq<byte>)
    ensures |r| == 1 && r[0] == b
  {
    [b]
  }

  /** TypeMap.IndexOf: the position of a type in the type map. */
  function TypeIndex(t: ValueType): (i: nat)
    ensures i < |TypeMap| && TypeMap[i] == t
    ensures forall j :: 0 <= j < i ==> TypeMap[j] != t
  {
    match t
    case TextType => 0
    case IntegerType => 1
  }

  /**
   * TypeToBytes: the one-byte type code, type-map index plus the opcode
   * count; the type map read at that code minus the opcode count gives the
   * type back.
   */
  function TypeToBytes(t: ValueType): (r: seq<byte>)
    ensures |r| == 1
    ensures CommandCount <= r[0] as int < CommandCount + |TypeMap|
    ensures TypeMap[r[0] as int - CommandCount] == t
  {
    Chain((TypeIndex(t) + CommandCount) as byte)
  }

  /** Unsigned little-endian reading of the first four bytes. */
  function LittleEndian(b: seq<byte>): (u: int)
    requires |b| >= 4
    ensures 0 <= u < TwoTo32
  {
    b[0] as int + 0x100 * (b[1] as int + 0x100 * (b[2] as int + 0x100 * b[3] as int))
  }

  /** BitConverter.GetBytes(int): four bytes, little-endian two's complement. */
  function IntegerToBytes(z: int32): (r: seq<byte>)
    ensures |r| == 4
    ensures LittleEndian(r) == z as int % TwoTo32
  {
    var u := z as int % TwoTo32;
    var q1 := u / 0x100;
    var q2 := q1 / 0x100;
    var q3 := q2 / 0x100;
    [(u % 0x100) as byte, (q1 % 0x100) as byte, (q2 % 0x100) as byte, q3 as byte]
  }

  /**
   * BitConverter.ToInt32(byte[]): fails on fewer than four bytes, otherwise
   * reads the first four as a little-endian two's-complement number.
   */
  function BytesToInteger(bytes: seq<byte>): (r: Result<int32>)
    ensures r.Ok? <==> |bytes| >= 4
    ensures r.Ok? ==> r.value as int % TwoTo32 == LittleEndian(bytes)
  {
    if |bytes| < 4 then Err(TooFewIntegerBytes)
    else
      var u := LittleEndian(bytes);
      Ok((if u < 0x8000_0000 then u else u - TwoTo32) as int32)
  }

  /** Integer round-trip: reading back the four written bytes gives the number. */
  lemma IntegerRoundTrip(z: int32)
    ensures BytesToInteger(IntegerToBytes(z)) == Ok(z)
  {
    var r := BytesToInteger(IntegerToBytes(z));
    SameResidue(r.value, z);
  }

  /** Two 32-bit integers with the same residue modulo 2^32 are equal. */
  lemma SameResidue(a: int32, b: int32)
    requires a as int % TwoTo32 == b as int % TwoTo32
    ensures a == b
  {}

  /** Byte round-trip: the first four bytes are written back as read. */
  lemma BytesRoundTrip(bytes: seq<byte>)
    requires |bytes| >= 4
    ensures BytesToInteger(bytes).Ok?
    ensures IntegerToBytes(BytesToInteger(bytes).value) == bytes[..4]
  {
    var r := IntegerToBytes(BytesToInteger(bytes).value);
    LittleEndianInjective(r, bytes);
  }

  /** Equal little-endian readings have equal first four bytes. */
  lemma LittleEndianInjective(a: seq<byte>, b: seq<byte>)
    requires |a| == 4 && |b| >= 4 && LittleEndian(a) == LittleEndian(b)
    ensures a == b[..4]
  {
    DigitSplit(a[0] as int, a[1] as int + 0x100 * (a[2] as int + 0x100 * a[3] as int),
               b[0] as int, b[1] as int + 0x100 * (b[2] as int + 0x100 * b[3] as int));
    DigitSplit(a[1] as int, a[2] as int + 0x100 * a[3] as int,
               b[1] as int, b[2] as int + 0x100 * b[3] as int);
    DigitSplit(a[2] as int, a[3] as int, b[2] as int, b[3] as int);
  }

  lemma DigitSplit(d: int, h: int, d': int, h': int)
    requires 0 <= d < 0x100 && 0 <= d' < 0x100
    requires d + 0x100 * h == d' + 0x100 * h'
    ensures d == d' && h == h'
  {}

  /** Only the first four bytes of an Integer payload are read. */
  lemma BytesToIntegerPrefix(bytes: seq<byte>)
    requires |bytes| >= 4
    ensures BytesToInteger(bytes) == BytesToInteger(bytes[..4])
  {}

  /**
   * Activator.CreateInstance(t) followed by the Data setter: Text decodes
   * through the alphabet, Integer through BitConverter.
   */
  function DecodeValue(t: ValueType, bytes: seq<byte>): (r: Result<Value>)
    ensures r.Ok? ==> TypeOf(r.value) == t
    ensures t == TextType ==> (r.Ok? <==> Alphabet.DecodeBytes(bytes).Ok?)
    ensures t == IntegerType ==> (r.Ok? <==> |bytes| >= 4)
  {
    match t
    case TextType =>
      var s :- Alphabet.DecodeBytes(bytes);
      Ok(Text(s))
    case IntegerType =>
      var z :- BytesToInteger(bytes);
      Ok(Integer(z))
  }

  /** The Data getter of Text and Integer. */
  function EncodeValue(v: Value): (r: seq<byte>)
    ensures v.Integer? ==> |r| == 4
    ensures v.Text? ==> |r| == |v.text|
  {
    match v
    case Text(s) => Alphabet.EncodeString(s)
    case Integer(z) => IntegerToBytes(z)
  }

  /** A value whose text, if any, is written in the alphabet. */
  predicate Encodable(v: Value) {
    v.Text? ==> Alphabet.InAlphabet(v.text)
  }

  /** Setting Data to what the Data getter returned recreates the value. */
  lemma ValueRoundTrip(v: Value)
    requires Encodable(v)
    ensures DecodeValue(TypeOf(v), EncodeValue(v)) == Ok(v)
  {
    match v
    case Text(s) => Alphabet.DecodeEncode(s);
    case Integer(z) => IntegerRoundTrip(z);
  }

  /** Reading Data back after setting it gives the payload (its first four bytes for an Integer). */
  lemma PayloadRoundTrip(t: ValueType, bytes: seq<byte>)
    requires DecodeValue(t, bytes).Ok?
    ensures EncodeValue(DecodeValue(t, bytes).value) == if t == IntegerType then bytes[..4] else bytes
  {
    match t
    case TextType =>
      Alphabet.DecodeBytesAt(bytes);
      Alphabet.EncodeDecode(bytes);
    case IntegerType =>
      BytesRoundTrip(bytes);
  }
}

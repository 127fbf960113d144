// The parts of the protocol-buffer wire format that extensions use: varints, zig-zag and
// little-endian numbers, length-delimited strings, and tags.
module WireFormat {
  import opened Common

  const MAX_VARINT_BYTES := 10
  const TWO32 := 0x1_0000_0000
  const TWO64 := 0x1_0000_0000_0000_0000
  const INT32_MAX := 0x7fff_ffff

  // A parsed value and the bytes after it.
  datatype Parse<+T> = Parsed(value: T, rest: seq<byte>) | Malformed

  // ---- Varints ----

  function Varint(n: nat): (s: seq<byte>)
    ensures s != []
  {
    if n < 128 then [n] else [n % 128 + 128] + Varint(n / 128)
  }

  function ReadVarint(s: seq<byte>, budget: nat): (r: Parse<nat>)
    ensures r.Parsed? ==> |r.rest| < |s|
    decreases |s|
  {
    if budget == 0 || s == [] then Malformed
    else if s[0] < 128 then Parsed(s[0], s[1..])
    else
      match ReadVarint(s[1..], budget - 1)
      case Malformed => Malformed
      case Parsed(v, rest) => Parsed(s[0] - 128 + 128 * v, rest)
  }

  lemma {:induction false} VarintRoundTrip(n: nat, t: seq<byte>, budget: nat)
    requires |Varint(n)| <= budget
    ensures ReadVarint(Varint(n) + t, budget) == Parsed(n, t)
    decreases n
  {
    if n < 128 {
      assert ([n] + t)[1..] == t;
    } else {
      VarintRoundTrip(n / 128, t, budget - 1);
      var s := Varint(n) + t;
      assert s[1..] == Varint(n / 128) + t;
    }
  }

  // A varint cut short is refused.
  lemma {:induction false} VarintPrefixIsMalformed(n: nat, k: nat, budget: nat)
    requires k < |Varint(n)|
    ensures ReadVarint(Varint(n)[..k], budget).Malformed?
    decreases n
  {
    if k > 0 && budget > 0 {
      VarintPrefixIsMalformed(n / 128, k - 1, budget - 1);
      assert Varint(n)[..k][1..] == Varint(n / 128)[..k - 1];
    }
  }

  // CodedOutputStream::VarintSize64, which decides by comparison instead of writing.
  function VarintSize64(n: nat): nat {
    if n < 0x8_0000_0000 then
      if n < 0x80 then 1 else if n < 0x4000 then 2 else if n < 0x20_0000 then 3 else if n < 0x1000_0000 then 4 else 5
    else
      if n < 0x400_0000_0000 then 6 else if n < 0x2_0000_0000_0000 then 7 else if n < 0x100_0000_0000_0000 then 8
      else if n < 0x8000_0000_0000_0000 then 9 else 10
  }

  function VarintSize32(n: nat): nat {
    if n < 0x80 then 1 else if n < 0x4000 then 2 else if n < 0x20_0000 then 3 else if n < 0x1000_0000 then 4 else 5
  }

  lemma {:induction false} VarintSizeIsLength(n: nat)
    requires n < TWO64
    ensures |Varint(n)| == VarintSize64(n) <= MAX_VARINT_BYTES
    ensures n < TWO32 ==> |Varint(n)| == VarintSize32(n)
    decreases n
  {
    if n >= 128 { VarintSizeIsLength(n / 128); }
  }

  // ---- Little-endian numbers ----

  function LittleEndian(n: nat, bytes: nat): (s: seq<byte>)
    ensures |s| == bytes
    decreases bytes
  {
    if bytes == 0 then [] else [n % 256] + LittleEndian(n / 256, bytes - 1)
  }

  function FromLittleEndian(s: seq<byte>): nat {
    if s == [] then 0 else s[0] + 256 * FromLittleEndian(s[1..])
  }

  function Pow256(k: nat): nat { if k == 0 then 1 else 256 * Pow256(k - 1) }

  lemma {:induction false} LittleEndianRoundTrip(n: nat, bytes: nat)
    requires n < Pow256(bytes)
    ensures FromLittleEndian(LittleEndian(n, bytes)) == n
    decreases bytes
  {
    if bytes > 0 {
      LittleEndianRoundTrip(n / 256, bytes - 1);
      assert LittleEndian(n, bytes)[1..] == LittleEndian(n / 256, bytes - 1);
    }
  }

  lemma Pow256Values()
    ensures Pow256(4) == TWO32 && Pow256(8) == TWO64
  {
    assert Pow256(2) == 0x1_0000;
    assert Pow256(4) == 0x1_0000_0000;
    assert Pow256(6) == 0x1_0000_0000_0000;
  }

  function ReadLittleEndian(s: seq<byte>, bytes: nat): (r: Parse<nat>)
    ensures r.Parsed? ==> |r.rest| + bytes == |s|
  {
    if |s| < bytes then Malformed else Parsed(FromLittleEndian(s[..bytes]), s[bytes..])
  }

  // ---- Numbers of each declared type ----

  datatype FieldType = Double | Float | Int64 | UInt64 | Int32 | Fixed64 | Fixed32 | Bool | String | Bytes
                     | UInt32 | Enum | SFixed32 | SFixed64 | SInt32 | SInt64

  datatype WireType = WireVarint | WireFixed64 | WireLengthDelimited | WireFixed32

  function WireTypeFor(t: FieldType): WireType {
    match t
    case Double | Fixed64 | SFixed64 => WireFixed64
    case Float | Fixed32 | SFixed32 => WireFixed32
    case String | Bytes => WireLengthDelimited
    case _ => WireVarint
  }

  function WireNumber(w: WireType): nat {
    match w case WireVarint => 0 case WireFixed64 => 1 case WireLengthDelimited => 2 case WireFixed32 => 5
  }

  // A float or double is its bit pattern, a bool 0 or 1.
  datatype Value = Num(n: int) | Str(s: seq<byte>)

  predicate InRange(t: FieldType, v: Value) {
    match t
    case String | Bytes => v.Str? && |v.s| <= INT32_MAX
    case Int32 | SInt32 | SFixed32 | Enum => v.Num? && -0x8000_0000 <= v.n < 0x8000_0000
    case Int64 | SInt64 | SFixed64 => v.Num? && -0x8000_0000_0000_0000 <= v.n < 0x8000_0000_0000_0000
    case UInt32 | Fixed32 | Float => v.Num? && 0 <= v.n < TWO32
    case UInt64 | Fixed64 | Double => v.Num? && 0 <= v.n < TWO64
    case Bool => v.Num? && (v.n == 0 || v.n == 1)
  }

  function ZigZag(n: int): nat { if n >= 0 then 2 * n else -2 * n - 1 }

  function UnZigZag(u: nat): int { if u % 2 == 0 then u / 2 else -(u / 2) - 1 }

  // The unsigned number that goes on the wire; a negative int32 or enum is sign-extended to
  // 64 bits.
  function ToWire(t: FieldType, n: int): int {
    match t
    case SInt32 | SInt64 => ZigZag(n)
    case SFixed32 => if n < 0 then n + TWO32 else n
    case _ => if n < 0 then n + TWO64 else n
  }

  function Signed32(u: nat): int { var w := u % TWO32; if w < 0x8000_0000 then w else w - TWO32 }

  function Signed64(u: nat): int { var w := u % TWO64; if w < 0x8000_0000_0000_0000 then w else w - TWO64 }

  function FromWire(t: FieldType, u: nat): int {
    match t
    case Int32 | Enum | SFixed32 => Signed32(u)
    case Int64 | SFixed64 => Signed64(u)
    case SInt32 => UnZigZag(u % TWO32)
    case SInt64 => UnZigZag(u % TWO64)
    case UInt32 | Fixed32 | Float => u % TWO32
    case Bool => if u % TWO32 != 0 then 1 else 0
    case _ => u % TWO64
  }

  lemma ZigZagRoundTrip(n: int, half: int)
    requires -half <= n < half
    ensures 0 <= ZigZag(n) < 2 * half && UnZigZag(ZigZag(n)) == n
  {}

  lemma SignRoundTrip32(n: int)
    requires -0x8000_0000 <= n < 0x8000_0000
    ensures Signed32(if n < 0 then n + TWO32 else n) == n == Signed32(if n < 0 then n + TWO64 else n)
  {
    if n < 0 { assert n + TWO64 == (n + TWO32) + (TWO32 - 1) * TWO32; }
  }

  lemma SignRoundTrip64(n: int)
    requires -0x8000_0000_0000_0000 <= n < 0x8000_0000_0000_0000
    ensures Signed64(if n < 0 then n + TWO64 else n) == n
  {}

  lemma SmallRemainder(n: int, m: int)
    requires 0 <= n < m
    ensures n % m == n
  {}

  lemma {:induction false} NumberRoundTrip(t: FieldType, n: int)
    requires InRange(t, Num(n))
    ensures 0 <= ToWire(t, n) < if WireTypeFor(t).WireFixed32? then TWO32 else TWO64
    ensures FromWire(t, ToWire(t, n)) == n
  {
    match t
    case SInt32 =>
      ZigZagRoundTrip(n, 0x8000_0000);
      SmallRemainder(ZigZag(n), TWO32);
    case SInt64 =>
      ZigZagRoundTrip(n, 0x8000_0000_0000_0000);
      SmallRemainder(ZigZag(n), TWO64);
    case Int32 | Enum | SFixed32 => SignRoundTrip32(n);
    case Int64 | SFixed64 => SignRoundTrip64(n);
    case UInt32 | Fixed32 | Float | Bool => SmallRemainder(n, TWO32);
    case _ => SmallRemainder(n, TWO64);
  }

  // ---- Values ----

  function Encode(t: FieldType, v: Value): seq<byte>
    requires InRange(t, v)
  {
    match WireTypeFor(t)
    case WireVarint => (NumberRoundTrip(t, v.n); Varint(ToWire(t, v.n)))
    case WireFixed64 => (NumberRoundTrip(t, v.n); LittleEndian(ToWire(t, v.n), 8))
    case WireFixed32 => (NumberRoundTrip(t, v.n); LittleEndian(ToWire(t, v.n), 4))
    case WireLengthDelimited => Varint(|v.s|) + v.s
  }

  function ReadLength(s: seq<byte>): (r: Parse<seq<byte>>)
    ensures r.Parsed? ==> |r.rest| < |s|
  {
    match ReadVarint(s, MAX_VARINT_BYTES)
    case Malformed => Malformed
    case Parsed(u, rest) =>
      var n := u % TWO32;
      if n > INT32_MAX || n > |rest| then Malformed else Parsed(rest[..n], rest[n..])
  }

  function Decoded(t: FieldType, r: Parse<nat>): Parse<Value> {
    match r case Malformed => Malformed case Parsed(u, rest) => Parsed(Num(FromWire(t, u)), rest)
  }

  function Read(t: FieldType, s: seq<byte>): (r: Parse<Value>)
    ensures r.Parsed? ==> |r.rest| < |s|
  {
    match WireTypeFor(t)
    case WireVarint =>
      Decoded(t, ReadVarint(s, MAX_VARINT_BYTES))
    case WireFixed64 =>
      Decoded(t, ReadLittleEndian(s, 8))
    case WireFixed32 =>
      Decoded(t, ReadLittleEndian(s, 4))
    case WireLengthDelimited =>
      (match ReadLength(s) case Malformed => Malformed case Parsed(bytes, rest) => Parsed(Str(bytes), rest))
  }

  lemma {:induction false} LengthRoundTrip(bytes: seq<byte>, t: seq<byte>)
    requires |bytes| <= INT32_MAX
    ensures ReadLength(Varint(|bytes|) + bytes + t) == Parsed(bytes, t)
  {
    var n, after := |bytes|, bytes + t;
    var head := Varint(n);
    assert head + bytes + t == head + after;
    VarintSizeIsLength(n);
    VarintRoundTrip(n, after, MAX_VARINT_BYTES);
    assert n % TWO32 == n && after[..n] == bytes && after[n..] == t;
  }

  lemma {:induction false} FixedRoundTrip(u: nat, bytes: nat, t: seq<byte>)
    requires u < Pow256(bytes)
    ensures ReadLittleEndian(LittleEndian(u, bytes) + t, bytes) == Parsed(u, t)
  {
    LittleEndianRoundTrip(u, bytes);
    var s := LittleEndian(u, bytes) + t;
    assert s[..bytes] == LittleEndian(u, bytes) && s[bytes..] == t;
  }

  // Every value of every type comes back, with the bytes after it untouched.
  lemma {:induction false} ValueRoundTrip(t: FieldType, v: Value, rest: seq<byte>)
    requires InRange(t, v)
    ensures Read(t, Encode(t, v) + rest) == Parsed(v, rest) && Encode(t, v) != []
  {
    Pow256Values();
    match WireTypeFor(t)
    case WireVarint =>
      NumberRoundTrip(t, v.n);
      VarintSizeIsLength(ToWire(t, v.n));
      VarintRoundTrip(ToWire(t, v.n), rest, MAX_VARINT_BYTES);
    case WireFixed64 =>
      NumberRoundTrip(t, v.n);
      FixedRoundTrip(ToWire(t, v.n), 8, rest);
    case WireFixed32 =>
      NumberRoundTrip(t, v.n);
      FixedRoundTrip(ToWire(t, v.n), 4, rest);
    case WireLengthDelimited =>
      LengthRoundTrip(v.s, rest);
  }

  lemma LengthPrefixIsMalformed(bytes: seq<byte>, k: nat)
    requires |bytes| <= INT32_MAX && k < |Varint(|bytes|) + bytes|
    ensures ReadLength((Varint(|bytes|) + bytes)[..k]).Malformed?
  {
    var head := Varint(|bytes|);
    var s := (head + bytes)[..k];
    if k < |head| {
      assert s == head[..k];
      VarintPrefixIsMalformed(|bytes|, k, MAX_VARINT_BYTES);
    } else {
      assert s == head + bytes[..k - |head|];
      VarintSizeIsLength(|bytes|);
      VarintRoundTrip(|bytes|, bytes[..k - |head|], MAX_VARINT_BYTES);
    }
  }

  // No value of any type can be read from a proper prefix of its bytes.
  lemma {:induction false} ValuePrefixIsMalformed(t: FieldType, v: Value, k: nat)
    requires InRange(t, v) && k < |Encode(t, v)|
    ensures Read(t, Encode(t, v)[..k]).Malformed?
  {
    match WireTypeFor(t)
    case WireVarint =>
      NumberRoundTrip(t, v.n);
      VarintPrefixIsMalformed(ToWire(t, v.n), k, MAX_VARINT_BYTES);
    case WireLengthDelimited => LengthPrefixIsMalformed(v.s, k);
    case _ =>
  }

  // Whatever is read is a value of the type.
  lemma {:induction false} ReadIsInRange(t: FieldType, s: seq<byte>)
    requires Read(t, s).Parsed?
    ensures InRange(t, Read(t, s).value)
  {}

  // The size functions of WireFormatLite: Int32Size and its kin, and the fixed sizes.
  function SizeOf(t: FieldType, v: Value): nat
    requires InRange(t, v)
  {
    match t
    case String | Bytes => VarintSize32(|v.s|) + |v.s|
    case Double | Fixed64 | SFixed64 => 8
    case Float | Fixed32 | SFixed32 => 4
    case Bool => 1
    case Int32 | Enum => if v.n < 0 then 10 else VarintSize32(v.n)
    case UInt32 => VarintSize32(v.n)
    case SInt32 => VarintSize32(ZigZag(v.n))
    case UInt64 => VarintSize64(v.n)
    case Int64 => VarintSize64(if v.n < 0 then v.n + TWO64 else v.n)
    case SInt64 => VarintSize64(ZigZag(v.n))
  }

  lemma {:induction false} SizeIsLength(t: FieldType, v: Value)
    requires InRange(t, v)
    ensures |Encode(t, v)| == SizeOf(t, v)
  {
    match WireTypeFor(t)
    case WireVarint =>
      NumberRoundTrip(t, v.n);
      VarintSizeIsLength(ToWire(t, v.n));
    case WireLengthDelimited => VarintSizeIsLength(|v.s|);
    case _ =>
  }

  // ---- Tags ----

  const MAX_FIELD_NUMBER := 0x1fff_ffff

  function MakeTag(number: nat, w: WireType): nat { number * 8 + WireNumber(w) }

  lemma {:induction false} TagRoundTrip(number: nat, w: WireType, rest: seq<byte>)
    requires 1 <= number <= MAX_FIELD_NUMBER
    ensures ReadVarint(Varint(MakeTag(number, w)) + rest, MAX_VARINT_BYTES) == Parsed(MakeTag(number, w), rest)
    ensures MakeTag(number, w) % TWO32 == MakeTag(number, w) && MakeTag(number, w) / 8 == number &&
            MakeTag(number, w) % 8 == WireNumber(w)
    ensures |Varint(MakeTag(number, w))| == VarintSize32(MakeTag(number, w))
  {
    VarintSizeIsLength(MakeTag(number, w));
    VarintRoundTrip(MakeTag(number, w), rest, MAX_VARINT_BYTES);
  }
}

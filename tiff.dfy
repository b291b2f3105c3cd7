/**
 * TIFF 6.0 field types and the conversion of a tag's raw bytes into a typed
 * value, in the byte order named by the TIFF header ("II" little-endian,
 * otherwise big-endian).  The converters read like `BitConverter` on a
 * little-endian host after the `Array.Reverse` the decoder applies when the
 * file's order differs from the host's.
 */
module Tiff {
  import opened Bytes
  import opened Outcomes
  import opened ExifDates

  // ---------------------------------------------------------------------------
  // Field types (TIFF 6.0, Section 2, "Types")

  /** Bytes per component of the field types 1 to 12. */
  function Width(t: int): nat
    requires 1 <= t <= 12
  {
    if t == 1 || t == 2 || t == 6 || t == 7 then 1
    else if t == 3 || t == 8 then 2
    else if t == 4 || t == 9 || t == 11 then 4
    else 8
  }

  /** `GetTIFFFieldLength`: the component width, or an error for an unknown type. */
  function FieldLength(t: int): (r: Result<nat>)
    ensures r.Ok? <==> 1 <= t <= 12
    ensures r.Ok? ==> r.value == 1 || r.value == 2 || r.value == 4 || r.value == 8
    ensures r.Ok? && (t == 1 || t == 2 || t == 6 || t == 7) ==> r.value == 1
    ensures r.Ok? && (t == 3 || t == 8) ==> r.value == 2
    ensures r.Ok? && (t == 4 || t == 9 || t == 11) ==> r.value == 4
    ensures r.Ok? && (t == 5 || t == 10 || t == 12) ==> r.value == 8
    ensures r.Err? ==> r.error == UnknownTiffType(t)
    ensures r.Ok? ==> r.value == Width(t)
  {
    if 1 <= t <= 12 then Ok(Width(t)) else Err(UnknownTiffType(t))
  }

  /** The types whose values are numbers: every type except bytes (1), ASCII (2) and undefined (7). */
  predicate IsNumericType(t: int)
  {
    t == 3 || t == 4 || t == 5 || t == 6 || t == 8 || t == 9 || t == 10 || t == 11 || t == 12
  }

  /**
   * `(int)(numberOfComponents * fieldLength)`: the product is a `uint` that
   * wraps at 2^32 and is then reinterpreted as a signed `int`.
   */
  function DataSize(count: u32, w: nat): (r: int)
    requires w <= 8
    ensures -0x8000_0000 <= r < 0x8000_0000
    ensures count * w < 0x8000_0000 ==> r == count * w
    ensures (r - count * w) % 0x1_0000_0000 == 0
  {
    var product := (count * w) % 0x1_0000_0000;
    if product < 0x8000_0000 then product else product - 0x1_0000_0000
  }

  // ---------------------------------------------------------------------------
  // Byte-order converters

  /** The bytes `BitConverter` sees: reversed when the file's order is not the host's. */
  function HostOrder(data: seq<byte>, little: bool): (r: seq<byte>)
    ensures |r| == |data|
  {
    if little != HostIsLittleEndian then Reverse(data) else data
  }

  /** Reading the host-order bytes little-endian is reading the field in the file's byte order. */
  lemma HostOrderReadsFileOrder(data: seq<byte>, little: bool)
    ensures LittleEndian(HostOrder(data, little)) == if little then LittleEndian(data) else BigEndian(data)
  {
    if !little {
      ReversedLittleIsBig(data);
    }
  }

  /** `BitConverter.ToUIntN(data, 0)` for N = 8n: the first n host-order bytes, least significant first. */
  function HostUInt(data: seq<byte>, n: nat): (r: nat)
    requires n <= |data|
    ensures r < Pow256(n)
  {
    LittleEndianBound(data[..n]);
    LittleEndian(data[..n])
  }

  /**
   * `ToUShort`: `BitConverter.ToUInt16` of the field after the byte-order
   * reversal.  A longer field is reversed whole, so under "MM" the two bytes
   * read are its last two.
   */
  function ToUShort(data: seq<byte>, little: bool): u16
    requires |data| >= 2
  {
    if little then (data[0] as int) + 256 * (data[1] as int) else (data[|data| - 1] as int) + 256 * (data[|data| - 2] as int)
  }

  /** `ToUint`: `BitConverter.ToUInt32` of the four bytes after the byte-order reversal. */
  function ToUint(data: seq<byte>, little: bool): u32
    requires |data| == 4
  {
    if little then (data[0] as int) + 0x100 * (data[1] as int) + 0x1_0000 * (data[2] as int) + 0x100_0000 * (data[3] as int)
    else (data[3] as int) + 0x100 * (data[2] as int) + 0x1_0000 * (data[1] as int) + 0x100_0000 * (data[0] as int)
  }

  /** `ToInt`: the 32-bit two's-complement reading. */
  function ToInt(data: seq<byte>, little: bool): i32
    requires |data| == 4
  {
    var u := ToUint(data, little);
    if u < 0x8000_0000 then u else u - 0x1_0000_0000
  }

  /** `ToShort`: the 16-bit two's-complement reading. */
  function ToShort(data: seq<byte>, little: bool): (r: int)
    requires |data| == 2
    ensures -0x8000 <= r < 0x8000
  {
    var u := ToUShort(data, little);
    if u < 0x8000 then u else u - 0x1_0000
  }

  /** `(sbyte)(data[0] - byte.MaxValue)`: an unchecked narrowing to 8 bits. */
  function ToSByte(data: seq<byte>): (r: int)
    requires |data| >= 1
    ensures -0x80 <= r < 0x80
    ensures (r - (data[0] as int - 255)) % 0x100 == 0
  {
    var wrapped := (data[0] as int - 255) % 0x100;
    if wrapped < 0x80 then wrapped else wrapped - 0x100
  }

  /** The raw bits of a float or a double, in the file's byte order. */
  function ToBits(data: seq<byte>, little: bool): nat
  {
    if little then LittleEndian(data) else BigEndian(data)
  }

  /** Two bytes of the host-order field, least significant first. */
  lemma HostUIntOfTwo(h: seq<byte>)
    requires |h| >= 2
    ensures HostUInt(h, 2) == (h[0] as int) + 256 * (h[1] as int)
  {
    var low := h[..2];
    assert low[1..][1..] == [];
    assert LittleEndian(low[1..]) == h[1];
  }

  /** Four bytes of the host-order field, least significant first. */
  lemma HostUIntOfFour(h: seq<byte>)
    requires |h| == 4
    ensures HostUInt(h, 4) == (h[0] as int) + 0x100 * (h[1] as int) + 0x1_0000 * (h[2] as int) + 0x100_0000 * (h[3] as int)
  {
    assert h[..4] == h;
    var t1, t2, t3 := h[1..], h[2..], h[3..];
    assert t3[1..] == [] && t2[1..] == t3 && t1[1..] == t2;
    assert LittleEndian(t3) == h[3];
    assert LittleEndian(t2) == (h[2] as int) + 256 * (h[3] as int);
    assert LittleEndian(t1) == (h[1] as int) + 256 * (h[2] as int) + 0x1_0000 * (h[3] as int);
  }

  /** `ToUShort` is `BitConverter.ToUInt16` on the bytes after the reversal the decoder applies. */
  lemma ToUShortIsBitConverter(data: seq<byte>, little: bool)
    requires |data| >= 2
    ensures ToUShort(data, little) == HostUInt(HostOrder(data, little), 2)
  {
    HostUIntOfTwo(HostOrder(data, little));
  }

  /** `ToUint` is `BitConverter.ToUInt32` on the bytes after the reversal the decoder applies. */
  lemma ToUintIsBitConverter(data: seq<byte>, little: bool)
    requires |data| == 4
    ensures ToUint(data, little) == HostUInt(HostOrder(data, little), 4)
  {
    HostUIntOfFour(HostOrder(data, little));
  }

  /** `ToBits` is the host-order reading of the whole field. */
  lemma ToBitsIsBitConverter(data: seq<byte>, little: bool)
    ensures ToBits(data, little) == HostUInt(HostOrder(data, little), |data|)
  {
    assert HostOrder(data, little)[..|data|] == HostOrder(data, little);
    HostOrderReadsFileOrder(data, little);
  }

  /** A two-byte field reads as a little-endian number under "II" and a big-endian one under "MM". */
  lemma ToUShortReadsFileOrder(data: seq<byte>, little: bool)
    requires |data| == 2
    ensures ToUShort(data, little) == if little then LittleEndian(data) else BigEndian(data)
  {
    ToUShortIsBitConverter(data, little);
    assert HostOrder(data, little)[..2] == HostOrder(data, little);
    HostOrderReadsFileOrder(data, little);
  }

  /** A four-byte field reads as a little-endian number under "II" and a big-endian one under "MM". */
  lemma ToUintReadsFileOrder(data: seq<byte>, little: bool)
    requires |data| == 4
    ensures ToUint(data, little) == if little then LittleEndian(data) else BigEndian(data)
  {
    ToUintIsBitConverter(data, little);
    assert HostOrder(data, little)[..4] == HostOrder(data, little);
    HostOrderReadsFileOrder(data, little);
  }

  /** The signed readings are the two's-complement readings of the unsigned ones. */
  lemma SignedReadings(data: seq<byte>, little: bool)
    requires |data| == 4
    ensures ToInt(data, little) == Signed(ToUint(data, little), 4)
    ensures ToShort(data[..2], little) == Signed(ToUShort(data[..2], little), 2)
  {
    assert Pow256(2) == 0x1_0000;
    assert Pow256(4) == 0x1_0000_0000;
  }

  /** A 2-byte value decodes the same whether written little-endian under "II" or big-endian under "MM". */
  lemma ShortByteOrderRoundTrip(v: u16)
    ensures ToUShort(EncodeLittle(v, 2), true) == v
    ensures ToUShort(EncodeBig(v, 2), false) == v
  {
    assert Pow256(2) == 0x1_0000;
    ToUShortReadsFileOrder(EncodeLittle(v, 2), true);
    ToUShortReadsFileOrder(EncodeBig(v, 2), false);
    LittleRoundTrip(v, 2);
    BigRoundTrip(v, 2);
  }

  /** A 4-byte value decodes the same whether written little-endian under "II" or big-endian under "MM". */
  lemma LongByteOrderRoundTrip(v: u32)
    ensures ToUint(EncodeLittle(v, 4), true) == v
    ensures ToUint(EncodeBig(v, 4), false) == v
  {
    assert Pow256(4) == 0x1_0000_0000;
    ToUintReadsFileOrder(EncodeLittle(v, 4), true);
    ToUintReadsFileOrder(EncodeBig(v, 4), false);
    LittleRoundTrip(v, 4);
    BigRoundTrip(v, 4);
  }

  /**
   * `ToUShort` applied to a whole 4-byte value field keeps its low 16 bits,
   * in either byte order.
   */
  lemma UShortOfLongIsLow16Bits(data: seq<byte>, little: bool)
    requires |data| == 4
    ensures ToUShort(data, little) == ToUint(data, little) % 0x1_0000
  {
    var low := ToUShort(data, little);
    var high := if little then (data[2] as int) + 256 * (data[3] as int) else (data[1] as int) + 256 * (data[0] as int);
    assert ToUint(data, little) == low + 0x1_0000 * high;
  }

  /**
   * The signed-byte conversion is off by one: it gives the two's-complement
   * reading plus one, except that 0x7F gives -128.
   */
  lemma SByteIsShiftedByOne(b: byte)
    ensures ToSByte([b]) == if b == 0x7F then -0x80 else Signed(b, 1) + 1
  {
    assert Pow256(1) == 0x100;
  }

  // ---------------------------------------------------------------------------
  // Typed values

  datatype Element =
    | UByte(byteValue: byte)              // types 1 and 7
    | UShort(u16Value: u16)               // type 3
    | ULong(u32Value: u32)                // type 4
    | URational(unum: u32, uden: u32)     // type 5, the pair before the division
    | SByte(i8Value: int)                 // type 6
    | SShort(i16Value: int)               // type 8
    | SLong(i32Value: int)                // type 9
    | SRational(snum: int, sden: int)     // type 10, the pair before the division
    | Single(bits32: nat)                 // type 11, IEEE-754 bits
    | Double(bits64: nat)                 // type 12, IEEE-754 bits

  /** The converter GetTagValue selects for a numeric type, applied to one component. */
  function ToElement(t: int, little: bool, chunk: seq<byte>): Element
    requires IsNumericType(t) && |chunk| == Width(t)
  {
    match t
    case 3 => UShort(ToUShort(chunk, little))
    case 4 => ULong(ToUint(chunk, little))
    case 5 => URational(ToUint(chunk[..4], little), ToUint(chunk[4..], little))
    case 6 => SByte(ToSByte(chunk))
    case 8 => SShort(ToShort(chunk, little))
    case 9 => SLong(ToInt(chunk, little))
    case 10 => SRational(ToInt(chunk[..4], little), ToInt(chunk[4..], little))
    case 11 => Single(ToBits(chunk, little))
    case 12 => Double(ToBits(chunk, little))
  }

  /** A component width: every field type has one of these. */
  predicate IsWidth(w: nat)
  {
    w == 1 || w == 2 || w == 4 || w == 8
  }

  lemma ChunkFits(i: int, w: nat, n: nat)
    requires IsWidth(w)
    requires 0 <= i < n / w
    ensures 0 <= i * w && i * w + w <= n
  {
  }

  /** Component i of a field: bytes [i*w, (i+1)*w). */
  function Chunk(data: seq<byte>, w: nat, i: int): (r: seq<byte>)
    requires IsWidth(w) && 0 <= i < |data| / w
    ensures |r| == w
  {
    ChunkFits(i, w, |data|);
    data[i * w .. i * w + w]
  }

  /** What `GetArray` builds for a numeric type: one element per whole component in `data`. */
  function Elements(t: int, little: bool, data: seq<byte>): (r: seq<Element>)
    requires IsNumericType(t)
    ensures |r| == |data| / Width(t)
  {
    var w := Width(t);
    seq(|data| / w, i requires 0 <= i < |data| / w => ToElement(t, little, Chunk(data, w, i)))
  }

  /**
   * `GetArray`: element i is the converter applied to bytes [i*w, (i+1)*w);
   * a trailing partial component is dropped.
   */
  method GetArray<T(0)>(data: seq<byte>, w: nat, converter: seq<byte> --> T) returns (r: seq<T>)
    requires IsWidth(w)
    requires forall chunk: seq<byte> | |chunk| == w :: converter.requires(chunk)
    ensures |r| == |data| / w
    ensures forall i :: 0 <= i < |r| ==> r[i] == converter(Chunk(data, w, i))
  {
    var n := |data| / w;
    var converted := new T[n];
    var buffer: seq<byte>;
    for k := 0 to n
      invariant forall i :: 0 <= i < k ==> converted[i] == converter(Chunk(data, w, i))
    {
      // Place the bytes of element k in the buffer, then convert them.
      buffer := Chunk(data, w, k);
      converted[k] := converter(buffer);
    }
    r := converted[..];
  }

  /** `GetArray` called with the converter of a numeric type builds exactly `Elements`. */
  method GetElements(data: seq<byte>, t: int, little: bool) returns (r: seq<Element>)
    requires IsNumericType(t)
    ensures r == Elements(t, little, data)
  {
    r := GetArray(data, Width(t), chunk requires |chunk| == Width(t) => ToElement(t, little, chunk));
  }

  // ---------------------------------------------------------------------------
  // ASCII values

  /** `Encoding.UTF8.GetString`, exact for the 7-bit bytes of a TIFF ASCII field. */
  function AsChars(data: seq<byte>): (r: string)
    ensures |r| == |data|
  {
    seq(|data|, i requires 0 <= i < |data| => data[i] as char)
  }

  /** `str.Substring(0, str.IndexOf('\0'))`, or `str` when it holds no NUL. */
  function CutAtNul(s: string): (r: string)
    ensures r <= s
    ensures '\0' !in r
    ensures |r| < |s| ==> s[|r|] == '\0'
  {
    if s == [] || s[0] == '\0' then [] else [s[0]] + CutAtNul(s[1..])
  }

  // ---------------------------------------------------------------------------
  // Decoding a tag's bytes

  /** A tag entry as re-read from the stream, with its value bytes resolved. */
  datatype RawTag = RawTag(tiffType: u16, count: u32, data: seq<byte>)

  datatype TagValue =
    | Scalar(element: Element)            // one component
    | Vector(elements: seq<Element>)      // a numeric type with a count other than one
    | RawBytes(bytes: seq<byte>)          // types 1 and 7 with a count other than one
    | Text(text: string)                  // type 2
    | Date(date: DateTime)                // type 2 read as a date

  /** The type argument `T` of `GetTagValue<T>`, as far as the decoder's callers use it. */
  datatype Want = AnyType | UShortType | UIntType | DateTimeType

  /** Whether `(T)(object)v` succeeds. */
  predicate HasType(v: TagValue, want: Want)
  {
    match want
    case AnyType => true
    case UShortType => v.Scalar? && v.element.UShort?
    case UIntType => v.Scalar? && v.element.ULong?
    case DateTimeType => v.Date?
  }

  /**
   * The type switch of `GetTagValue`, applied to the bytes `GetTagBytes`
   * returned.  `asDate` is `typeof(T) == typeof(DateTime)`.
   */
  function DecodeValue(raw: RawTag, little: bool, asDate: bool): (r: Result<Lookup<TagValue>>)
    ensures !(1 <= raw.tiffType <= 12) ==> r == Err(UnknownTiffType(raw.tiffType))
    ensures r.Err? ==> r.error in {UnknownTiffType(raw.tiffType), EndOfStream, InvalidDateFormat}
  {
    var w :- FieldLength(raw.tiffType);
    var t := raw.tiffType;
    if t == 1 || t == 7 then
      if raw.count == 1 then
        if |raw.data| >= 1 then Ok(Found(Scalar(UByte(raw.data[0])))) else Err(EndOfStream)
      else Ok(Found(RawBytes(raw.data)))
    else if t == 2 then
      var text := CutAtNul(AsChars(raw.data));
      if asDate then
        match ToDateTime(text)
        case Ok(NotFound) => Ok(NotFound)
        case Ok(Found(d)) => Ok(Found(Date(d)))
        case Err(e) => Err(e)
      else Ok(Found(Text(text)))
    else if raw.count == 1 then
      if |raw.data| == w then Ok(Found(Scalar(ToElement(t, little, raw.data)))) else Err(EndOfStream)
    else
      Ok(Found(Vector(Elements(t, little, raw.data))))
  }

  /** `(T)(object)v`: the value itself, or InvalidCastException. */
  function Cast(v: TagValue, want: Want): (r: Result<TagValue>)
    ensures r.Ok? <==> HasType(v, want)
    ensures r.Ok? ==> r.value == v
    ensures r.Err? ==> r.error == InvalidCast
  {
    if HasType(v, want) then Ok(v) else Err(InvalidCast)
  }
  // ---------------------------------------------------------------------------
  // What the decoded values are

  /**
   * The variant follows the type and the count: ASCII gives text (or a date
   * when one is asked for), exactly one component a scalar, more than one
   * the raw bytes of types 1 and 7 or an array of elements.
   */
  lemma DecodedShape(raw: RawTag, little: bool, asDate: bool)
    requires DecodeValue(raw, little, asDate).Ok? && DecodeValue(raw, little, asDate).value.Found?
    ensures var v := DecodeValue(raw, little, asDate).value.value;
      && (raw.tiffType == 2 <==> v.Text? || v.Date?)
      && (v.Date? ==> asDate) && (v.Text? ==> !asDate)
      && (v.Scalar? <==> raw.tiffType != 2 && raw.count == 1)
      && (v.RawBytes? <==> (raw.tiffType == 1 || raw.tiffType == 7) && raw.count != 1)
      && (v.Vector? <==> IsNumericType(raw.tiffType) && raw.count != 1)
  {
  }

  /**
   * A numeric field with a count other than one decodes to one element per
   * whole component: element i is converted from bytes [i*w, (i+1)*w).
   */
  lemma DecodedVector(raw: RawTag, little: bool, asDate: bool)
    requires IsNumericType(raw.tiffType) && raw.count != 1
    ensures var r := DecodeValue(raw, little, asDate);
      r.Ok? && r.value.Found? && r.value.value.Vector?
    ensures var es := DecodeValue(raw, little, asDate).value.value.elements;
      var w := Width(raw.tiffType);
      && |es| == |raw.data| / w
      && forall i :: 0 <= i < |es| ==> es[i] == ToElement(raw.tiffType, little, Chunk(raw.data, w, i))
  {
  }

  /** One short written in the file's byte order decodes back to itself. */
  lemma DecodedShortRoundTrip(v: u16, little: bool)
    ensures DecodeValue(RawTag(3, 1, if little then EncodeLittle(v, 2) else EncodeBig(v, 2)), little, false)
      == Ok(Found(Scalar(UShort(v))))
  {
    ShortByteOrderRoundTrip(v);
  }

  /** One long written in the file's byte order decodes back to itself. */
  lemma DecodedLongRoundTrip(v: u32, little: bool)
    ensures DecodeValue(RawTag(4, 1, if little then EncodeLittle(v, 4) else EncodeBig(v, 4)), little, false)
      == Ok(Found(Scalar(ULong(v))))
  {
    LongByteOrderRoundTrip(v);
  }

  /** ASCII text is the field's characters up to the first NUL. */
  lemma DecodedText(raw: RawTag, little: bool)
    requires raw.tiffType == 2
    ensures var r := DecodeValue(raw, little, false);
      r.Ok? && r.value.Found? && r.value.value.Text?
    ensures var t := DecodeValue(raw, little, false).value.value.text;
      && t <= AsChars(raw.data)
      && '\0' !in t
      && (|t| < |raw.data| ==> raw.data[|t|] == 0)
  {
  }

  /** A string that holds no NUL is cut exactly at the NUL that ends it. */
  lemma {:induction false} CutAtTerminator(s: string, tail: string)
    requires '\0' !in s
    ensures CutAtNul(s + ['\0'] + tail) == s
  {
    if s != [] {
      assert (s + ['\0'] + tail)[1..] == s[1..] + ['\0'] + tail;
      CutAtTerminator(s[1..], tail);
    }
  }

  /** A field holding a formatted timestamp and its NUL decodes, as a date, to that timestamp. */
  lemma DecodedDateRoundTrip(raw: RawTag, little: bool, d: DateTime)
    requires ValidDateTime(d) && raw.tiffType == 2
    requires AsChars(raw.data) == FormatDateTime(d) + ['\0']
    ensures DecodeValue(raw, little, true) == Ok(Found(Date(d)))
  {
    var text := FormatDateTime(d);
    assert '\0' !in text by {
      forall i | 0 <= i < |text|
        ensures text[i] != '\0'
      {
        DigitsAndSeparators(d, i);
      }
    }
    CutAtTerminator(text, []);
    assert text + ['\0'] + [] == AsChars(raw.data);
    DateTimeRoundTrip(d);
  }

  /** Every character of a formatted timestamp is a digit, a colon or a space. */
  lemma DigitsAndSeparators(d: DateTime, i: int)
    requires ValidDateTime(d) && 0 <= i < |FormatDateTime(d)|
    ensures FormatDateTime(d)[i] != '\0'
  {
    var s := FormatDateTime(d);
    DigitsRoundTrip(d.year, 4);
    DigitsRoundTrip(d.month, 2);
    DigitsRoundTrip(d.day, 2);
    DigitsRoundTrip(d.hour, 2);
    DigitsRoundTrip(d.minute, 2);
    DigitsRoundTrip(d.second, 2);
    assert s[0..4] == Digits(d.year, 4);
    assert s[5..7] == Digits(d.month, 2);
    assert s[8..10] == Digits(d.day, 2);
    assert s[11..13] == Digits(d.hour, 2);
    assert s[14..16] == Digits(d.minute, 2);
    assert s[17..19] == Digits(d.second, 2);
    if i < 4 { assert s[i] == s[0..4][i]; }
    else if 5 <= i < 7 { assert s[i] == s[5..7][i - 5]; }
    else if 8 <= i < 10 { assert s[i] == s[8..10][i - 8]; }
    else if 11 <= i < 13 { assert s[i] == s[11..13][i - 11]; }
    else if 14 <= i < 16 { assert s[i] == s[14..16][i - 14]; }
    else if 17 <= i < 19 { assert s[i] == s[17..19][i - 17]; }
  }

  /** The all-zero unknown date, asked for as a date, is not found rather than an error. */
  lemma DecodedBlankDateIsNotFound(raw: RawTag, little: bool)
    requires raw.tiffType == 2
    requires AsChars(raw.data) == "0000:00:00 00:00:00" + ['\0']
    ensures DecodeValue(raw, little, true) == Ok(NotFound)
  {
    CutAtTerminator("0000:00:00 00:00:00", []);
    assert "0000:00:00 00:00:00" + ['\0'] + [] == AsChars(raw.data);
    BlankDatesAreUnknown();
  }
}

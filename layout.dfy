/**
 * The decoder's view of a JPEG byte stream, as pure functions of the stream
 * contents and a position: the APP1 marker scan, the Exif/TIFF header, the
 * image file directories (IFDs) and their tag catalogues, tag lookup and
 * the JPEG thumbnail.  The reader class follows these functions read by read.
 */
module ExifLayout {
  import opened Bytes
  import opened Outcomes
  import opened ExifDates
  import opened Tiff

  // Tag IDs (Exif 2.2, Section 4.6)
  const ExifIfdPointer: u16 := 0x8769
  const GpsIfdPointer: u16 := 0x8825
  const Compression: u16 := 0x0103
  const JpegInterchangeFormat: u16 := 0x0201
  const JpegInterchangeFormatLength: u16 := 0x0202
  const DateTimeTag: u16 := 0x0132
  const DateTimeOriginal: u16 := 0x9003
  const DateTimeDigitized: u16 := 0x9004
  const GpsDateStamp: u16 := 0x001D

  /** JPEG markers: start of image, and the APP1 marker number. */
  const StartOfImage: u16 := 0xFFD8
  const App1: byte := 0xE1

  /** The TIFF magic number after the byte-order mark. */
  const TiffMagic: u16 := 0x002A

  /** Thumbnail compression "JPEG (old-style)". */
  const JpegCompression: u16 := 6

  // ---------------------------------------------------------------------------
  // Reads

  /** `BinaryReader.ReadBytes(n)` at position p: the bytes that remain, at most n. */
  function ReadUpTo(s: seq<byte>, p: nat, n: nat): (r: seq<byte>)
    ensures |r| <= n
    ensures |r| == if p + n <= |s| then n else if p <= |s| then |s| - p else 0
    ensures p + n <= |s| ==> r == s[p..p + n]
    ensures p <= |s| < p + n ==> r == s[p..]
  {
    if p >= |s| then [] else if p + n <= |s| then s[p..p + n] else s[p..]
  }

  /** The position after a `ReadUpTo`. */
  function AfterRead(s: seq<byte>, p: nat, n: nat): nat
  {
    p + |ReadUpTo(s, p, n)|
  }

  /** `ReadUShort` at p: two bytes in the given order; a short read throws. */
  function ReadU16At(s: seq<byte>, p: nat, little: bool): (r: Result<u16>)
    ensures r.Ok? <==> p + 2 <= |s|
    ensures r.Err? ==> r.error == EndOfStream
  {
    if p + 2 <= |s| then Ok(ToUShort(s[p..p + 2], little)) else Err(EndOfStream)
  }

  /** `ReadUint` at p: four bytes in the given order; a short read throws. */
  function ReadU32At(s: seq<byte>, p: nat, little: bool): (r: Result<u32>)
    ensures r.Ok? <==> p + 4 <= |s|
    ensures r.Err? ==> r.error == EndOfStream
  {
    if p + 4 <= |s| then Ok(ToUint(s[p..p + 4], little)) else Err(EndOfStream)
  }

  /** `ReadString(n)`: the bytes read, decoded as text. */
  function ReadText(s: seq<byte>, p: nat, n: nat): string
  {
    AsChars(ReadUpTo(s, p, n))
  }

  // ---------------------------------------------------------------------------
  // ReadToExifStart: skip marker segments until APP1

  /**
   * The position just after the APP1 marker, scanning segments from p: each
   * segment is 0xFF, a marker number and, unless the marker is APP1, a
   * big-endian length that counts itself.  A byte other than 0xFF where a
   * marker should start means there is no Exif block.
   */
  function FindApp1(s: seq<byte>, p: nat): (r: Result<nat>)
    ensures r.Ok? ==> p + 2 <= r.value <= |s| && s[r.value - 2] == 0xFF && s[r.value - 1] == App1
    ensures r.Err? ==> r.error == EndOfStream || r.error == ExifBlockNotFound
    ensures p + 1 < |s| && s[p] == 0xFF && s[p + 1] == App1 ==> r == Ok(p + 2)
    ensures p < |s| && s[p] != 0xFF ==> r == Err(ExifBlockNotFound)
    decreases |s| - p
  {
    if p >= |s| then Err(EndOfStream)
    else if s[p] != 0xFF then Err(ExifBlockNotFound)
    else if p + 1 >= |s| then Err(EndOfStream)
    else if s[p + 1] == App1 then Ok(p + 2)
    else
      var length :- ReadU16At(s, p + 2, false);
      // The length includes its own two bytes: the next marker is at p + 2 + length.
      if p + 2 + length >= |s| then Err(EndOfStream)
      else FindApp1(s, p + 2 + length)
  }

  // ---------------------------------------------------------------------------
  // CatalogueIFD: record where each tag's 12-byte entry starts

  /** The catalogue built so far and the position after the last entry. */
  datatype Walk = Walk(catalogue: map<u16, nat>, next: nat)

  /** Start of entry j of an IFD whose entries begin at p. */
  function EntryAt(p: nat, j: nat): nat
  {
    p + 12 * j
  }

  /** Every catalogued offset holds the entry of the tag it is filed under. */
  predicate Sound(s: seq<byte>, little: bool, cat: map<u16, nat>)
  {
    forall id {:trigger cat[id]} :: id in cat ==> ReadU16At(s, cat[id], little) == Ok(id)
  }

  /** Entries k, k-1, ..., 1 from p on; a later entry with the same tag replaces an earlier one. */
  function CatalogueEntries(s: seq<byte>, little: bool, p: nat, k: nat, cat: map<u16, nat>): (r: Result<Walk>)
    ensures r.Ok? ==> r.value.next == EntryAt(p, k)
    ensures r.Ok? <==> k == 0 || EntryAt(p, k - 1) + 2 <= |s|
    decreases k
  {
    if k == 0 then Ok(Walk(cat, p))
    else
      var id :- ReadU16At(s, p, little);
      CatalogueEntries(s, little, p + 12, k - 1, cat[id := p])
  }

  /** One step of the catalogue walk: the tag read at p is filed at p and the walk moves to the next entry. */
  lemma CatalogueStep(s: seq<byte>, little: bool, p: nat, k: nat, cat: map<u16, nat>, id: u16)
    requires k > 0 && ReadU16At(s, p, little) == Ok(id)
    ensures CatalogueEntries(s, little, p, k, cat) == CatalogueEntries(s, little, p + 12, k - 1, cat[id := p])
  {
  }

  /** The walk only adds tags: whatever was catalogued before stays catalogued. */
  lemma {:induction false} CatalogueKeepsTags(s: seq<byte>, little: bool, p: nat, k: nat, cat: map<u16, nat>)
    requires CatalogueEntries(s, little, p, k, cat).Ok?
    ensures cat.Keys <= CatalogueEntries(s, little, p, k, cat).value.catalogue.Keys
    decreases k
  {
    if k > 0 {
      var id := ReadU16At(s, p, little).value;
      CatalogueStep(s, little, p, k, cat, id);
      CatalogueKeepsTags(s, little, p + 12, k - 1, cat[id := p]);
    }
  }

  /** Filing a tag at an offset that holds it keeps a catalogue sound. */
  lemma FilingKeepsSound(s: seq<byte>, little: bool, cat: map<u16, nat>, id: u16, p: nat)
    requires Sound(s, little, cat) && ReadU16At(s, p, little) == Ok(id)
    ensures Sound(s, little, cat[id := p])
  {
    forall t | t in cat[id := p]
      ensures ReadU16At(s, cat[id := p][t], little) == Ok(t)
    {
      if t != id {
        assert cat[id := p][t] == cat[t];
      }
    }
  }

  /** The walk files every tag at the entry it was read from, so a sound catalogue stays sound. */
  lemma {:induction false} CatalogueKeepsSound(s: seq<byte>, little: bool, p: nat, k: nat, cat: map<u16, nat>)
    requires CatalogueEntries(s, little, p, k, cat).Ok?
    requires Sound(s, little, cat)
    ensures Sound(s, little, CatalogueEntries(s, little, p, k, cat).value.catalogue)
    decreases k
  {
    if k > 0 {
      var id := ReadU16At(s, p, little).value;
      CatalogueStep(s, little, p, k, cat, id);
      FilingKeepsSound(s, little, cat, id, p);
      CatalogueKeepsSound(s, little, p + 12, k - 1, cat[id := p]);
    }
  }

  /** A tag no entry holds keeps whatever the catalogue had for it. */
  lemma {:induction false} UnreadTagIsKept(s: seq<byte>, little: bool, p: nat, k: nat, cat: map<u16, nat>, id: u16)
    requires CatalogueEntries(s, little, p, k, cat).Ok?
    requires forall i :: 0 <= i < k ==> ReadU16At(s, EntryAt(p, i), little) != Ok(id)
    ensures var after := CatalogueEntries(s, little, p, k, cat).value.catalogue;
      (id in after <==> id in cat) && (id in cat ==> after[id] == cat[id])
    decreases k
  {
    if k > 0 {
      var t := ReadU16At(s, p, little).value;
      assert ReadU16At(s, EntryAt(p, 0), little) != Ok(id);
      CatalogueStep(s, little, p, k, cat, t);
      var q := p + 12;
      forall i | 0 <= i < k - 1
        ensures ReadU16At(s, EntryAt(q, i), little) != Ok(id)
      {
        assert EntryAt(q, i) == EntryAt(p, i + 1);
      }
      UnreadTagIsKept(s, little, q, k - 1, cat[t := p], id);
    }
  }

  /** The first entry stays filed under its tag when no later entry holds that tag. */
  lemma FirstEntryWins(s: seq<byte>, little: bool, p: nat, k: nat, cat: map<u16, nat>)
    requires CatalogueEntries(s, little, p, k, cat).Ok? && 0 < k
    requires forall i :: 0 < i < k ==> ReadU16At(s, EntryAt(p, i), little) != ReadU16At(s, EntryAt(p, 0), little)
    ensures ReadU16At(s, p, little).Ok?
    ensures var id := ReadU16At(s, p, little).value;
      var after := CatalogueEntries(s, little, p, k, cat).value.catalogue;
      id in after && after[id] == p
  {
    var t := ReadU16At(s, p, little).value;
    assert EntryAt(p, 0) == p;
    CatalogueStep(s, little, p, k, cat, t);
    var q := p + 12;
    forall i | 0 <= i < k - 1
      ensures ReadU16At(s, EntryAt(q, i), little) != Ok(t)
    {
      assert EntryAt(q, i) == EntryAt(p, i + 1);
    }
    UnreadTagIsKept(s, little, q, k - 1, cat[t := p], t);
  }

  /**
   * Entry j is what the catalogue keeps for its tag unless a later entry
   * holds the same tag: the last duplicate wins.
   */
  lemma {:induction false} LastEntryWins(s: seq<byte>, little: bool, p: nat, k: nat, cat: map<u16, nat>, j: nat)
    requires CatalogueEntries(s, little, p, k, cat).Ok? && j < k
    requires forall i :: j < i < k ==> ReadU16At(s, EntryAt(p, i), little) != ReadU16At(s, EntryAt(p, j), little)
    ensures ReadU16At(s, EntryAt(p, j), little).Ok?
    ensures var id := ReadU16At(s, EntryAt(p, j), little).value;
      var after := CatalogueEntries(s, little, p, k, cat).value.catalogue;
      id in after && after[id] == EntryAt(p, j)
    decreases k
  {
    if j == 0 {
      FirstEntryWins(s, little, p, k, cat);
    } else {
      var t := ReadU16At(s, p, little).value;
      CatalogueStep(s, little, p, k, cat, t);
      var q := p + 12;
      assert EntryAt(q, j - 1) == EntryAt(p, j);
      forall i | j - 1 < i < k - 1
        ensures ReadU16At(s, EntryAt(q, i), little) != ReadU16At(s, EntryAt(q, j - 1), little)
      {
        assert EntryAt(q, i) == EntryAt(p, i + 1);
      }
      LastEntryWins(s, little, q, k - 1, cat[t := p], j - 1);
    }
  }

  /** `CatalogueIFD` at p: an entry count, then that many entries, merged into `cat`. */
  function CatalogueIfd(s: seq<byte>, little: bool, p: nat, cat: map<u16, nat>): (r: Result<Walk>)
    ensures r.Ok? ==> ReadU16At(s, p, little).Ok? && r.value.next == p + 2 + 12 * ReadU16At(s, p, little).value
  {
    var count :- ReadU16At(s, p, little);
    CatalogueEntries(s, little, p + 2, count, cat)
  }

  // ---------------------------------------------------------------------------
  // GetTagBytes and GetTagValue

  /** `Array.Resize`: truncate, or pad with zero bytes. */
  function Resize(a: seq<byte>, n: nat): (r: seq<byte>)
    ensures |r| == n
    ensures n <= |a| ==> r == a[..n]
    ensures |a| < n ==> r[..|a|] == a && forall i | |a| <= i < n :: r[i] == 0
  {
    if n <= |a| then a[..n] else a + seq(n - |a|, _ => 0)
  }

  /** The rest of a 12-byte IFD entry: field type, component count and the 4-byte value field. */
  datatype Entry = Entry(tiffType: u16, count: u32, valueField: seq<byte>)

  /** Read the entry starting at p after its tag number; the value field may come back short. */
  function ReadEntry(s: seq<byte>, little: bool, p: nat): (r: Result<Entry>)
    ensures r.Ok? <==> p + 8 <= |s|
    ensures r.Ok? ==> ReadU16At(s, p + 2, little) == Ok(r.value.tiffType)
    ensures r.Ok? ==> ReadU32At(s, p + 4, little) == Ok(r.value.count)
    ensures r.Ok? ==> r.value.valueField == ReadUpTo(s, p + 8, 4)
  {
    var tiffType :- ReadU16At(s, p + 2, little);
    var count :- ReadU32At(s, p + 4, little);
    Ok(Entry(tiffType, count, ReadUpTo(s, p + 8, 4)))
  }

  /**
   * The value bytes of an entry: when count * width exceeds four bytes, that
   * many bytes from the TIFF offset in the value field; otherwise the value
   * field itself, cut or zero-padded to count * width.
   */
  function ValueBytes(s: seq<byte>, little: bool, tiffStart: nat, e: Entry): (r: Result<seq<byte>>)
    ensures r.Ok? ==> 1 <= e.tiffType <= 12
    ensures r.Ok? ==> |r.value| <= DataSize(e.count, Width(e.tiffType))
    ensures r.Ok? && DataSize(e.count, Width(e.tiffType)) <= 4 ==>
      |r.value| == DataSize(e.count, Width(e.tiffType))
    ensures !(1 <= e.tiffType <= 12) ==> r == Err(UnknownTiffType(e.tiffType))
    // A value of at most four bytes sits in the value field, from the left, zero-padded when the field came back short.
    ensures r.Ok? && DataSize(e.count, Width(e.tiffType)) <= 4 ==>
      r.value == Resize(e.valueField, DataSize(e.count, Width(e.tiffType)))
    // A larger value is read at the 16-bit offset `ToUShort` takes from the value field, counted from the TIFF header.
    ensures 1 <= e.tiffType <= 12 && DataSize(e.count, Width(e.tiffType)) > 4 ==>
      var size := DataSize(e.count, Width(e.tiffType));
      if |e.valueField| < 2 then r == Err(EndOfStream)
      else r == Ok(ReadUpTo(s, tiffStart + ToUShort(e.valueField, little), size))
    ensures 1 <= e.tiffType <= 12 && DataSize(e.count, Width(e.tiffType)) < 0 ==> r == Err(NegativeSize)
  {
    var w :- FieldLength(e.tiffType);
    var size := DataSize(e.count, w);
    if size > 4 then
      if |e.valueField| < 2 then Err(EndOfStream)
      else Ok(ReadUpTo(s, tiffStart + ToUShort(e.valueField, little), size))
    else if size < 0 then Err(NegativeSize)
    else Ok(Resize(e.valueField, size))
  }

  /**
   * `GetTagBytes`: re-read the entry filed under `id` and return its type,
   * its count and its value bytes.
   */
  function TagBytes(s: seq<byte>, little: bool, tiffStart: nat, cat: map<u16, nat>, id: u16): (r: Result<Lookup<RawTag>>)
    ensures r == Ok(NotFound) <==> id !in cat
    ensures r.Err? ==> r.error.UnknownTiffType? || r.error in {EndOfStream, TagNotAtExpectedOffset, NegativeSize}
    ensures r.Ok? && r.value.Found? ==>
      && ReadU16At(s, cat[id], little) == Ok(id)
      && ReadEntry(s, little, cat[id]).Ok?
      && r.value.value.tiffType == ReadEntry(s, little, cat[id]).value.tiffType
      && r.value.value.count == ReadEntry(s, little, cat[id]).value.count
      && ValueBytes(s, little, tiffStart, ReadEntry(s, little, cat[id]).value) == Ok(r.value.value.data)
  {
    if id !in cat then Ok(NotFound)
    else
      var current :- ReadU16At(s, cat[id], little);
      if current != id then Err(TagNotAtExpectedOffset)
      else
        var entry :- ReadEntry(s, little, cat[id]);
        var data :- ValueBytes(s, little, tiffStart, entry);
        Ok(Found(RawTag(entry.tiffType, entry.count, data)))
  }

  /** `GetTagValue<T>` on a catalogue: look the tag up, decode it, cast it to `want`. */
  function LookupValue(s: seq<byte>, little: bool, tiffStart: nat, cat: map<u16, nat>, id: u16, want: Want): (r: Result<Lookup<TagValue>>)
    ensures id !in cat ==> r == Ok(NotFound)
    ensures r.Ok? && r.value.Found? ==> HasType(r.value.value, want)
    ensures r.Err? && r.error == InvalidCast ==> want != AnyType
    // A found value is the decoding of the entry's bytes, and a decodable entry of the wanted type is found.
    ensures r.Ok? && r.value.Found? ==>
      var raw := TagBytes(s, little, tiffStart, cat, id);
      && raw.Ok? && raw.value.Found?
      && DecodeValue(raw.value.value, little, want == DateTimeType) == Ok(Found(r.value.value))
  {
    var raw :- TagBytes(s, little, tiffStart, cat, id);
    match raw
    case NotFound => Ok(NotFound)
    case Found(tag) =>
      var decoded :- DecodeValue(tag, little, want == DateTimeType);
      match decoded
      case NotFound => Ok(NotFound)
      case Found(v) =>
        var cast :- Cast(v, want);
        Ok(Found(cast))
  }

  /** Conversely, an entry whose bytes decode to a value of the wanted type is found as that value. */
  lemma DecodedEntryIsFound(s: seq<byte>, little: bool, tiffStart: nat, cat: map<u16, nat>, id: u16, want: Want, raw: RawTag, v: TagValue)
    requires TagBytes(s, little, tiffStart, cat, id) == Ok(Found(raw))
    requires DecodeValue(raw, little, want == DateTimeType) == Ok(Found(v)) && HasType(v, want)
    ensures LookupValue(s, little, tiffStart, cat, id, want) == Ok(Found(v))
  {
  }

  /** An ASCII entry holding a formatted date and a NUL is found as that date. */
  lemma StoredDateLooksUp(s: seq<byte>, little: bool, tiffStart: nat, cat: map<u16, nat>, id: u16, raw: RawTag, d: DateTime)
    requires TagBytes(s, little, tiffStart, cat, id) == Ok(Found(raw))
    requires ValidDateTime(d) && raw.tiffType == 2 && AsChars(raw.data) == FormatDateTime(d) + ['\0']
    ensures LookupValue(s, little, tiffStart, cat, id, DateTimeType) == Ok(Found(Date(d)))
  {
    DecodedDateRoundTrip(raw, little, d);
    DecodedEntryIsFound(s, little, tiffStart, cat, id, DateTimeType, raw, Date(d));
  }

  /** Through a sound catalogue, re-reading an entry never finds another tag there. */
  lemma SoundCatalogueFindsItsTag(s: seq<byte>, little: bool, tiffStart: nat, cat: map<u16, nat>, id: u16)
    requires Sound(s, little, cat)
    ensures TagBytes(s, little, tiffStart, cat, id) != Err(TagNotAtExpectedOffset)
  {
    if id in cat {
      assert ReadU16At(s, cat[id], little) == Ok(id);
    }
  }

  /** Through a sound catalogue, a lookup never reports a misplaced tag. */
  lemma SoundLookupFindsItsTag(s: seq<byte>, little: bool, tiffStart: nat, cat: map<u16, nat>, id: u16, want: Want)
    requires Sound(s, little, cat)
    ensures LookupValue(s, little, tiffStart, cat, id, want) != Err(TagNotAtExpectedOffset)
  {
    SoundCatalogueFindsItsTag(s, little, tiffStart, cat, id);
  }

  // ---------------------------------------------------------------------------
  // The ExifReader constructor: SOI, APP1, Exif header, TIFF header, IFDs

  /** What the constructor leaves behind: byte order, TIFF origin and catalogues. */
  datatype Index = Index(
    little: bool,
    tiffStart: nat,
    ifd1Offset: u32,
    ifd0: map<u16, nat>,
    ifd1: Option<map<u16, nat>>)

  /** Catalogue the IFD at p into `cat`, keeping only the catalogue. */
  function Merge(s: seq<byte>, little: bool, p: nat, cat: map<u16, nat>): Result<map<u16, nat>>
  {
    var w :- CatalogueIfd(s, little, p, cat);
    Ok(w.catalogue)
  }

  /** What the Exif and TIFF headers give: the byte order, the TIFF origin and the IFD0 offset. */
  datatype TiffHeader = TiffHeader(little: bool, tiffStart: nat, ifdOffset: u32)

  /**
   * The first half of `CreateTagIndex`, from the APP1 length field at q: the
   * "Exif" signature and its two zero bytes, then the TIFF header (byte
   * order mark, the magic number 42, the offset of IFD0).
   */
  function ReadHeader(s: seq<byte>, q: nat): (r: Result<TiffHeader>)
  {
    var _ :- ReadU16At(s, q, false);
    if ReadText(s, q + 2, 4) != "Exif" then Err(ExifDataNotFound)
    else
      var pad :- ReadU16At(s, q + 6, false);
      if pad != 0 then Err(MalformedExifData)
      else
        var tiffStart := q + 8;
        var little := ReadText(s, tiffStart, 2) == "II";
        var afterOrder := AfterRead(s, tiffStart, 2);
        var magic :- ReadU16At(s, afterOrder, little);
        if magic != TiffMagic then Err(BadTiffHeader)
        else
          var ifdOffset :- ReadU32At(s, afterOrder + 2, little);
          Ok(TiffHeader(little, tiffStart, ifdOffset))
  }

  /**
   * The header layout: "Exif" and two zero bytes after the APP1 length, the
   * TIFF header eight bytes in, its order mark, the magic number 42 in that
   * order, then the IFD0 offset.
   */
  lemma HeaderLayout(s: seq<byte>, q: nat)
    requires ReadHeader(s, q).Ok?
    ensures ReadHeader(s, q).value.tiffStart == q + 8
    ensures ReadText(s, q + 2, 4) == "Exif" && ReadU16At(s, q + 6, false) == Ok(0)
    ensures ReadHeader(s, q).value.little <==> ReadText(s, q + 8, 2) == "II"
    ensures ReadU16At(s, q + 10, ReadHeader(s, q).value.little) == Ok(TiffMagic)
    ensures ReadU32At(s, q + 12, ReadHeader(s, q).value.little) == Ok(ReadHeader(s, q).value.ifdOffset)
  {
    assert AfterRead(s, q + 8, 2) == q + 10;
  }

  /**
   * The sub-IFDs filed into the IFD0 catalogue: the Exif sub-IFD, which must
   * be there, and the GPS IFD, which may be.
   */
  function SubIfds(s: seq<byte>, little: bool, tiffStart: nat, ifd0: map<u16, nat>): (r: Result<map<u16, nat>>)
    ensures ExifIfdPointer !in ifd0 ==> r == Err(ExifIfdNotFound)
  {
    var exif :- LookupValue(s, little, tiffStart, ifd0, ExifIfdPointer, UIntType);
    if exif.NotFound? then Err(ExifIfdNotFound)
    else
      var withExif :- FollowLink(s, little, tiffStart, ifd0, exif);
      GpsIfd(s, little, tiffStart, withExif)
  }

  /** The optional GPS IFD, whose pointer is looked up in the catalogue the Exif sub-IFD has joined. */
  function GpsIfd(s: seq<byte>, little: bool, tiffStart: nat, cat: map<u16, nat>): (r: Result<map<u16, nat>>)
    ensures GpsIfdPointer !in cat ==> r == Ok(cat)
  {
    var gps :- LookupValue(s, little, tiffStart, cat, GpsIfdPointer, UIntType);
    FollowLink(s, little, tiffStart, cat, gps)
  }

  /** The IFD a pointer tag leads to (an offset from the TIFF header), merged into `cat`; nothing when the tag is absent. */
  function FollowLink(s: seq<byte>, little: bool, tiffStart: nat, cat: map<u16, nat>, link: Lookup<TagValue>): (r: Result<map<u16, nat>>)
    requires link.Found? ==> HasType(link.value, UIntType)
    ensures link.NotFound? ==> r == Ok(cat)
  {
    if link.NotFound? then Ok(cat)
    else Merge(s, little, tiffStart + link.value.element.u32Value, cat)
  }

  /** The thumbnail IFD1, catalogued on its own when its offset is not zero. */
  function ThumbnailIfd(s: seq<byte>, little: bool, tiffStart: nat, ifd1Offset: u32): (r: Result<Option<map<u16, nat>>>)
    ensures ifd1Offset == 0 <==> r == Ok(None)
  {
    if ifd1Offset == 0 then Ok(None)
    else
      var c :- Merge(s, little, tiffStart + ifd1Offset, map[]);
      Ok(Some(c))
  }

  /** The second half of `CreateTagIndex`: IFD0 and the link to IFD1 that follows it, then the rest. */
  function Directories(s: seq<byte>, h: TiffHeader): Result<Index>
  {
    var ifd0 :- CatalogueIfd(s, h.little, h.tiffStart + h.ifdOffset, map[]);
    var ifd1Offset :- ReadU32At(s, ifd0.next, h.little);
    LinkedIndex(s, h.little, h.tiffStart, ifd0.catalogue, ifd1Offset)
  }

  /** The index once IFD0 and the offset of IFD1 are known: the sub-IFDs join IFD0, and IFD1 is catalogued. */
  function LinkedIndex(s: seq<byte>, little: bool, tiffStart: nat, ifd0: map<u16, nat>, ifd1Offset: u32): (r: Result<Index>)
    ensures r.Ok? ==> r.value.little == little && r.value.tiffStart == tiffStart && r.value.ifd1Offset == ifd1Offset
  {
    var main :- SubIfds(s, little, tiffStart, ifd0);
    var thumbnail :- ThumbnailIfd(s, little, tiffStart, ifd1Offset);
    Ok(Index(little, tiffStart, ifd1Offset, main, thumbnail))
  }

  /** `CreateTagIndex`, from the APP1 length field at q.  Offsets are relative to the TIFF header. */
  function IndexTags(s: seq<byte>, q: nat): Result<Index>
  {
    var h :- ReadHeader(s, q);
    Directories(s, h)
  }

  /** Merging an IFD into a sound catalogue leaves it sound. */
  lemma MergeKeepsSound(s: seq<byte>, little: bool, p: nat, cat: map<u16, nat>)
    requires Merge(s, little, p, cat).Ok? && Sound(s, little, cat)
    ensures Sound(s, little, Merge(s, little, p, cat).value)
  {
    var count := ReadU16At(s, p, little).value;
    CatalogueKeepsSound(s, little, p + 2, count, cat);
  }

  lemma FollowLinkKeepsSound(s: seq<byte>, little: bool, tiffStart: nat, cat: map<u16, nat>, link: Lookup<TagValue>)
    requires link.Found? ==> HasType(link.value, UIntType)
    requires FollowLink(s, little, tiffStart, cat, link).Ok? && Sound(s, little, cat)
    ensures Sound(s, little, FollowLink(s, little, tiffStart, cat, link).value)
  {
    if link.Found? {
      MergeKeepsSound(s, little, tiffStart + link.value.element.u32Value, cat);
    }
  }

  lemma GpsIfdKeepsSound(s: seq<byte>, little: bool, tiffStart: nat, cat: map<u16, nat>)
    requires GpsIfd(s, little, tiffStart, cat).Ok? && Sound(s, little, cat)
    ensures Sound(s, little, GpsIfd(s, little, tiffStart, cat).value)
  {
    var gps := LookupValue(s, little, tiffStart, cat, GpsIfdPointer, UIntType).value;
    FollowLinkKeepsSound(s, little, tiffStart, cat, gps);
  }

  lemma SubIfdsKeepSound(s: seq<byte>, little: bool, tiffStart: nat, ifd0: map<u16, nat>)
    requires SubIfds(s, little, tiffStart, ifd0).Ok? && Sound(s, little, ifd0)
    ensures Sound(s, little, SubIfds(s, little, tiffStart, ifd0).value)
  {
    var exif := LookupValue(s, little, tiffStart, ifd0, ExifIfdPointer, UIntType).value;
    FollowLinkKeepsSound(s, little, tiffStart, ifd0, exif);
    GpsIfdKeepsSound(s, little, tiffStart, FollowLink(s, little, tiffStart, ifd0, exif).value);
  }

  lemma ThumbnailIfdIsSound(s: seq<byte>, little: bool, tiffStart: nat, ifd1Offset: u32)
    requires ThumbnailIfd(s, little, tiffStart, ifd1Offset).Ok?
    ensures ThumbnailIfd(s, little, tiffStart, ifd1Offset).value.Some? ==>
      Sound(s, little, ThumbnailIfd(s, little, tiffStart, ifd1Offset).value.value)
  {
    if ifd1Offset != 0 {
      MergeKeepsSound(s, little, tiffStart + ifd1Offset, map[]);
    }
  }

  lemma LinkedIndexIsSound(s: seq<byte>, little: bool, tiffStart: nat, ifd0: map<u16, nat>, ifd1Offset: u32)
    requires LinkedIndex(s, little, tiffStart, ifd0, ifd1Offset).Ok? && Sound(s, little, ifd0)
    ensures Sound(s, little, LinkedIndex(s, little, tiffStart, ifd0, ifd1Offset).value.ifd0)
    ensures LinkedIndex(s, little, tiffStart, ifd0, ifd1Offset).value.ifd1.Some? ==>
      Sound(s, little, LinkedIndex(s, little, tiffStart, ifd0, ifd1Offset).value.ifd1.value)
  {
    SubIfdsKeepSound(s, little, tiffStart, ifd0);
    ThumbnailIfdIsSound(s, little, tiffStart, ifd1Offset);
  }

  /** The directories of a TIFF header hold sound catalogues. */
  lemma DirectoriesAreSound(s: seq<byte>, h: TiffHeader)
    requires Directories(s, h).Ok?
    ensures Sound(s, Directories(s, h).value.little, Directories(s, h).value.ifd0)
    ensures Directories(s, h).value.ifd1.Some? ==>
      Sound(s, Directories(s, h).value.little, Directories(s, h).value.ifd1.value)
  {
    var ifd0Start := h.tiffStart + h.ifdOffset;
    var ifd0 := CatalogueIfd(s, h.little, ifd0Start, map[]).value;
    var count := ReadU16At(s, ifd0Start, h.little).value;
    CatalogueKeepsSound(s, h.little, ifd0Start + 2, count, map[]);
    var ifd1Offset := ReadU32At(s, ifd0.next, h.little).value;
    assert Directories(s, h) == LinkedIndex(s, h.little, h.tiffStart, ifd0.catalogue, ifd1Offset);
    LinkedIndexIsSound(s, h.little, h.tiffStart, ifd0.catalogue, ifd1Offset);
  }

  /** Every catalogue `CreateTagIndex` builds files each tag at an entry that holds it. */
  lemma IndexedCataloguesAreSound(s: seq<byte>, q: nat)
    requires IndexTags(s, q).Ok?
    ensures Sound(s, IndexTags(s, q).value.little, IndexTags(s, q).value.ifd0)
    ensures IndexTags(s, q).value.ifd1.Some? ==>
      Sound(s, IndexTags(s, q).value.little, IndexTags(s, q).value.ifd1.value)
  {
    var h := ReadHeader(s, q).value;
    assert IndexTags(s, q) == Directories(s, h);
    DirectoriesAreSound(s, h);
  }

  /** The `ExifReader(Stream)` constructor: big-endian until the TIFF header says otherwise. */
  function ParseExif(s: seq<byte>): Result<Index>
  {
    var soi :- ReadU16At(s, 0, false);
    if soi != StartOfImage then Err(NotAJpeg)
    else
      var q :- FindApp1(s, 2);
      IndexTags(s, q)
  }

  /** The catalogues of a parsed stream file every tag at an entry that holds it. */
  lemma ParsedCataloguesAreSound(s: seq<byte>)
    requires ParseExif(s).Ok?
    ensures Sound(s, ParseExif(s).value.little, ParseExif(s).value.ifd0)
    ensures ParseExif(s).value.ifd1.Some? ==> Sound(s, ParseExif(s).value.little, ParseExif(s).value.ifd1.value)
  {
    var q := FindApp1(s, 2).value;
    assert ParseExif(s) == IndexTags(s, q);
    IndexedCataloguesAreSound(s, q);
  }

  /** Merging an IFD only adds tags (a tag already there may be refiled). */
  lemma MergeKeepsTags(s: seq<byte>, little: bool, p: nat, cat: map<u16, nat>)
    requires Merge(s, little, p, cat).Ok?
    ensures cat.Keys <= Merge(s, little, p, cat).value.Keys
  {
    CatalogueKeepsTags(s, little, p + 2, ReadU16At(s, p, little).value, cat);
  }

  lemma FollowLinkKeepsTags(s: seq<byte>, little: bool, tiffStart: nat, cat: map<u16, nat>, link: Lookup<TagValue>)
    requires link.Found? ==> HasType(link.value, UIntType)
    requires FollowLink(s, little, tiffStart, cat, link).Ok?
    ensures cat.Keys <= FollowLink(s, little, tiffStart, cat, link).value.Keys
  {
    if link.Found? {
      MergeKeepsTags(s, little, tiffStart + link.value.element.u32Value, cat);
    }
  }

  /**
   * IFD0, the Exif sub-IFD and the GPS IFD share one catalogue: the merged
   * catalogue keeps every IFD0 tag, among them the Exif IFD pointer, which
   * must be present.
   */
  lemma SubIfdsKeepIfd0Tags(s: seq<byte>, little: bool, tiffStart: nat, ifd0: map<u16, nat>)
    requires SubIfds(s, little, tiffStart, ifd0).Ok?
    ensures ExifIfdPointer in ifd0
    ensures ifd0.Keys <= SubIfds(s, little, tiffStart, ifd0).value.Keys
  {
    var exif := LookupValue(s, little, tiffStart, ifd0, ExifIfdPointer, UIntType).value;
    FollowLinkKeepsTags(s, little, tiffStart, ifd0, exif);
    var withExif := FollowLink(s, little, tiffStart, ifd0, exif).value;
    var gps := LookupValue(s, little, tiffStart, withExif, GpsIfdPointer, UIntType).value;
    FollowLinkKeepsTags(s, little, tiffStart, withExif, gps);
  }

  /** Without the Exif IFD pointer in IFD0 the constructor fails once the IFD1 offset is read. */
  lemma MissingExifIfdFails(s: seq<byte>, h: TiffHeader)
    requires CatalogueIfd(s, h.little, h.tiffStart + h.ifdOffset, map[]).Ok?
    requires var ifd0 := CatalogueIfd(s, h.little, h.tiffStart + h.ifdOffset, map[]).value;
      ExifIfdPointer !in ifd0.catalogue && ReadU32At(s, ifd0.next, h.little).Ok?
    ensures Directories(s, h) == Err(ExifIfdNotFound)
  {
  }

  /** The header checks: the "Exif" signature, the two zero bytes after it, the magic number. */
  lemma HeaderFailures(s: seq<byte>, q: nat)
    requires ReadU16At(s, q, false).Ok?
    ensures ReadText(s, q + 2, 4) != "Exif" ==> ReadHeader(s, q) == Err(ExifDataNotFound)
    ensures ReadText(s, q + 2, 4) == "Exif" && ReadU16At(s, q + 6, false).Ok? && ReadU16At(s, q + 6, false).value != 0 ==>
      ReadHeader(s, q) == Err(MalformedExifData)
    ensures ReadText(s, q + 2, 4) == "Exif" && ReadU16At(s, q + 6, false) == Ok(0) ==>
      var little := ReadText(s, q + 8, 2) == "II";
      ReadU16At(s, q + 10, little).Ok? && ReadU16At(s, q + 10, little).value != TiffMagic ==>
      ReadHeader(s, q) == Err(BadTiffHeader)
  {
    if ReadU16At(s, q + 10, ReadText(s, q + 8, 2) == "II").Ok? {
      assert AfterRead(s, q + 8, 2) == q + 10;
    }
  }

  /** The first checks of the constructor: the start-of-image marker, then an APP1 segment. */
  lemma JpegFailures(s: seq<byte>)
    ensures ReadU16At(s, 0, false).Ok? && ReadU16At(s, 0, false).value != StartOfImage ==> ParseExif(s) == Err(NotAJpeg)
    ensures ReadU16At(s, 0, false) == Ok(StartOfImage) && FindApp1(s, 2).Err? ==> ParseExif(s) == Err(FindApp1(s, 2).error)
    ensures ReadU16At(s, 0, false) == Ok(StartOfImage) && 2 < |s| && s[2] != 0xFF ==> ParseExif(s) == Err(ExifBlockNotFound)
  {
  }

  /**
   * What an accepted stream looks like: the start-of-image marker, an APP1
   * segment, "Exif" and two zero bytes, the magic number in the declared
   * byte order, and an IFD0 that holds the Exif IFD pointer.
   */
  lemma ParsedStreamShape(s: seq<byte>)
    requires ParseExif(s).Ok?
    ensures ReadU16At(s, 0, false) == Ok(StartOfImage) && FindApp1(s, 2).Ok?
    ensures var q := FindApp1(s, 2).value;
      && ReadText(s, q + 2, 4) == "Exif" && ReadU16At(s, q + 6, false) == Ok(0)
      && ParseExif(s).value.tiffStart == q + 8
      && ReadU16At(s, q + 10, ParseExif(s).value.little) == Ok(TiffMagic)
    ensures ExifIfdPointer in ParseExif(s).value.ifd0
  {
    var q := FindApp1(s, 2).value;
    assert ParseExif(s) == IndexTags(s, q);
    var h := ReadHeader(s, q).value;
    HeaderLayout(s, q);
    assert IndexTags(s, q) == Directories(s, h);
    DirectoriesHoldExifPointer(s, h);
  }

  lemma DirectoriesHoldExifPointer(s: seq<byte>, h: TiffHeader)
    requires Directories(s, h).Ok?
    ensures Directories(s, h).value.little == h.little && Directories(s, h).value.tiffStart == h.tiffStart
    ensures ExifIfdPointer in Directories(s, h).value.ifd0
  {
    var ifd0 := CatalogueIfd(s, h.little, h.tiffStart + h.ifdOffset, map[]).value;
    var ifd1Offset := ReadU32At(s, ifd0.next, h.little).value;
    assert Directories(s, h) == LinkedIndex(s, h.little, h.tiffStart, ifd0.catalogue, ifd1Offset);
    SubIfdsKeepIfd0Tags(s, h.little, h.tiffStart, ifd0.catalogue);
  }

  // ---------------------------------------------------------------------------
  // GetJpegThumbnailBytes

  /** A JPEG start-of-image marker whose second byte is at j. */
  predicate SoiEndsAt(s: seq<byte>, j: int)
    requires 1 <= j < |s|
  {
    s[j - 1] == 0xFF && s[j] == 0xD8
  }

  /**
   * The scan loop: read bytes from p on, `prev` being the byte read before
   * p (-1 at the start), until 0xFF 0xD8 has been read.  The result is the
   * index of the 0xD8.
   */
  function ScanForSoi(s: seq<byte>, p: nat, prev: int): (r: Option<nat>)
    ensures r.Some? ==> p <= r.value < |s| && s[r.value] == 0xD8
    ensures r.Some? && r.value == p ==> prev == 0xFF
    ensures r.Some? && r.value > p ==> s[r.value - 1] == 0xFF
    ensures p < |s| && prev == 0xFF && s[p] == 0xD8 ==> r == Some(p)
    decreases |s| - p
  {
    if p >= |s| then None
    else if prev == 0xFF && s[p] == 0xD8 then Some(p)
    else ScanForSoi(s, p + 1, s[p])
  }

  /** The scan stops at the first start-of-image marker that ends after p, and reports none only when there is none. */
  lemma {:induction false} ScanFindsFirstMarker(s: seq<byte>, p: nat, prev: int)
    ensures var r := ScanForSoi(s, p, prev);
      forall j :: p < j < (if r.Some? then r.value else |s|) ==> !SoiEndsAt(s, j)
    decreases |s| - p
  {
    if p < |s| && !(prev == 0xFF && s[p] == 0xD8) {
      ScanFindsFirstMarker(s, p + 1, s[p]);
    }
  }

  /**
   * The end of `GetJpegThumbnailBytes`: from the absolute position `offset`,
   * find the first start-of-image marker and take `n` bytes from it, zero
   * padded; keep them only if they end with the end-of-image marker.
   */
  function ThumbnailAt(s: seq<byte>, offset: nat, n: u32): (r: Result<Option<seq<byte>>>)
    ensures r.Ok? && r.value.Some? ==>
      var image := r.value.value;
      && |image| == n >= 2
      && image[0] == 0xFF && image[1] == 0xD8
      && image[n - 2] == 0xFF && image[n - 1] == 0xD9
    ensures ScanForSoi(s, offset, -1).None? ==> r == Ok(None)
    ensures r.Err? ==> r.error == Overflow && n > 0x7FFF_FFFF
    ensures ScanForSoi(s, offset, -1).Some? && n > 0x7FFF_FFFF ==> r == Err(Overflow)
    // The image is the `n` bytes from the FF before the D8 the scan found, zero-filled past the end of the stream.
    ensures r.Ok? && r.value.Some? ==>
      && ScanForSoi(s, offset, -1).Some?
      && var start := ScanForSoi(s, offset, -1).value - 1;
      && (start + n <= |s| ==> r.value.value == s[start..start + n])
      && (|s| < start + n ==> r.value.value == Resize(s[start..], n))
    // Conversely, a window that lies in the stream and ends with FF D9 is returned.
    ensures ScanForSoi(s, offset, -1).Some? && 2 <= n <= 0x7FFF_FFFF ==>
      var start := ScanForSoi(s, offset, -1).value - 1;
      start + n <= |s| && s[start + n - 2] == 0xFF && s[start + n - 1] == 0xD9 ==>
      r == Ok(Some(s[start..start + n]))
  {
    match ScanForSoi(s, offset, -1)
    case None => Ok(None)
    case Some(d8) =>
      // `new byte[length]` and `Stream.Read(.., (int)length)` fail beyond int.MaxValue.
      if n > 0x7FFF_FFFF then Err(Overflow)
      else
        var image := Resize(ReadUpTo(s, d8 - 1, n), n);
        if n < 2 || image[n - 1] != 0xD9 || image[n - 2] != 0xFF then Ok(None)
        else Ok(Some(image))
  }

  /**
   * The IFD1 tags `GetJpegThumbnailBytes` needs: none when there is no IFD1,
   * when the thumbnail is not JPEG-compressed or when its offset or length
   * is missing; otherwise the offset and the length.
   */
  function ThumbnailTags(s: seq<byte>, ix: Index): (r: Result<Option<(u32, u32)>>)
    ensures ix.ifd1.None? ==> r == Ok(None)
    ensures ix.ifd1.Some? ==>
      var compression := LookupValue(s, ix.little, ix.tiffStart, ix.ifd1.value, Compression, UShortType);
      var offset := LookupValue(s, ix.little, ix.tiffStart, ix.ifd1.value, JpegInterchangeFormat, UIntType);
      var length := LookupValue(s, ix.little, ix.tiffStart, ix.ifd1.value, JpegInterchangeFormatLength, UIntType);
      && (compression == Ok(NotFound) ==> r == Ok(None))
      && (compression.Ok? && compression.value.Found? && compression.value.value != Scalar(UShort(JpegCompression))
          ==> r == Ok(None))
      && (compression == Ok(Found(Scalar(UShort(JpegCompression)))) && offset == Ok(NotFound) ==> r == Ok(None))
      && (compression == Ok(Found(Scalar(UShort(JpegCompression)))) && offset.Ok? && offset.value.Found? && length == Ok(NotFound)
          ==> r == Ok(None))
      && (r.Ok? && r.value.Some? ==>
          && compression == Ok(Found(Scalar(UShort(JpegCompression))))
          && offset == Ok(Found(Scalar(ULong(r.value.value.0))))
          && length == Ok(Found(Scalar(ULong(r.value.value.1)))))
  {
    if ix.ifd1.None? then Ok(None)
    else
      var cat := ix.ifd1.value;
      var compression :- LookupValue(s, ix.little, ix.tiffStart, cat, Compression, UShortType);
      if compression.NotFound? || compression.value.element.u16Value != JpegCompression then Ok(None)
      else
        var offset :- LookupValue(s, ix.little, ix.tiffStart, cat, JpegInterchangeFormat, UIntType);
        if offset.NotFound? then Ok(None)
        else
          var length :- LookupValue(s, ix.little, ix.tiffStart, cat, JpegInterchangeFormatLength, UIntType);
          if length.NotFound? then Ok(None)
          else Ok(Some((offset.value.element.u32Value, length.value.element.u32Value)))
  }

  /**
   * `GetJpegThumbnailBytes`: the bytes `ThumbnailAt` finds from the offset
   * and length in IFD1.  The offset is used as an absolute stream position.
   */
  function Thumbnail(s: seq<byte>, ix: Index): (r: Result<Option<seq<byte>>>)
    ensures ix.ifd1.None? ==> r == Ok(None)
    ensures r.Ok? && r.value.Some? ==>
      var image := r.value.value;
      && |image| >= 2
      && image[0] == 0xFF && image[1] == 0xD8
      && image[|image| - 2] == 0xFF && image[|image| - 1] == 0xD9
    ensures ThumbnailTags(s, ix) == Ok(None) ==> r == Ok(None)
    ensures ThumbnailTags(s, ix).Ok? && ThumbnailTags(s, ix).value.Some? ==>
      var (offset, length) := ThumbnailTags(s, ix).value.value;
      r == ThumbnailAt(s, offset, length)
  {
    var tags :- ThumbnailTags(s, ix);
    match tags
    case None => Ok(None)
    case Some((offset, length)) => ThumbnailAt(s, offset, length)
  }

  /**
   * A thumbnail is only returned when IFD1 says it is JPEG-compressed, and
   * it is exactly JPEGInterchangeFormatLength bytes long.
   */
  lemma ThumbnailIsDescribedByIfd1(s: seq<byte>, ix: Index)
    requires Thumbnail(s, ix).Ok? && Thumbnail(s, ix).value.Some?
    ensures ix.ifd1.Some?
    ensures LookupValue(s, ix.little, ix.tiffStart, ix.ifd1.value, Compression, UShortType)
      == Ok(Found(Scalar(UShort(JpegCompression))))
    ensures LookupValue(s, ix.little, ix.tiffStart, ix.ifd1.value, JpegInterchangeFormatLength, UIntType)
      == Ok(Found(Scalar(ULong(|Thumbnail(s, ix).value.value|))))
  {
    var tags := ThumbnailTags(s, ix);
    assert tags.Ok? && tags.value.Some?;
    var cat := ix.ifd1.value;
    var compression := LookupValue(s, ix.little, ix.tiffStart, cat, Compression, UShortType);
    var offset := LookupValue(s, ix.little, ix.tiffStart, cat, JpegInterchangeFormat, UIntType);
    var length := LookupValue(s, ix.little, ix.tiffStart, cat, JpegInterchangeFormatLength, UIntType);
    assert compression.Ok? && compression.value.Found?;
    assert offset.Ok? && offset.value.Found?;
    assert length.Ok? && length.value.Found?;
  }
}

/**
 * `ExifReader`: a reader positioned in a seekable stream.  Every read moves
 * `position`; the constructor fixes the byte order, the TIFF header origin
 * and the tag catalogues, which later lookups use.  Each method is proved
 * equal to the layout function it follows.
 */
module ExifReaderModel {
  import opened Bytes
  import opened Outcomes
  import opened ExifDates
  import opened Tiff
  import opened ExifLayout

  class ExifReader {
    /** The contents of the stream; only the position changes. */
    const stream: seq<byte>
    var position: nat

    var isLittleEndian: bool
    var tiffHeaderStart: nat
    var ifd1Offset: u32
    /** Tag ID to the absolute offset of its entry, for IFD0, the Exif sub-IFD and the GPS IFD. */
    var ifd0Catalogue: map<u16, nat>
    /** The same for the thumbnail IFD1, when there is one. */
    var ifd1Catalogue: Option<map<u16, nat>>

    /** Everything but the position. */
    function State(): Index
      reads this`isLittleEndian, this`tiffHeaderStart, this`ifd1Offset, this`ifd0Catalogue, this`ifd1Catalogue
    {
      Index(isLittleEndian, tiffHeaderStart, ifd1Offset, ifd0Catalogue, ifd1Catalogue)
    }

    /** Every catalogued offset holds the entry of the tag it is filed under. */
    predicate Valid()
      reads this`isLittleEndian, this`ifd0Catalogue, this`ifd1Catalogue
    {
      && Sound(stream, isLittleEndian, ifd0Catalogue)
      && (ifd1Catalogue.Some? ==> Sound(stream, isLittleEndian, ifd1Catalogue.value))
    }

    /** The fields as the constructor finds them before reading: big-endian, nothing catalogued. */
    constructor Attach(s: seq<byte>)
      ensures stream == s && position == 0
      ensures State() == Index(false, 0, 0, map[], None)
    {
      stream := s;
      position := 0;
      isLittleEndian := false;
      tiffHeaderStart := 0;
      ifd1Offset := 0;
      ifd0Catalogue := map[];
      ifd1Catalogue := None;
    }

    // -------------------------------------------------------------------------
    // Reading from the stream

    /** `BinaryReader.ReadBytes`: up to n bytes, fewer at the end of the stream. */
    method ReadBytes(n: nat) returns (r: seq<byte>)
      modifies this`position
      ensures r == ReadUpTo(stream, old(position), n)
      ensures position == old(position) + |r|
    {
      r := ReadUpTo(stream, position, n);
      position := position + |r|;
    }

    /** `BinaryReader.ReadByte`: throws at the end of the stream. */
    method ReadByte() returns (r: Result<byte>)
      modifies this`position
      ensures r == if old(position) < |stream| then Ok(stream[old(position)]) else Err(EndOfStream)
      ensures r.Ok? ==> position == old(position) + 1
    {
      if position >= |stream| {
        return Err(EndOfStream);
      }
      r := Ok(stream[position]);
      position := position + 1;
    }

    /** `Stream.ReadByte`: -1 at the end of the stream. */
    method StreamReadByte() returns (r: int)
      modifies this`position
      ensures old(position) < |stream| ==> r == stream[old(position)] && position == old(position) + 1
      ensures old(position) >= |stream| ==> r == -1 && position == old(position)
    {
      if position >= |stream| {
        return -1;
      }
      r := stream[position];
      position := position + 1;
    }

    /** `ReadUShort`. */
    method ReadUShort() returns (r: Result<u16>)
      modifies this`position
      ensures r == ReadU16At(stream, old(position), isLittleEndian)
      ensures r.Ok? ==> position == old(position) + 2
    {
      var bytes := ReadBytes(2);
      if |bytes| < 2 {
        return Err(EndOfStream);
      }
      r := Ok(ToUShort(bytes, isLittleEndian));
    }

    /** `ReadUint`. */
    method ReadUint() returns (r: Result<u32>)
      modifies this`position
      ensures r == ReadU32At(stream, old(position), isLittleEndian)
      ensures r.Ok? ==> position == old(position) + 4
    {
      var bytes := ReadBytes(4);
      if |bytes| < 4 {
        return Err(EndOfStream);
      }
      r := Ok(ToUint(bytes, isLittleEndian));
    }

    /** `ReadString`: the bytes read, as text. */
    method ReadString(n: nat) returns (r: string)
      modifies this`position
      ensures r == ReadText(stream, old(position), n)
      ensures position == AfterRead(stream, old(position), n)
    {
      var bytes := ReadBytes(n);
      r := AsChars(bytes);
    }

    /** `ReadBytes(tiffOffset, byteCount)`: read at a TIFF offset, then return to where the reader was. */
    method ReadBytesAt(tiffOffset: u16, byteCount: nat) returns (r: seq<byte>)
      modifies this`position
      ensures r == ReadUpTo(stream, tiffOffset + tiffHeaderStart, byteCount)
      ensures position == old(position)
    {
      var originalOffset := position;
      position := tiffOffset + tiffHeaderStart;
      r := ReadBytes(byteCount);
      position := originalOffset;
    }

    /** `Stream.Read(buffer, 0, count)`: fill the front of `buffer` with what the stream still holds. */
    method StreamRead(buffer: array<byte>, count: nat) returns (read: nat)
      requires count <= buffer.Length
      modifies this`position, buffer
      ensures read == |ReadUpTo(stream, old(position), count)|
      ensures buffer[..] == ReadUpTo(stream, old(position), count) + old(buffer[..])[read..]
      ensures position == old(position) + read
    {
      var data := ReadBytes(count);
      read := |data|;
      for i := 0 to read
        invariant buffer[..] == data[..i] + old(buffer[..])[i..]
        invariant position == old(position) + read
      {
        buffer[i] := data[i];
        assert buffer[..] == data[..i + 1] + old(buffer[..])[i + 1..];
      }
      assert data[..read] == data;
    }

    // -------------------------------------------------------------------------
    // Seeking to the Exif block and indexing it

    /** `ReadToExifStart`: skip marker segments until the APP1 marker has been read. */
    method ReadToExifStart() returns (r: Result<()>)
      requires !isLittleEndian
      modifies this`position
      ensures FindApp1(stream, old(position)).Ok? ==> r.Ok? && position == FindApp1(stream, old(position)).value
      ensures FindApp1(stream, old(position)).Err? ==> r == Err(FindApp1(stream, old(position)).error)
    {
      ghost var start := position;
      while true
        invariant FindApp1(stream, position) == FindApp1(stream, start)
        decreases |stream| - position
      {
        var markerStart :- ReadByte();
        if markerStart != 0xFF {
          return Err(ExifBlockNotFound);
        }
        var markerNumber :- ReadByte();
        if markerNumber == App1 {
          return Ok(());
        }
        var dataLength :- ReadUShort();
        if position + dataLength - 2 >= |stream| {
          // The next ReadByte is past the end.
          return Err(EndOfStream);
        }
        // Seek(dataLength - 2, SeekOrigin.Current): the length counts its own two bytes.
        position := position + dataLength - 2;
      }
    }

    /** `CatalogueIFD`: file every entry of the IFD at the current position into `tagOffsets`. */
    method CatalogueIFD(tagOffsets: map<u16, nat>) returns (r: Result<map<u16, nat>>)
      modifies this`position
      ensures CatalogueIfd(stream, isLittleEndian, old(position), tagOffsets).Ok? ==>
        && r == Ok(CatalogueIfd(stream, isLittleEndian, old(position), tagOffsets).value.catalogue)
        && position == CatalogueIfd(stream, isLittleEndian, old(position), tagOffsets).value.next
      ensures CatalogueIfd(stream, isLittleEndian, old(position), tagOffsets).Err? ==>
        r == Err(CatalogueIfd(stream, isLittleEndian, old(position), tagOffsets).error)
    {
      ghost var little := isLittleEndian;
      ghost var spec := CatalogueIfd(stream, little, position, tagOffsets);
      var entryCount :- ReadUShort();
      ghost var first := position;
      assert spec == CatalogueEntries(stream, little, first, entryCount, tagOffsets);
      var catalogue: map<u16, nat> := tagOffsets;
      var currentEntry: nat := 0;
      while currentEntry < entryCount
        invariant currentEntry <= entryCount
        invariant position == EntryAt(first, currentEntry)
        invariant CatalogueEntries(stream, little, position, entryCount - currentEntry, catalogue) == spec
      {
        ghost var here := position;
        ghost var before := catalogue;
        var currentTagNumber :- ReadUShort();
        CatalogueStep(stream, little, here, entryCount - currentEntry, before, currentTagNumber);
        catalogue := catalogue[currentTagNumber := position - 2];
        // Go to the end of this 12-byte entry.
        position := position + 10;
        currentEntry := currentEntry + 1;
        assert position == here + 12 && catalogue == before[currentTagNumber := here];
      }
      r := Ok(catalogue);
    }

    /** `CreateTagIndex`, from the APP1 length field. */
    method CreateTagIndex() returns (r: Result<()>)
      requires !isLittleEndian && ifd1Catalogue.None?
      modifies this`position, this`isLittleEndian, this`tiffHeaderStart, this`ifd1Offset
      modifies this`ifd0Catalogue, this`ifd1Catalogue
      ensures IndexTags(stream, old(position)).Ok? ==> r.Ok? && State() == IndexTags(stream, old(position)).value
      ensures IndexTags(stream, old(position)).Err? ==> r == Err(IndexTags(stream, old(position)).error)
      ensures r.Ok? ==> Valid()
    {
      ghost var q := position;
      var ifdOffset :- ReadTiffHeader();
      ghost var h := TiffHeader(isLittleEndian, tiffHeaderStart, ifdOffset);
      assert IndexTags(stream, q) == Directories(stream, h);
      r := CatalogueDirectories(ifdOffset);
      if r.Ok? {
        IndexedCataloguesAreSound(stream, q);
      }
    }

    /** The second half of `CreateTagIndex`: IFD0 and the offset of IFD1 that follows it, then the rest. */
    method CatalogueDirectories(ifdOffset: u32) returns (r: Result<()>)
      requires ifd1Catalogue.None?
      modifies this`position, this`ifd1Offset, this`ifd0Catalogue, this`ifd1Catalogue
      ensures var h := TiffHeader(isLittleEndian, tiffHeaderStart, ifdOffset);
        Directories(stream, h).Ok? ==> r.Ok? && State() == Directories(stream, h).value
      ensures var h := TiffHeader(isLittleEndian, tiffHeaderStart, ifdOffset);
        Directories(stream, h).Err? ==> r == Err(Directories(stream, h).error)
    {
      ghost var h := TiffHeader(isLittleEndian, tiffHeaderStart, ifdOffset);
      // The offset is from the first byte of the TIFF header.
      position := ifdOffset + tiffHeaderStart;
      ghost var ifd0 := CatalogueIfd(stream, isLittleEndian, position, map[]);
      var first := CatalogueIFD(map[]);
      if first.Err? {
        assert Directories(stream, h) == Err(ifd0.error);
        return Err(first.error);
      }
      ifd0Catalogue := first.value;
      ghost var link := ReadU32At(stream, position, isLittleEndian);
      var nextIfd := ReadUint();
      if nextIfd.Err? {
        assert Directories(stream, h) == Err(link.error);
        return Err(nextIfd.error);
      }
      ifd1Offset := nextIfd.value;
      assert Directories(stream, h) == LinkedIndex(stream, isLittleEndian, tiffHeaderStart, first.value, nextIfd.value);
      r := CatalogueLinkedIfds();
    }

    /** The sub-IFDs, filed into IFD0's catalogue, then the thumbnail IFD1. */
    method CatalogueLinkedIfds() returns (r: Result<()>)
      requires ifd1Catalogue.None?
      modifies this`position, this`ifd0Catalogue, this`ifd1Catalogue
      ensures var index := LinkedIndex(stream, isLittleEndian, tiffHeaderStart, old(ifd0Catalogue), ifd1Offset);
        index.Ok? ==> r.Ok? && State() == index.value
      ensures var index := LinkedIndex(stream, isLittleEndian, tiffHeaderStart, old(ifd0Catalogue), ifd1Offset);
        index.Err? ==> r == Err(index.error)
    {
      var _ :- CatalogueSubIfds();
      r := CatalogueThumbnailIfd();
    }

    /** The Exif and TIFF headers at the start of `CreateTagIndex`; the result is the IFD0 offset. */
    method ReadTiffHeader() returns (r: Result<u32>)
      requires !isLittleEndian
      modifies this`position, this`isLittleEndian, this`tiffHeaderStart
      ensures ReadHeader(stream, old(position)).Ok? ==>
        var h := ReadHeader(stream, old(position)).value;
        r == Ok(h.ifdOffset) && isLittleEndian == h.little && tiffHeaderStart == h.tiffStart
      ensures ReadHeader(stream, old(position)).Err? ==> r == Err(ReadHeader(stream, old(position)).error)
    {
      // The APP1 length, which is not used.
      var _ :- ReadUShort();
      var signature := ReadString(4);
      if signature != "Exif" {
        return Err(ExifDataNotFound);
      }
      var pad :- ReadUShort();
      if pad != 0 {
        return Err(MalformedExifData);
      }
      tiffHeaderStart := position;
      var order := ReadString(2);
      isLittleEndian := order == "II";
      var magic :- ReadUShort();
      if magic != TiffMagic {
        return Err(BadTiffHeader);
      }
      r := ReadUint();
    }

    /** The Exif sub-IFD, which must be there, and the GPS IFD, which may be, filed into IFD0's catalogue. */
    method CatalogueSubIfds() returns (r: Result<()>)
      modifies this`position, this`ifd0Catalogue
      ensures SubIfds(stream, isLittleEndian, tiffHeaderStart, old(ifd0Catalogue)).Ok? ==>
        r.Ok? && ifd0Catalogue == SubIfds(stream, isLittleEndian, tiffHeaderStart, old(ifd0Catalogue)).value
      ensures SubIfds(stream, isLittleEndian, tiffHeaderStart, old(ifd0Catalogue)).Err? ==>
        r == Err(SubIfds(stream, isLittleEndian, tiffHeaderStart, old(ifd0Catalogue)).error)
    {
      var exif :- GetTagValueIn(ifd0Catalogue, ExifIfdPointer, UIntType);
      if exif.NotFound? {
        return Err(ExifIfdNotFound);
      }
      var _ :- FollowIfdLink(exif);
      // The GPS IFD is optional.
      var gps :- GetTagValueIn(ifd0Catalogue, GpsIfdPointer, UIntType);
      r := FollowIfdLink(gps);
    }

    /** Jump to the IFD a pointer tag gives (an offset from the TIFF header) and add its tags to IFD0's catalogue. */
    method FollowIfdLink(link: Lookup<TagValue>) returns (r: Result<()>)
      requires link.Found? ==> HasType(link.value, UIntType)
      modifies this`position, this`ifd0Catalogue
      ensures FollowLink(stream, isLittleEndian, tiffHeaderStart, old(ifd0Catalogue), link).Ok? ==>
        r.Ok? && ifd0Catalogue == FollowLink(stream, isLittleEndian, tiffHeaderStart, old(ifd0Catalogue), link).value
      ensures FollowLink(stream, isLittleEndian, tiffHeaderStart, old(ifd0Catalogue), link).Err? ==>
        r == Err(FollowLink(stream, isLittleEndian, tiffHeaderStart, old(ifd0Catalogue), link).error)
    {
      if link.Found? {
        position := link.value.element.u32Value + tiffHeaderStart;
        var merged :- CatalogueIFD(ifd0Catalogue);
        ifd0Catalogue := merged;
      }
      r := Ok(());
    }

    /** The thumbnail IFD1, catalogued when its offset is not zero. */
    method CatalogueThumbnailIfd() returns (r: Result<()>)
      requires ifd1Catalogue.None?
      modifies this`position, this`ifd1Catalogue
      ensures ThumbnailIfd(stream, isLittleEndian, tiffHeaderStart, ifd1Offset).Ok? ==>
        r.Ok? && ifd1Catalogue == ThumbnailIfd(stream, isLittleEndian, tiffHeaderStart, ifd1Offset).value
      ensures ThumbnailIfd(stream, isLittleEndian, tiffHeaderStart, ifd1Offset).Err? ==>
        r == Err(ThumbnailIfd(stream, isLittleEndian, tiffHeaderStart, ifd1Offset).error)
    {
      if ifd1Offset != 0 {
        position := ifd1Offset + tiffHeaderStart;
        var ifd1 :- CatalogueIFD(map[]);
        ifd1Catalogue := Some(ifd1);
      }
      r := Ok(());
    }

    /** The `ExifReader(Stream)` constructor: a reader, or the exception it throws. */
    static method Open(s: seq<byte>) returns (r: Result<ExifReader>)
      ensures ParseExif(s).Ok? ==>
        && r.Ok? && fresh(r.value)
        && r.value.stream == s
        && r.value.State() == ParseExif(s).value
        && r.value.Valid()
      ensures ParseExif(s).Err? ==> r == Err(ParseExif(s).error)
    {
      var reader := new ExifReader.Attach(s);
      var soi :- reader.ReadUShort();
      if soi != StartOfImage {
        return Err(NotAJpeg);
      }
      var _ :- reader.ReadToExifStart();
      var _ :- reader.CreateTagIndex();
      r := Ok(reader);
    }

    // -------------------------------------------------------------------------
    // Tag retrieval

    /** `GetTagBytes`. */
    method GetTagBytes(tagDictionary: map<u16, nat>, tagID: u16) returns (r: Result<Lookup<RawTag>>)
      modifies this`position
      ensures r == TagBytes(stream, isLittleEndian, tiffHeaderStart, tagDictionary, tagID)
    {
      if tagID !in tagDictionary {
        return Ok(NotFound);
      }
      position := tagDictionary[tagID];
      var currentTagID :- ReadUShort();
      if currentTagID != tagID {
        return Err(TagNotAtExpectedOffset);
      }
      var tiffDataType :- ReadUShort();
      var numberOfComponents :- ReadUint();
      var tagData := ReadBytes(4);
      var entry := Entry(tiffDataType, numberOfComponents, tagData);
      assert ReadEntry(stream, isLittleEndian, tagDictionary[tagID]) == Ok(entry);
      var data :- ReadValue(entry);
      r := Ok(Found(RawTag(tiffDataType, numberOfComponents, data)));
    }

    /** The second half of `GetTagBytes`: the value in the entry's value field, or at the offset it holds. */
    method ReadValue(entry: Entry) returns (r: Result<seq<byte>>)
      modifies this`position
      ensures r == ValueBytes(stream, isLittleEndian, tiffHeaderStart, entry)
    {
      var fieldLength :- FieldLength(entry.tiffType);
      var dataSize := DataSize(entry.count, fieldLength);
      if dataSize > 4 {
        if |entry.valueField| < 2 {
          return Err(EndOfStream);
        }
        var offsetAddress := ToUShort(entry.valueField, isLittleEndian);
        var data := ReadBytesAt(offsetAddress, dataSize);
        return Ok(data);
      }
      if dataSize < 0 {
        return Err(NegativeSize);
      }
      // The value is stored in the value field, from the left.
      r := Ok(Resize(entry.valueField, dataSize));
    }

    /** The type switch of the private `GetTagValue`. */
    method DecodeTag(raw: RawTag, asDate: bool) returns (r: Result<Lookup<TagValue>>)
      ensures r == DecodeValue(raw, isLittleEndian, asDate)
    {
      var fieldLength :- FieldLength(raw.tiffType);
      var t := raw.tiffType;
      if t == 1 || t == 7 {
        if raw.count != 1 {
          return Ok(Found(RawBytes(raw.data)));
        }
        if |raw.data| < 1 {
          return Err(EndOfStream);
        }
        return Ok(Found(Scalar(UByte(raw.data[0]))));
      }
      if t == 2 {
        var text := CutAtNul(AsChars(raw.data));
        if !asDate {
          return Ok(Found(Text(text)));
        }
        var date :- ToDateTime(text);
        if date.NotFound? {
          return Ok(NotFound);
        }
        return Ok(Found(Date(date.value)));
      }
      if raw.count == 1 {
        if |raw.data| != fieldLength {
          return Err(EndOfStream);
        }
        return Ok(Found(Scalar(ToElement(t, isLittleEndian, raw.data))));
      }
      var elements := GetElements(raw.data, t, isLittleEndian);
      r := Ok(Found(Vector(elements)));
    }

    /** The private `GetTagValue<T>(tagDictionary, tagID, out result)`. */
    method GetTagValueIn(tagDictionary: map<u16, nat>, tagID: u16, want: Want) returns (r: Result<Lookup<TagValue>>)
      modifies this`position
      ensures r == LookupValue(stream, isLittleEndian, tiffHeaderStart, tagDictionary, tagID, want)
      // The catalogues the constructor built are sound: a lookup through them finds the tag it expects.
      ensures Sound(stream, isLittleEndian, tagDictionary) && r.Err? ==> r.error != TagNotAtExpectedOffset
    {
      if Sound(stream, isLittleEndian, tagDictionary) {
        SoundLookupFindsItsTag(stream, isLittleEndian, tiffHeaderStart, tagDictionary, tagID, want);
      }
      var tag :- GetTagBytes(tagDictionary, tagID);
      if tag.NotFound? {
        return Ok(NotFound);
      }
      var decoded :- DecodeTag(tag.value, want == DateTimeType);
      if decoded.NotFound? {
        return Ok(NotFound);
      }
      var result :- Cast(decoded.value, want);
      r := Ok(Found(result));
    }

    /** The public `GetTagValue<T>(tagID, out result)`: all useful tags are in the IFD0 catalogue. */
    method GetTagValue(tagID: u16, want: Want) returns (r: Result<Lookup<TagValue>>)
      modifies this`position
      ensures r == LookupValue(stream, isLittleEndian, tiffHeaderStart, ifd0Catalogue, tagID, want)
      ensures Valid() && r.Err? ==> r.error != TagNotAtExpectedOffset
    {
      r := GetTagValueIn(ifd0Catalogue, tagID, want);
    }

    // -------------------------------------------------------------------------
    // Thumbnail retrieval

    /** `GetJpegThumbnailBytes`. */
    method GetJpegThumbnailBytes() returns (r: Result<Option<seq<byte>>>)
      modifies this`position
      ensures r == Thumbnail(stream, State())
      ensures Valid() && r.Err? ==> r.error != TagNotAtExpectedOffset
    {
      if ifd1Catalogue.None? {
        return Ok(None);
      }
      var compression :- GetTagValueIn(ifd1Catalogue.value, Compression, UShortType);
      if compression.NotFound? || compression.value.element.u16Value != JpegCompression {
        return Ok(None);
      }
      var offset :- GetTagValueIn(ifd1Catalogue.value, JpegInterchangeFormat, UIntType);
      if offset.NotFound? {
        return Ok(None);
      }
      var length :- GetTagValueIn(ifd1Catalogue.value, JpegInterchangeFormatLength, UIntType);
      if length.NotFound? {
        return Ok(None);
      }
      ghost var tags := (offset.value.element.u32Value, length.value.element.u32Value);
      assert ThumbnailTags(stream, State()) == Ok(Some(tags));
      r := ReadThumbnail(offset.value.element.u32Value, length.value.element.u32Value);
    }

    /**
     * Scan forward from `offset` to the JPEG start-of-image marker, or to the
     * end of the stream; when found, the position is just past the marker.
     */
    method SeekStartOfImage(offset: u32) returns (found: bool)
      modifies this`position
      ensures found <==> ScanForSoi(stream, offset, -1).Some?
      ensures found ==> position == ScanForSoi(stream, offset, -1).value + 1
    {
      position := offset;
      var previousByte: int := -1;
      var currentByte := StreamReadByte();
      while currentByte != -1
        invariant currentByte != -1 ==> 1 <= position <= |stream| && currentByte == stream[position - 1]
        invariant currentByte == -1 ==> ScanForSoi(stream, offset, -1) == None
        invariant currentByte != -1 ==>
          ScanForSoi(stream, offset, -1) == ScanForSoi(stream, position - 1, previousByte)
        decreases |stream| + 2 - position - (if currentByte == -1 then 1 else 0)
      {
        if previousByte == 0xFF && currentByte == 0xD8 {
          break;
        }
        previousByte := currentByte;
        currentByte := StreamReadByte();
      }
      found := currentByte == 0xD8;
    }

    /** The scan and the read at the end of `GetJpegThumbnailBytes`. */
    method ReadThumbnail(offset: u32, length: u32) returns (r: Result<Option<seq<byte>>>)
      modifies this`position
      ensures r == ThumbnailAt(stream, offset, length)
    {
      var found := SeekStartOfImage(offset);
      if !found {
        return Ok(None);
      }
      // Step back to the start of the marker.
      position := position - 2;
      if length > 0x7FFF_FFFF {
        return Err(Overflow);
      }
      var imageBytes := ReadImage(length);
      if |imageBytes| < 2 || imageBytes[length - 1] != 0xD9 || imageBytes[length - 2] != 0xFF {
        return Ok(None);
      }
      r := Ok(Some(imageBytes));
    }

    /** `new byte[length]` filled by one `Stream.Read`: the bytes available, zero-padded. */
    method ReadImage(length: u32) returns (image: seq<byte>)
      requires length <= 0x7FFF_FFFF
      modifies this`position
      ensures image == Resize(ReadUpTo(stream, old(position), length), length)
      ensures position == old(position) + |ReadUpTo(stream, old(position), length)|
    {
      var imageBytes := new byte[length](_ => 0);
      ghost var zeros := imageBytes[..];
      ghost var data := ReadUpTo(stream, position, length);
      var _ := StreamRead(imageBytes, length);
      assert imageBytes[..] == Resize(data, length) by {
        forall i | 0 <= i < length
          ensures imageBytes[i] == Resize(data, length)[i]
        {
          if i >= |data| {
            assert imageBytes[i] == zeros[i];
          }
        }
      }
      image := imageBytes[..];
    }
  }
}

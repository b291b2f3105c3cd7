# ExifLib decoder, modelled in Dafny

This project models the EXIF decoder that the ImageLibraryRenamer tool uses to
date its photographs. It also models the small helpers it keeps beside that
decoder.

- **`ExifReader` (module `ExifReaderModel`)** is a class over a seekable stream.
  - The constructor checks the JPEG start-of-image marker and skips segments
    until the APP1 marker.
  - It then reads the "Exif" header and the TIFF header with its byte-order
    mark.
  - It catalogues the entries of IFD0, the Exif sub-IFD, the optional GPS IFD
    and the optional thumbnail IFD1. A catalogue maps a tag number to the
    absolute offset of its 12-byte entry.
  - `GetTagValue<T>` looks an entry up, reads its value bytes (inline, or at a
    16-bit offset from the TIFF header) and decodes them by TIFF type.
  - `GetJpegThumbnailBytes` finds the embedded JPEG thumbnail.
- **The specification.** The class methods change only the stream position
  and the catalogue fields. Each method is proved equal to a function over the
  stream bytes:
  - module `ExifLayout` holds the layout functions;
  - module `Tiff` holds the field types, byte order and value decoding;
  - module `ExifDates` holds the EXIF timestamp format.

  The lemmas are stated about those functions.
- **`Rational` and the `convertTo…` helpers (module `ExifExtractor`).**
  - C#'s truncating `/` and `%` are written out, together with their overflow
    on `int.MinValue / -1`.
  - Euclid's algorithm is proved to give a greatest common divisor. Simplified
    fractions are proved to keep their value and to be in lowest terms.
  - The cases in which the C# code throws are characterised exactly.
- **`ImageViewer.GetTakenTime`** tries DateTimeOriginal, DateTimeDigitized,
  DateTime and GPSDateStamp in turn.

Host conventions:
- `BitConverter` is taken to run on a little-endian host.
- A number read from too few bytes is the end-of-stream error.
- A failed `(T)(object)` cast is the invalid-cast error.
- Every exception the code can raise on a byte stream is one value of
  `Outcomes.Error`.

## Model

| member | source | states |
|---|---|---|
| `Tiff.FieldLength` | ImageLibraryRenamer/ExifExtractor/ExifReader.cs:95-118 | types 1, 2, 6, 7 have 1 byte per component; 3, 8 have 2; 4, 9, 11 have 4; 5, 10, 12 have 8; any other type fails with the unknown-type error naming it |
| `Tiff.DataSize` | ImageLibraryRenamer/ExifExtractor/ExifReader.cs:625 | the value size is the 32-bit product cast to `int`: it lies in the `int` range, equals count × width when that fits, and is congruent to it modulo 2^32 |
| `Tiff.HostOrderReadsFileOrder` | ImageLibraryRenamer/ExifExtractor/ExifReader.cs:183-189 | reversing when the file order differs from the host's makes the host reading equal the reading in the file's declared byte order |
| `Tiff.ToUShortIsBitConverter` | ImageLibraryRenamer/ExifExtractor/ExifReader.cs:183-189 | `ToUShort` is `BitConverter.ToUInt16` of the host-ordered bytes |
| `Tiff.ToUintIsBitConverter` | ImageLibraryRenamer/ExifExtractor/ExifReader.cs:238-244 | `ToUint` is `BitConverter.ToUInt32` of the host-ordered bytes |
| `Tiff.ToBitsIsBitConverter` | ImageLibraryRenamer/ExifExtractor/ExifReader.cs:258-272 | the bit pattern `ToDouble` and `ToSingle` hand to `BitConverter` is the host-ordered reading of the bytes |
| `Tiff.ToUShortReadsFileOrder` | ImageLibraryRenamer/ExifExtractor/ExifReader.cs:183-189 | a 16-bit read is the little-endian value for "II" files and the big-endian value otherwise |
| `Tiff.ToUintReadsFileOrder` | ImageLibraryRenamer/ExifExtractor/ExifReader.cs:238-244 | a 32-bit read is the little-endian value for "II" files and the big-endian value otherwise |
| `Tiff.SignedReadings` | ImageLibraryRenamer/ExifExtractor/ExifReader.cs:250-280 | `ToInt` and `ToShort` are the two's-complement readings of the unsigned ones |
| `Tiff.ShortByteOrderRoundTrip` | ImageLibraryRenamer/ExifExtractor/ExifReader.cs:183-189 | a 16-bit value written in either byte order is read back unchanged in that order |
| `Tiff.LongByteOrderRoundTrip` | ImageLibraryRenamer/ExifExtractor/ExifReader.cs:238-244 | a 32-bit value written in either byte order is read back unchanged in that order |
| `Tiff.UShortOfLongIsLow16Bits` | ImageLibraryRenamer/ExifExtractor/ExifReader.cs:629 | the out-of-line offset `ToUShort` takes from a 4-byte value field is the field's 32-bit value modulo 2^16 |
| `Tiff.ToSByte` | ImageLibraryRenamer/ExifExtractor/ExifReader.cs:282-286 | the result is an `sbyte` congruent to byte − 255 modulo 256 |
| `Tiff.SByteIsShiftedByOne` | ImageLibraryRenamer/ExifExtractor/ExifReader.cs:282-286 | `ToSByte` gives the two's-complement byte plus one, except 0x7F, which gives −128 |
| `Tiff.GetArray` | ImageLibraryRenamer/ExifExtractor/ExifReader.cs:296-313 | the array has length/width elements, element i being the converter applied to the i-th chunk |
| `Tiff.GetElements` | ImageLibraryRenamer/ExifExtractor/ExifReader.cs:494-557 | the array branch of every numeric type yields the elements that type's converter reads |
| `Tiff.CutAtNul` | ImageLibraryRenamer/ExifExtractor/ExifReader.cs:472-474 | the text is a prefix of the string, holds no NUL, and is followed by a NUL when it is shorter |
| `Tiff.DecodeValue` | ImageLibraryRenamer/ExifExtractor/ExifReader.cs:454-561 | an unknown type fails with the unknown-type error; the only other failures are too few bytes and a malformed date |
| `Tiff.Cast` | ImageLibraryRenamer/ExifExtractor/ExifReader.cs:463 | `(T)(object)v` succeeds exactly when v has the requested type, returns v unchanged, and otherwise fails with the invalid-cast error |
| `Tiff.DecodedShape` | ImageLibraryRenamer/ExifExtractor/ExifReader.cs:458-558 | ASCII gives text or a date; one component gives a scalar of the type's converter; more give raw bytes (types 1, 7) or an element array |
| `Tiff.DecodedVector` | ImageLibraryRenamer/ExifExtractor/ExifReader.cs:491-557 | a numeric tag with a count other than one decodes to one element per full component, each read by the type's converter |
| `Tiff.DecodedShortRoundTrip` | ImageLibraryRenamer/ExifExtractor/ExifReader.cs:489-495 | a SHORT value stored in the file's byte order decodes to that value |
| `Tiff.DecodedLongRoundTrip` | ImageLibraryRenamer/ExifExtractor/ExifReader.cs:496-502 | a LONG value stored in the file's byte order decodes to that value |
| `Tiff.DecodedText` | ImageLibraryRenamer/ExifExtractor/ExifReader.cs:467-488 | ASCII decodes to the characters before the first NUL |
| `Tiff.CutAtTerminator` | ImageLibraryRenamer/ExifExtractor/ExifReader.cs:472-474 | whatever follows the first NUL is dropped |
| `Tiff.DecodedDateRoundTrip` | ImageLibraryRenamer/ExifExtractor/ExifReader.cs:477-483 | a formatted timestamp with its NUL terminator decodes, read as a date, to that timestamp |
| `Tiff.DecodedBlankDateIsNotFound` | ImageLibraryRenamer/ExifExtractor/ExifReader.cs:477-483 | an all-zero timestamp read as a date is reported as not found |
| `ExifDates.ToDateTime` | ImageLibraryRenamer/ExifExtractor/ExifReader.cs:564-586 | an empty or blank date string, and only that, gives no date; a date found is a valid calendar date, and is found only for 10- or 19-character strings; a 10-character string gives midnight; the only failure is the format error |
| `ExifDates.DateTimeRoundTrip` | ImageLibraryRenamer/ExifExtractor/ExifReader.cs:584 | "yyyy:MM:dd HH:mm:ss" of a valid timestamp parses back to it |
| `ExifDates.DateRoundTrip` | ImageLibraryRenamer/ExifExtractor/ExifReader.cs:577-581 | "yyyy:MM:dd" of a valid date parses back to that date at midnight |
| `ExifDates.BlankDatesAreUnknown` | ImageLibraryRenamer/ExifExtractor/ExifReader.cs:570-574 | the empty string and the blank and all-zero timestamps give no date rather than an error |
| `ExifDates.FormattedIsNotBlank` | ImageLibraryRenamer/ExifExtractor/ExifReader.cs:18 | a string carrying a real month never matches the null-date pattern |
| `ExifLayout.ReadUpTo` | ImageLibraryRenamer/ExifExtractor/ExifReader.cs:148-151 | `ReadBytes(n)` returns the n bytes at the position when they remain, otherwise all the bytes that remain, and nothing past the end |
| `ExifLayout.ReadU16At` | ImageLibraryRenamer/ExifExtractor/ExifReader.cs:128-131 | a 16-bit read succeeds exactly when two bytes remain and otherwise fails at end of stream |
| `ExifLayout.ReadU32At` | ImageLibraryRenamer/ExifExtractor/ExifReader.cs:137-140 | a 32-bit read succeeds exactly when four bytes remain and otherwise fails at end of stream |
| `ExifLayout.FindApp1` | ImageLibraryRenamer/ExifExtractor/ExifReader.cs:330-351 | the scan stops just after an FF E1 marker; a segment not starting with FF fails with the block-not-found error; FF E1 at the start is taken at once |
| `ExifLayout.CatalogueEntries` | ImageLibraryRenamer/ExifExtractor/ExifReader.cs:650-659 | k entries are walked 12 bytes apart and the walk ends after the last; it fails exactly when a tag number cannot be read |
| `ExifLayout.CatalogueStep` | ImageLibraryRenamer/ExifExtractor/ExifReader.cs:652-658 | one step files the tag read at p under offset p and moves on by 12 bytes |
| `ExifLayout.CatalogueKeepsTags` | ImageLibraryRenamer/ExifExtractor/ExifReader.cs:643-660 | cataloguing never removes a tag already catalogued |
| `ExifLayout.FilingKeepsSound` | ImageLibraryRenamer/ExifExtractor/ExifReader.cs:655 | filing a tag under the offset it was read from keeps every offset pointing at its own tag |
| `ExifLayout.CatalogueKeepsSound` | ImageLibraryRenamer/ExifExtractor/ExifReader.cs:643-660 | after cataloguing, every catalogued offset holds the tag it is filed under |
| `ExifLayout.UnreadTagIsKept` | ImageLibraryRenamer/ExifExtractor/ExifReader.cs:650-659 | a tag no walked entry holds keeps its earlier offset, or stays absent |
| `ExifLayout.FirstEntryWins` | ImageLibraryRenamer/ExifExtractor/ExifReader.cs:655 | the first entry stays filed under its tag when no later entry repeats the tag |
| `ExifLayout.LastEntryWins` | ImageLibraryRenamer/ExifExtractor/ExifReader.cs:650-659 | when a tag occurs twice, the catalogue keeps the offset of its last entry |
| `ExifLayout.CatalogueIfd` | ImageLibraryRenamer/ExifExtractor/ExifReader.cs:643-660 | an IFD catalogue ends right after the count and its 12-byte entries, where the next-IFD link is read |
| `ExifLayout.Resize` | ImageLibraryRenamer/ExifExtractor/ExifReader.cs:634 | `Array.Resize` yields exactly the requested length: a prefix of the array when it shrinks, the whole array followed by zero bytes when it grows |
| `ExifLayout.ReadEntry` | ImageLibraryRenamer/ExifExtractor/ExifReader.cs:618-620 | after the tag number come the type, the count and the 4-byte value field, which may come back short at the end of the stream |
| `ExifLayout.ValueBytes` | ImageLibraryRenamer/ExifExtractor/ExifReader.cs:625-636 | a value of at most 4 bytes is the value field resized to its size; a larger one is the `ReadBytes` of its size at the TIFF start plus the 16-bit offset `ToUShort` takes from the value field, and fails with end-of-stream when the field is shorter than 2 bytes; a negative size fails; an unknown type fails with the unknown-type error |
| `ExifLayout.TagBytes` | ImageLibraryRenamer/ExifExtractor/ExifReader.cs:596-637 | an absent tag is not found; a present one must hold its own tag number at its offset, and then yields its type, count and value bytes |
| `ExifLayout.LookupValue` | ImageLibraryRenamer/ExifExtractor/ExifReader.cs:442-452 | an absent tag is not found; a value found is the decoding of the bytes `GetTagBytes` returns for the tag, and has the requested type; a cast failure needs a specific requested type |
| `ExifLayout.DecodedEntryIsFound` | ImageLibraryRenamer/ExifExtractor/ExifReader.cs:442-452 | conversely, a tag whose bytes decode to a value of the requested type is found as that value |
| `ExifLayout.StoredDateLooksUp` | ImageLibraryRenamer/ExifExtractor/ExifReader.cs:442-452 | an ASCII entry holding a date as "yyyy:MM:dd HH:mm:ss" and a NUL is found as that date by `GetTagValue<DateTime>` |
| `ExifLayout.SoundCatalogueFindsItsTag` | ImageLibraryRenamer/ExifExtractor/ExifReader.cs:612-615 | on a catalogue the decoder built, the tag-not-at-expected-offset error cannot occur |
| `ExifLayout.SoundLookupFindsItsTag` | ImageLibraryRenamer/ExifExtractor/ExifReader.cs:612-615 | `GetTagValue` on such a catalogue never fails with that error |
| `ExifLayout.HeaderLayout` | ImageLibraryRenamer/ExifExtractor/ExifReader.cs:357-381 | an accepted header has "Exif", two zero bytes, the TIFF header 8 bytes after the length field, the magic 42 and the IFD0 offset, in the declared byte order |
| `ExifLayout.HeaderFailures` | ImageLibraryRenamer/ExifExtractor/ExifReader.cs:363-378 | a missing "Exif" gives exif-data-not-found; non-zero padding gives malformed-exif-data; a wrong magic number gives bad-TIFF-header |
| `ExifLayout.SubIfds` | ImageLibraryRenamer/ExifExtractor/ExifReader.cs:395-403 | IFD0 without the Exif IFD pointer fails with the exif-IFD-not-found error |
| `ExifLayout.GpsIfd` | ImageLibraryRenamer/ExifExtractor/ExifReader.cs:407-414 | without a GPS IFD pointer the catalogue is unchanged |
| `ExifLayout.FollowLink` | ImageLibraryRenamer/ExifExtractor/ExifReader.cs:399-403 | a link that is not found leaves the catalogue unchanged |
| `ExifLayout.ThumbnailIfd` | ImageLibraryRenamer/ExifExtractor/ExifReader.cs:417-422 | there is no IFD1 catalogue exactly when the IFD1 offset is zero |
| `ExifLayout.LinkedIndex` | ImageLibraryRenamer/ExifExtractor/ExifReader.cs:390-422 | the index keeps the header's byte order, TIFF start and IFD1 offset |
| `ExifLayout.MergeKeepsSound` | ImageLibraryRenamer/ExifExtractor/ExifReader.cs:403 | adding a sub-IFD to a sound catalogue keeps it sound |
| `ExifLayout.FollowLinkKeepsSound` | ImageLibraryRenamer/ExifExtractor/ExifReader.cs:399-403 | following the Exif link keeps the catalogue sound |
| `ExifLayout.GpsIfdKeepsSound` | ImageLibraryRenamer/ExifExtractor/ExifReader.cs:407-414 | following the GPS link keeps the catalogue sound |
| `ExifLayout.SubIfdsKeepSound` | ImageLibraryRenamer/ExifExtractor/ExifReader.cs:393-414 | the merged IFD0, Exif and GPS catalogue is sound |
| `ExifLayout.ThumbnailIfdIsSound` | ImageLibraryRenamer/ExifExtractor/ExifReader.cs:417-422 | the IFD1 catalogue is sound |
| `ExifLayout.LinkedIndexIsSound` | ImageLibraryRenamer/ExifExtractor/ExifReader.cs:390-422 | both catalogues built after IFD0 are sound |
| `ExifLayout.DirectoriesAreSound` | ImageLibraryRenamer/ExifExtractor/ExifReader.cs:383-422 | both catalogues built from a header are sound |
| `ExifLayout.IndexedCataloguesAreSound` | ImageLibraryRenamer/ExifExtractor/ExifReader.cs:357-423 | `CreateTagIndex` builds sound catalogues |
| `ExifLayout.ParsedCataloguesAreSound` | ImageLibraryRenamer/ExifExtractor/ExifReader.cs:51-87 | every catalogued offset of an opened reader holds the tag filed there |
| `ExifLayout.MergeKeepsTags` | ImageLibraryRenamer/ExifExtractor/ExifReader.cs:403 | adding a sub-IFD never removes a tag |
| `ExifLayout.FollowLinkKeepsTags` | ImageLibraryRenamer/ExifExtractor/ExifReader.cs:399-414 | following a link never removes a tag |
| `ExifLayout.SubIfdsKeepIfd0Tags` | ImageLibraryRenamer/ExifExtractor/ExifReader.cs:395-414 | success needs the Exif IFD pointer in IFD0, and every IFD0 tag stays in the shared catalogue |
| `ExifLayout.MissingExifIfdFails` | ImageLibraryRenamer/ExifExtractor/ExifReader.cs:396-397 | IFD0 without the Exif IFD pointer makes the constructor fail with exif-IFD-not-found once the IFD1 link is read |
| `ExifLayout.JpegFailures` | ImageLibraryRenamer/ExifExtractor/ExifReader.cs:71-75 | a first word other than FFD8 gives not-a-JPEG; an APP1 search failure is the constructor's failure; a segment not starting with FF gives block-not-found |
| `ExifLayout.ParsedStreamShape` | ImageLibraryRenamer/ExifExtractor/ExifReader.cs:64-78 | an accepted stream starts with FFD8 and an APP1 segment carrying "Exif", zero padding and the magic 42, and its IFD0 holds the Exif IFD pointer |
| `ExifLayout.DirectoriesHoldExifPointer` | ImageLibraryRenamer/ExifExtractor/ExifReader.cs:380-422 | a built index keeps the header's byte order and TIFF start, and its IFD0 catalogue holds the Exif IFD pointer |
| `ExifLayout.ScanForSoi` | ImageLibraryRenamer/ExifExtractor/ExifReader.cs:699-708 | the scan stops on a D8 byte preceded by FF, and stops at once when the previous byte was FF and the next is D8 |
| `ExifLayout.ScanFindsFirstMarker` | ImageLibraryRenamer/ExifExtractor/ExifReader.cs:699-711 | no FF D8 pair ends between the offset and the marker found, and when none is found there is none after the offset |
| `ExifLayout.ThumbnailAt` | ImageLibraryRenamer/ExifExtractor/ExifReader.cs:696-723 | a returned thumbnail has the declared length, starts with FF D8 and ends with FF D9, and is the stream bytes from the FF before the first D8 marker after the offset, zero-filled past the end of the stream; conversely such a window inside the stream ending FF D9 is returned; no marker gives null; a length above `int.MaxValue` overflows once a marker is found |
| `ExifLayout.ThumbnailTags` | ImageLibraryRenamer/ExifExtractor/ExifReader.cs:674-694 | no IFD1, no Compression tag, a compression other than JPEG (6), or a missing JPEGInterchangeFormat or JPEGInterchangeFormatLength tag gives no thumbnail tags; tags returned are the offset and length those lookups found |
| `ExifLayout.Thumbnail` | ImageLibraryRenamer/ExifExtractor/ExifReader.cs:672-724 | no IFD1 or no thumbnail tags gives null; otherwise the thumbnail found from the IFD1 offset and length; a returned thumbnail is framed by the JPEG start and end markers |
| `ExifLayout.ThumbnailIsDescribedByIfd1` | ImageLibraryRenamer/ExifExtractor/ExifReader.cs:674-694 | a thumbnail is returned only when IFD1 says JPEG compression (6) and its JPEGInterchangeFormatLength tag equals the thumbnail's length |
| `ExifReaderModel.ExifReader.Attach` | ImageLibraryRenamer/ExifExtractor/ExifReader.cs:51-62 | a new reader is at position 0 on big-endian reads with empty catalogues |
| `ExifReaderModel.ExifReader.ReadBytes` | ImageLibraryRenamer/ExifExtractor/ExifReader.cs:148-151 | returns the bytes that remain, at most n, and advances past them |
| `ExifReaderModel.ExifReader.ReadByte` | ImageLibraryRenamer/ExifExtractor/ExifReader.cs:339 | `BinaryReader.ReadByte` returns the next byte or fails at end of stream |
| `ExifReaderModel.ExifReader.StreamReadByte` | ImageLibraryRenamer/ExifExtractor/ExifReader.cs:701 | `Stream.ReadByte` returns the next byte, or −1 at the end without moving |
| `ExifReaderModel.ExifReader.ReadUShort` | ImageLibraryRenamer/ExifExtractor/ExifReader.cs:128-131 | reads a 16-bit word in the current byte order |
| `ExifReaderModel.ExifReader.ReadUint` | ImageLibraryRenamer/ExifExtractor/ExifReader.cs:137-140 | reads a 32-bit word in the current byte order |
| `ExifReaderModel.ExifReader.ReadString` | ImageLibraryRenamer/ExifExtractor/ExifReader.cs:142-146 | reads up to n bytes as characters |
| `ExifReaderModel.ExifReader.ReadBytesAt` | ImageLibraryRenamer/ExifExtractor/ExifReader.cs:159-173 | reads at a TIFF offset and restores the position |
| `ExifReaderModel.ExifReader.StreamRead` | ImageLibraryRenamer/ExifExtractor/ExifReader.cs:717 | `Stream.Read` fills the buffer's prefix with the bytes that remain and leaves the rest of the buffer as it was |
| `ExifReaderModel.ExifReader.ReadToExifStart` | ImageLibraryRenamer/ExifExtractor/ExifReader.cs:330-351 | the reader stops right after the APP1 marker, or fails as the marker search fails |
| `ExifReaderModel.ExifReader.CatalogueIFD` | ImageLibraryRenamer/ExifExtractor/ExifReader.cs:643-660 | the loop files every entry's tag under its offset and leaves the position after the last entry |
| `ExifReaderModel.ExifReader.CreateTagIndex` | ImageLibraryRenamer/ExifExtractor/ExifReader.cs:357-423 | the reader's byte order, TIFF start and catalogues become the index the layout describes, or the method fails with the layout's error; on success every catalogued offset holds its own tag |
| `ExifReaderModel.ExifReader.ReadTiffHeader` | ImageLibraryRenamer/ExifExtractor/ExifReader.cs:359-381 | sets the byte order and the TIFF start from the header, or fails with its error |
| `ExifReaderModel.ExifReader.CatalogueDirectories` | ImageLibraryRenamer/ExifExtractor/ExifReader.cs:383-422 | catalogues IFD0, reads the IFD1 offset and builds the remaining catalogues |
| `ExifReaderModel.ExifReader.CatalogueLinkedIfds` | ImageLibraryRenamer/ExifExtractor/ExifReader.cs:393-422 | builds the sub-IFD and thumbnail catalogues after IFD0 |
| `ExifReaderModel.ExifReader.CatalogueSubIfds` | ImageLibraryRenamer/ExifExtractor/ExifReader.cs:393-414 | merges the Exif and GPS IFDs into the IFD0 catalogue |
| `ExifReaderModel.ExifReader.FollowIfdLink` | ImageLibraryRenamer/ExifExtractor/ExifReader.cs:399-403 | jumps to a linked IFD and merges it |
| `ExifReaderModel.ExifReader.CatalogueThumbnailIfd` | ImageLibraryRenamer/ExifExtractor/ExifReader.cs:416-422 | catalogues IFD1 when its offset is non-zero |
| `ExifReaderModel.ExifReader.Open` | ImageLibraryRenamer/ExifExtractor/ExifReader.cs:51-87 | opening succeeds exactly when the stream parses, giving a valid reader whose state is the parsed index; otherwise it fails with the parse error |
| `ExifReaderModel.ExifReader.GetTagBytes` | ImageLibraryRenamer/ExifExtractor/ExifReader.cs:596-637 | the tag's type, count and value bytes as the layout describes them |
| `ExifReaderModel.ExifReader.ReadValue` | ImageLibraryRenamer/ExifExtractor/ExifReader.cs:625-636 | the value bytes of an entry, in line or out of line, as the layout describes them |
| `ExifReaderModel.ExifReader.DecodeTag` | ImageLibraryRenamer/ExifExtractor/ExifReader.cs:454-561 | the type switch decodes the bytes as the value decoder does |
| `ExifReaderModel.ExifReader.GetTagValueIn` | ImageLibraryRenamer/ExifExtractor/ExifReader.cs:442-562 | the lookup, decoding and cast of a tag in the given catalogue; through a sound catalogue it never fails with tag-not-at-expected-offset |
| `ExifReaderModel.ExifReader.GetTagValue` | ImageLibraryRenamer/ExifExtractor/ExifReader.cs:428-440 | the public lookup searches the IFD0 catalogue; on a reader the constructor built it never fails with tag-not-at-expected-offset |
| `ExifReaderModel.ExifReader.GetJpegThumbnailBytes` | ImageLibraryRenamer/ExifExtractor/ExifReader.cs:672-724 | returns the thumbnail the layout describes for the reader's index; on a reader the constructor built it never fails with tag-not-at-expected-offset |
| `ExifReaderModel.ExifReader.SeekStartOfImage` | ImageLibraryRenamer/ExifExtractor/ExifReader.cs:696-711 | the byte loop finds a marker exactly when the scan does, and stops right after it |
| `ExifReaderModel.ExifReader.ReadThumbnail` | ImageLibraryRenamer/ExifExtractor/ExifReader.cs:696-723 | from the offset: scan, step back two bytes, read the declared length, check the end marker |
| `ExifReaderModel.ExifReader.ReadImage` | ImageLibraryRenamer/ExifExtractor/ExifReader.cs:716-717 | the new buffer holds the bytes read, zero-padded to the declared length |
| `ImageViewer.GetTakenTime` | ImageLibraryRenamer/ExifExtractor/ImageViewer.cs:9-56 | null when the reader cannot be opened; otherwise the first date of the four lookups in order, null on a throw, `MinValue` when none is found |
| `ImageViewer.TakenTimeOf` | ImageLibraryRenamer/ExifExtractor/ImageViewer.cs:16-43 | the four lookups in order give the first date found, null on a throw, `MinValue` when none is found |
| `ImageViewer.FallbackStep` | ImageLibraryRenamer/ExifExtractor/ImageViewer.cs:18-40 | each lookup either decides the result (a throw gives null, a date gives that date) or passes on to the next |
| `ImageViewer.FirstFoundDateWins` | ImageLibraryRenamer/ExifExtractor/ImageViewer.cs:18-40 | the first date found after lookups that came back false is the result |
| `ImageViewer.StoredDateIsTakenTime` | ImageLibraryRenamer/ExifExtractor/ImageViewer.cs:16-43 | a date stored as ASCII in the first of the four tags IFD0 holds is what `GetTakenTime` returns |
| `ImageViewer.StoredDateIsFound` | ImageLibraryRenamer/ExifExtractor/ImageViewer.cs:16-43 | the same on the catalogues of an opened reader: the lookups give that date |
| `ImageViewer.NoDateGivesMinValue` | ImageLibraryRenamer/ExifExtractor/ImageViewer.cs:42-43 | when no lookup finds a date the result is `DateTime.MinValue`, not null |
| `ImageViewer.FailedLookupGivesNone` | ImageLibraryRenamer/ExifExtractor/ImageViewer.cs:45-55 | a lookup that throws before any date is found gives null |
| `ImageViewer.FallbackIsNullOnlyOnError` | ImageLibraryRenamer/ExifExtractor/ImageViewer.cs:12-55 | the result is null exactly when some lookup throws before any date is found |
| `ImageViewer.TakenTimeOutcomes` | ImageLibraryRenamer/ExifExtractor/ImageViewer.cs:11-14 | a file that does not open gives null; an opened file without dates gives `MinValue` |
| `ExifExtractor.TDiv` | ImageLibraryRenamer/ExifExtractor/EXIFextractor.cs:452-453 | C# `/` on `int` throws exactly for `int.MinValue / -1` |
| `ExifExtractor.TRem` | ImageLibraryRenamer/ExifExtractor/EXIFextractor.cs:461 | C# `%` throws exactly for `int.MinValue % -1`; otherwise the remainder is smaller than the divisor in magnitude and takes the dividend's sign |
| `ExifExtractor.QuotIsTruncated` | ImageLibraryRenamer/ExifExtractor/EXIFextractor.cs:452 | the truncated quotient leaves a remainder smaller than the divisor with the dividend's sign, and is no larger than the dividend in magnitude |
| `ExifExtractor.EuclidIsCommonDivisor` | ImageLibraryRenamer/ExifExtractor/EXIFextractor.cs:456-462 | `euclid` returns a common divisor of its arguments |
| `ExifExtractor.EuclidIsGreatest` | ImageLibraryRenamer/ExifExtractor/EXIFextractor.cs:456-462 | every common divisor of the arguments divides what `euclid` returns |
| `ExifExtractor.EuclidWithoutMinValueSucceeds` | ImageLibraryRenamer/ExifExtractor/EXIFextractor.cs:456-462 | `euclid` never throws when neither argument is `int.MinValue` |
| `ExifExtractor.EuclidFails` | ImageLibraryRenamer/ExifExtractor/EXIFextractor.cs:456-462 | `euclid` throws exactly on (`int.MinValue`, −1) and (−1, `int.MinValue`) |
| `ExifExtractor.SimplifyFactors` | ImageLibraryRenamer/ExifExtractor/EXIFextractor.cs:446-454 | both numbers are exact multiples of the non-zero divisor they are divided by |
| `ExifExtractor.SimplifyKeepsValue` | ImageLibraryRenamer/ExifExtractor/EXIFextractor.cs:446-454 | the simplified pair is the same fraction (cross products equal) and is zero only where the input was |
| `ExifExtractor.SimplifyGivesLowestTerms` | ImageLibraryRenamer/ExifExtractor/EXIFextractor.cs:446-454 | the only common divisors of a simplified non-zero pair are 1 and −1 |
| `ExifExtractor.SimplifyFailsOnlyOnMinValue` | ImageLibraryRenamer/ExifExtractor/EXIFextractor.cs:446-454 | `simplify` can throw only when an argument is `int.MinValue` |
| `ExifExtractor.MinValueOverMaxValueOverflows` | ImageLibraryRenamer/ExifExtractor/EXIFextractor.cs:446-454 | simplifying `int.MinValue / int.MaxValue` throws, because `euclid` returns −1 |
| `ExifExtractor.SignMayMoveToDenominator` | ImageLibraryRenamer/ExifExtractor/EXIFextractor.cs:446-454 | −2/4 and 2/−4 both simplify to 1/−2: the sign can end up in the denominator |
| `ExifExtractor.FromInts` | ImageLibraryRenamer/ExifExtractor/EXIFextractor.cs:412-417 | the rational keeps its value, is in lowest terms when both parts are non-zero, and fails only when a part is `int.MinValue` |
| `ExifExtractor.LowestTerms` | ImageLibraryRenamer/ExifExtractor/EXIFextractor.cs:412-417 | a simplified non-zero pair has only 1 and −1 as common divisors |
| `ExifExtractor.FromUnsigned` | ImageLibraryRenamer/ExifExtractor/EXIFextractor.cs:419-425 | the unsigned constructor throws exactly when a part exceeds `int.MaxValue` |
| `ExifExtractor.ToDouble` | ImageLibraryRenamer/ExifExtractor/EXIFextractor.cs:438-444 | a zero denominator gives 0; otherwise the result times the denominator is the numerator |
| `ExifExtractor.FromIntsKeepsQuotient` | ImageLibraryRenamer/ExifExtractor/EXIFextractor.cs:438-444 | simplifying does not change the quotient `ToDouble` reports |
| `ExifExtractor.ZeroDenominatorIsZero` | ImageLibraryRenamer/ExifExtractor/EXIFextractor.cs:427-444 | n/0 is kept unsimplified and, like the default 0/0, converts to 0 |
| `ExifExtractor.ToStringRoundTrip` | ImageLibraryRenamer/ExifExtractor/EXIFextractor.cs:432-436 | numerator, separator and denominator can be read back from `ToString(sp)` for any separator not starting with a digit |
| `ExifExtractor.DefaultSeparatorRoundTrip` | ImageLibraryRenamer/ExifExtractor/EXIFextractor.cs:432-436 | a null separator is "/", and the text reads back as the fraction |
| `ExifExtractor.ConvertToInt32` | ImageLibraryRenamer/ExifExtractor/EXIFextractor.cs:297-303 | `convertToInt32` of anything but four bytes is 0 |
| `ExifExtractor.ConvertToInt32IsSignedLittleEndian` | ImageLibraryRenamer/ExifExtractor/EXIFextractor.cs:297-303 | `convertToInt32` of four bytes is their signed little-endian value, as `BitConverter.ToInt32` gives on the host |
| `ExifExtractor.ConvertToInt32RoundTrip` | ImageLibraryRenamer/ExifExtractor/EXIFextractor.cs:297-303 | any `int` written little-endian is read back by `convertToInt32` |
| `ExifExtractor.ConvertToInt16` | ImageLibraryRenamer/ExifExtractor/EXIFextractor.cs:309-315 | `convertToInt16` is never negative: it lies in 0..65535; anything but two bytes gives 0 |
| `ExifExtractor.ConvertToInt16IsUnsigned` | ImageLibraryRenamer/ExifExtractor/EXIFextractor.cs:309-315 | `convertToInt16` is the unsigned little-endian value, equals `convertToInt16U`, and differs from `BitConverter.ToInt16` when the high bit is set |
| `ExifExtractor.ConvertToInt16RoundTrip` | ImageLibraryRenamer/ExifExtractor/EXIFextractor.cs:309-315 | any 16-bit value written little-endian is read back by `convertToInt16` |
| `ExifExtractor.ConvertToInt32U` | ImageLibraryRenamer/ExifExtractor/EXIFextractor.cs:321-327 | `convertToInt32U` throws exactly for four bytes whose top byte has the high bit set; anything but four bytes gives 0 |
| `ExifExtractor.ConvertToInt32UIsLittleEndian` | ImageLibraryRenamer/ExifExtractor/EXIFextractor.cs:321-327 | when it does not throw, `convertToInt32U` is the little-endian value |
| `ExifExtractor.ConvertToInt16U` | ImageLibraryRenamer/ExifExtractor/EXIFextractor.cs:333-339 | `convertToInt16U` never throws, stays below 65536, is the unsigned little-endian value of two bytes and 0 for any other length |

## Left out

- File access: `ExifReader(string fileName)` and `GetTakenTime(fullName)` are modelled on the bytes of the file. Opening, sharing and locking files are not modelled.
- `Dispose` and the clean-up in the constructor's `catch`: there is no resource to release in the model.
- The null and non-seekable stream checks of the constructor: the model's stream is a byte sequence that is always present and seekable.
- The stream position after an exception: the model fails with an error value. It does not say where the position was left.
- `Stream.Read` returning fewer bytes than remain: the model reads everything that remains, up to the request.
- Out-of-memory on huge allocations is not modelled.
- Floating-point values:
  - types 5 and 10 are kept as the numerator and denominator pair before the division;
  - types 11 and 12 are kept as their IEEE-754 bit patterns.
- ExifExtractor.ToDouble: `Math.Round(…, 2)` and the rounding of the division to a `double` are not modelled. The contract states the exact quotient instead.
- Text decoding: `Encoding.UTF8.GetString` maps each byte to one character. This is exact for ASCII, which is what EXIF text holds.
- The whitespace class `\s` of the null-date pattern is taken as the ASCII whitespace characters.
- `DateTime.ParseExact`: only the two formats the decoder uses are modelled, over the proleptic Gregorian calendar. The culture does not enter into it.
- `int.ToString()` in `Rational.ToString` uses an ASCII minus sign. The culture's negative sign is not modelled.
- `GetTagValue<T>` is modelled for the type arguments its callers use (any value, `ushort`, `uint`, `DateTime`). The generic parameter is a `Want` value.
- Helper split: `CreateTagIndex`, `GetTagBytes` and `GetJpegThumbnailBytes` are split into helper methods. Each helper runs the source lines it cites, in order.
- The rest of EXIFextractor.cs (the `System.Drawing` property items) is not part of this model. Neither are the user interface, the renaming logic and the logging of ImageLibraryRenamer.
- The debug output of `GetTakenTime` is not modelled.

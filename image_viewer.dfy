/**
 * `ImageViewer.GetTakenTime`: the date a picture was taken, tried in the
 * order DateTimeOriginal, DateTimeDigitized, DateTime, GPSDateStamp.  A
 * failure while opening the stream or reading a tag gives no date at all
 * (null); when no tag has a date the result is `DateTime.MinValue`, the value
 * the last failed lookup left in the out parameter.
 */
module ImageViewer {
  import opened Bytes
  import opened Outcomes
  import opened ExifDates
  import opened Tiff
  import opened ExifLayout
  import opened ExifReaderModel

  /** The tags `GetTakenTime` consults, in order. */
  const TakenTimeTags: seq<u16> := [DateTimeOriginal, DateTimeDigitized, DateTimeTag, GpsDateStamp]

  /** `GetTagValue<DateTime>` on the IFD0 catalogue of a parsed stream. */
  function DateLookup(s: seq<byte>, ix: Index, id: u16): Result<Lookup<TagValue>>
  {
    LookupValue(s, ix.little, ix.tiffStart, ix.ifd0, id, DateTimeType)
  }

  /** The lookups of the four tags, in the order they are tried. */
  function DateLookups(s: seq<byte>, ix: Index): (r: seq<Result<Lookup<TagValue>>>)
    ensures |r| == |TakenTimeTags|
  {
    [ DateLookup(s, ix, DateTimeOriginal), DateLookup(s, ix, DateTimeDigitized),
      DateLookup(s, ix, DateTimeTag), DateLookup(s, ix, GpsDateStamp) ]
  }

  /**
   * The fallback chain over lookups made in order: the first date found; null
   * as soon as a lookup throws; `MinValue` when every lookup comes back false.
   * A found value that is not a date fails the `(T)(object)` cast, which
   * throws as well.
   */
  function Fallback(lookups: seq<Result<Lookup<TagValue>>>): Option<DateTime>
    decreases |lookups|
  {
    if lookups == [] then Some(MinValue)
    else
      match lookups[0]
      case Err(_) => None
      case Ok(NotFound) => Fallback(lookups[1..])
      case Ok(Found(Date(d))) => Some(d)
      case Ok(Found(_)) => None
  }

  /** Whether a `GetTagValue<DateTime>` call throws: an error, or a found value the cast rejects. */
  predicate Throws(lookup: Result<Lookup<TagValue>>)
  {
    lookup.Err? || (lookup.value.Found? && !lookup.value.value.Date?)
  }

  /** What `GetTakenTime` returns for a file with contents `s`. */
  function TakenTime(s: seq<byte>): Option<DateTime>
  {
    match ParseExif(s)
    case Err(_) => None
    case Ok(ix) => Fallback(DateLookups(s, ix))
  }

  /** `GetTakenTime`, reading the stream `s` in place of the named file. */
  method GetTakenTime(s: seq<byte>) returns (r: Option<DateTime>)
    ensures r == TakenTime(s)
  {
    var attempt := ExifReader.Open(s);
    if attempt.Err? {
      return None;
    }
    r := TakenTimeOf(attempt.value);
  }

  /** The lookups inside the `try` block of `GetTakenTime`, on a reader that opened. */
  method TakenTimeOf(reader: ExifReader) returns (r: Option<DateTime>)
    modifies reader`position
    ensures r == Fallback(DateLookups(reader.stream, reader.State()))
  {
    // `rest` holds the lookups not yet made; the result is the fallback over them.
    ghost var rest := DateLookups(reader.stream, reader.State());
    var original := reader.GetTagValue(DateTimeOriginal, DateTimeType);
    FallbackStep(rest, original);
    if original.Err? || original.value.Found? {
      return if original.Err? then None else Some(original.value.value.date);
    }
    rest := rest[1..];
    var digitized := reader.GetTagValue(DateTimeDigitized, DateTimeType);
    FallbackStep(rest, digitized);
    if digitized.Err? || digitized.value.Found? {
      return if digitized.Err? then None else Some(digitized.value.value.date);
    }
    rest := rest[1..];
    var modified := reader.GetTagValue(DateTimeTag, DateTimeType);
    FallbackStep(rest, modified);
    if modified.Err? || modified.value.Found? {
      return if modified.Err? then None else Some(modified.value.value.date);
    }
    rest := rest[1..];
    var gps := reader.GetTagValue(GpsDateStamp, DateTimeType);
    FallbackStep(rest, gps);
    if gps.Err? || gps.value.Found? {
      return if gps.Err? then None else Some(gps.value.value.date);
    }
    // The out parameter of the last failed lookup: default(DateTime).
    r := Some(MinValue);
  }

  /** One step of the fallback chain, on a lookup of `GetTagValue<DateTime>` that came back as `lookup`. */
  lemma FallbackStep(lookups: seq<Result<Lookup<TagValue>>>, lookup: Result<Lookup<TagValue>>)
    requires lookups != [] && lookups[0] == lookup
    requires lookup.Ok? && lookup.value.Found? ==> HasType(lookup.value.value, DateTimeType)
    ensures lookup.Err? ==> Fallback(lookups) == None
    ensures lookup == Ok(NotFound) ==> Fallback(lookups) == Fallback(lookups[1..])
    ensures lookup.Ok? && lookup.value.Found? ==> Fallback(lookups) == Some(lookup.value.value.date)
  {
  }

  /**
   * A lookup that finds a date decides the result when every lookup before it
   * came back false; the lookups after it do not matter.
   */
  lemma {:induction false} FirstFoundDateWins(lookups: seq<Result<Lookup<TagValue>>>, i: nat, d: DateTime)
    requires i < |lookups|
    requires forall j :: 0 <= j < i ==> lookups[j] == Ok(NotFound)
    requires lookups[i] == Ok(Found(Date(d)))
    ensures Fallback(lookups) == Some(d)
    decreases i
  {
    if i > 0 {
      assert lookups[0] == Ok(NotFound);
      FirstFoundDateWins(lookups[1..], i - 1, d);
    }
  }

  /** When every lookup comes back false the result is `MinValue`, not null. */
  lemma {:induction false} NoDateGivesMinValue(lookups: seq<Result<Lookup<TagValue>>>)
    requires forall j :: 0 <= j < |lookups| ==> lookups[j] == Ok(NotFound)
    ensures Fallback(lookups) == Some(MinValue)
    decreases |lookups|
  {
    if lookups != [] {
      assert lookups[0] == Ok(NotFound);
      NoDateGivesMinValue(lookups[1..]);
    }
  }

  /** A lookup that throws before any date is found makes the result null. */
  lemma {:induction false} FailedLookupGivesNone(lookups: seq<Result<Lookup<TagValue>>>, i: nat)
    requires i < |lookups|
    requires forall j :: 0 <= j < i ==> lookups[j] == Ok(NotFound)
    requires Throws(lookups[i])
    ensures Fallback(lookups) == None
    decreases i
  {
    if i > 0 {
      assert lookups[0] == Ok(NotFound);
      FailedLookupGivesNone(lookups[1..], i - 1);
    }
  }

  /**
   * Null comes only from a throw: the result is None exactly when some lookup
   * throws before any date is found; otherwise it is the first date found, or
   * `MinValue`.
   */
  lemma {:induction false} FallbackIsNullOnlyOnError(lookups: seq<Result<Lookup<TagValue>>>)
    ensures Fallback(lookups).None? <==>
      exists i :: 0 <= i < |lookups| && Throws(lookups[i]) && forall j :: 0 <= j < i ==> lookups[j] == Ok(NotFound)
    decreases |lookups|
  {
    if lookups != [] {
      FallbackIsNullOnlyOnError(lookups[1..]);
      if lookups[0] == Ok(NotFound) && Fallback(lookups).None? {
        var i :| 0 <= i < |lookups[1..]| && Throws(lookups[1..][i]) && forall j :: 0 <= j < i ==> lookups[1..][j] == Ok(NotFound);
        assert Throws(lookups[i + 1]) && forall j :: 0 <= j < i + 1 ==> lookups[j] == Ok(NotFound);
      }
    }
  }

  /**
   * A date written into the stream is what `GetTakenTime` returns: when the
   * i-th of the four tags is the first one IFD0 catalogues, and its entry is
   * ASCII holding the date in "yyyy:MM:dd HH:mm:ss" form and a NUL, the result
   * is that date.
   */
  lemma StoredDateIsTakenTime(s: seq<byte>, i: nat, raw: RawTag, d: DateTime)
    requires ParseExif(s).Ok? && i < |TakenTimeTags|
    requires forall j :: 0 <= j < i ==> TakenTimeTags[j] !in ParseExif(s).value.ifd0
    requires var ix := ParseExif(s).value;
      TagBytes(s, ix.little, ix.tiffStart, ix.ifd0, TakenTimeTags[i]) == Ok(Found(raw))
    requires ValidDateTime(d) && raw.tiffType == 2 && AsChars(raw.data) == FormatDateTime(d) + ['\0']
    ensures TakenTime(s) == Some(d)
  {
    var ix := ParseExif(s).value;
    StoredDateIsFound(s, ix, i, raw, d);
  }

  /** `StoredDateIsTakenTime` on the catalogues of a parsed stream. */
  lemma StoredDateIsFound(s: seq<byte>, ix: Index, i: nat, raw: RawTag, d: DateTime)
    requires i < |TakenTimeTags|
    requires forall j :: 0 <= j < i ==> TakenTimeTags[j] !in ix.ifd0
    requires TagBytes(s, ix.little, ix.tiffStart, ix.ifd0, TakenTimeTags[i]) == Ok(Found(raw))
    requires ValidDateTime(d) && raw.tiffType == 2 && AsChars(raw.data) == FormatDateTime(d) + ['\0']
    ensures Fallback(DateLookups(s, ix)) == Some(d)
  {
    var lookups := DateLookups(s, ix);
    StoredDateLooksUp(s, ix.little, ix.tiffStart, ix.ifd0, TakenTimeTags[i], raw, d);
    DateLookupsAt(s, ix, i);
    forall j | 0 <= j < i
      ensures lookups[j] == Ok(NotFound)
    {
      DateLookupsAt(s, ix, j);
    }
    FirstFoundDateWins(lookups, i, d);
  }

  /** The j-th lookup is the one of the j-th tag. */
  lemma DateLookupsAt(s: seq<byte>, ix: Index, j: nat)
    requires j < |TakenTimeTags|
    ensures DateLookups(s, ix)[j] == DateLookup(s, ix, TakenTimeTags[j])
  {
    var lookups := DateLookups(s, ix);
    if j == 0 {
      assert lookups[0] == DateLookup(s, ix, DateTimeOriginal);
    } else if j == 1 {
      assert lookups[1] == DateLookup(s, ix, DateTimeDigitized);
    } else if j == 2 {
      assert lookups[2] == DateLookup(s, ix, DateTimeTag);
    } else {
      assert lookups[3] == DateLookup(s, ix, GpsDateStamp);
    }
  }

  /** A stream that does not parse gives null; one with no date tags gives `MinValue`. */
  lemma TakenTimeOutcomes(s: seq<byte>)
    ensures ParseExif(s).Err? ==> TakenTime(s) == None
    ensures ParseExif(s).Ok? ==>
      var lookups := DateLookups(s, ParseExif(s).value);
      (forall j :: 0 <= j < |lookups| ==> lookups[j] == Ok(NotFound)) ==> TakenTime(s) == Some(MinValue)
  {
    if ParseExif(s).Ok? {
      var lookups := DateLookups(s, ParseExif(s).value);
      if forall j :: 0 <= j < |lookups| ==> lookups[j] == Ok(NotFound) {
        NoDateGivesMinValue(lookups);
      }
    }
  }
}

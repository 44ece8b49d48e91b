/**
 * The media descriptor of a ship-camera recording session (`MediaParams`):
 * from a camera id, a sequence number and two clock readings it derives the
 * sequence name, the video name with a UTC stamp, and a URN. The descriptor
 * is a value: every field is final and nothing changes it after construction.
 */
module Ships {
  import opened Wrappers
  import opened Text
  import opened Calendar

  type Nano = n: int | 0 <= n < 1_000_000_000

  /** A `java.time.Instant`: whole seconds from the epoch and the nanosecond within that second. */
  datatype Instant = Instant(epochSecond: int, nano: Nano)

  /** The fields of a constructed descriptor; the getters return them as they are. */
  datatype MediaParams = MediaParams(
    sequenceNumber: Option<Long>,
    cameraId: Option<string>,
    videoSequenceName: string,
    startTimestamp: Instant,
    videoName: string,
    uri: string)

  /** `URISyntaxException`, rethrown by the constructor as a `RuntimeException`. */
  datatype MediaError = UriSyntaxError(input: string)

  const UrnPrefix: string := "urn:rtva:org.mbari:"

  // ---------------------------------------------------------------------------
  // The stamp: DateTimeFormatter.ofPattern("yyyyMMdd'T'HHmmss'Z'") in UTC
  // ---------------------------------------------------------------------------

  /**
   * The pattern letters `yyyy`: the year of era, at least four digits, and a
   * `+` sign when it needs more than four. The era itself is not printed, so
   * year 0 prints as 0001.
   */
  function YearOfEraText(year: int): (s: string)
    ensures |s| >= 4 && ((year >= 10000 || year <= -9999) <==> s[0] == '+')
  {
    var yoe: nat := if year >= 1 then year else 1 - year;
    (if yoe >= 10000 then "+" else "") + PadDigits(yoe, 4)
  }

  /** Years 1 to 9999 print as exactly four digits that read back as the year. */
  lemma FourDigitYear(year: int)
    requires 1 <= year <= 9999
    ensures |YearOfEraText(year)| == 4 && AllDigits(YearOfEraText(year))
    ensures DigitsValue(YearOfEraText(year)) == year
  {
    assert Pow10(4) == 10000 by {
      assert Pow10(0) == 1 && Pow10(1) == 10 && Pow10(2) == 100 && Pow10(3) == 1000;
    }
    PadDigitsRoundTrip(year, 4);
    assert YearOfEraText(year) == PadDigits(year, 4);
  }

  /** The date half of the stamp: year, month and day. */
  function DateText(d: Date): string
    requires ValidDate(d)
  {
    YearOfEraText(d.year) + PadDigits(d.month, 2) + PadDigits(d.day, 2)
  }

  /** The time half of the stamp: hour, minute and second. */
  function TimeText(t: DateTime): string
    requires ValidDateTime(t)
  {
    PadDigits(t.hour, 2) + PadDigits(t.minute, 2) + PadDigits(t.second, 2)
  }

  /** At least 16 characters, ending with `T`, six digits of time and `Z`. */
  predicate EndsWithTime(s: string) {
    |s| >= 16 && s[|s| - 8] == 'T' && AllDigits(s[|s| - 7..|s| - 1]) && s[|s| - 1] == 'Z'
  }

  /** The stamp of a UTC date and time: year, month, day, `T`, hour, minute, second, `Z`. */
  function BasicStamp(t: DateTime): (s: string)
    requires ValidDateTime(t)
    ensures EndsWithTime(s)
  {
    var ds, ts := DateText(t.date), TimeText(t);
    TimeTextRoundTrip(t);
    FieldsAreDigits(ts, 2, 4);
    StampTail(ds, ts);
    ds + "T" + ts + "Z"
  }

  /** Where the time half sits, counted from the end of a stamp. */
  lemma StampTail(ds: string, ts: string)
    requires |ds| >= 8 && |ts| == 6
    ensures var s := ds + "T" + ts + "Z";
      |s| >= 16 && s[|s| - 8] == 'T' && s[|s| - 7..|s| - 1] == ts && s[|s| - 1] == 'Z'
  {
  }

  /**
   * The stamp of a clock reading: its seconds rendered in UTC; the nanoseconds
   * are not printed. For a reading in years 1 to 9999 the stamp reads back as
   * a valid UTC date and time whose epoch second is the reading.
   */
  function StampOf(clock: Instant): (s: string)
    ensures EndsWithTime(s)
    ensures 1 <= UtcDateTime(clock.epochSecond).date.year <= 9999 ==> IsStampOf(s, clock.epochSecond)
  {
    var t := UtcDateTime(clock.epochSecond);
    if 1 <= t.date.year <= 9999 then
      StampReadsBack(clock);
      BasicStamp(t)
    else
      BasicStamp(t)
  }

  lemma StampReadsBack(clock: Instant)
    requires 1 <= UtcDateTime(clock.epochSecond).date.year <= 9999
    ensures IsStampOf(BasicStamp(UtcDateTime(clock.epochSecond)), clock.epochSecond)
  {
    BasicStampRoundTrip(UtcDateTime(clock.epochSecond));
  }

  /** Reads a 16-character stamp back: eight digits, `T`, six digits, `Z`. */
  function ParseBasicStamp(s: string): Option<DateTime> {
    if |s| == 16 && AllDigits(s[0..4]) && AllDigits(s[4..6]) && AllDigits(s[6..8]) && s[8] == 'T'
       && AllDigits(s[9..11]) && AllDigits(s[11..13]) && AllDigits(s[13..15]) && s[15] == 'Z'
    then
      var t := DateTime(Date(DigitsValue(s[0..4]), DigitsValue(s[4..6]), DigitsValue(s[6..8])),
                        DigitsValue(s[9..11]), DigitsValue(s[11..13]), DigitsValue(s[13..15]));
      if ValidDateTime(t) then Some(t) else None
    else None
  }

  lemma TwoDigitField(n: nat)
    requires n < 100
    ensures |PadDigits(n, 2)| == 2 && DigitsValue(PadDigits(n, 2)) == n
  {
    assert Pow10(2) == 100 by { assert Pow10(1) == 10 && Pow10(0) == 1; }
    PadDigitsRoundTrip(n, 2);
  }

  lemma ThreeFields(a: string, b: string, c: string)
    ensures (a + b + c)[..|a|] == a
    ensures (a + b + c)[|a|..|a| + |b|] == b
    ensures (a + b + c)[|a| + |b|..] == c
  {
  }

  lemma DateTextRoundTrip(d: Date)
    requires ValidDate(d) && 1 <= d.year <= 9999
    ensures var s := DateText(d);
      && |s| == 8
      && AllDigits(s[..4]) && AllDigits(s[4..6]) && AllDigits(s[6..])
      && DigitsValue(s[..4]) == d.year && DigitsValue(s[4..6]) == d.month && DigitsValue(s[6..]) == d.day
  {
    FourDigitYear(d.year);
    TwoDigitField(d.month);
    TwoDigitField(d.day);
    ThreeFields(YearOfEraText(d.year), PadDigits(d.month, 2), PadDigits(d.day, 2));
  }

  lemma TimeTextRoundTrip(t: DateTime)
    requires ValidDateTime(t)
    ensures var s := TimeText(t);
      && |s| == 6
      && AllDigits(s[..2]) && AllDigits(s[2..4]) && AllDigits(s[4..])
      && DigitsValue(s[..2]) == t.hour && DigitsValue(s[2..4]) == t.minute && DigitsValue(s[4..]) == t.second
  {
    TwoDigitField(t.hour);
    TwoDigitField(t.minute);
    TwoDigitField(t.second);
    ThreeFields(PadDigits(t.hour, 2), PadDigits(t.minute, 2), PadDigits(t.second, 2));
  }

  /** Where the two halves of a stamp and their fields sit. */
  lemma StampSlices(ds: string, ts: string)
    requires |ds| == 8 && |ts| == 6
    ensures var s := ds + "T" + ts + "Z";
      && |s| == 16 && s[..8] == ds && s[8] == 'T' && s[9..15] == ts && s[15] == 'Z'
      && s[0..4] == ds[..4] && s[4..6] == ds[4..6] && s[6..8] == ds[6..]
      && s[9..11] == ts[..2] && s[11..13] == ts[2..4] && s[13..15] == ts[4..]
  {
  }

  /** Three digit fields side by side make a digit string. */
  lemma FieldsAreDigits(s: string, i: nat, j: nat)
    requires i <= j <= |s|
    requires AllDigits(s[..i]) && AllDigits(s[i..j]) && AllDigits(s[j..])
    ensures AllDigits(s)
  {
    forall k | 0 <= k < |s| ensures IsDigit(s[k]) {
      if k < i { assert s[k] == s[..i][k]; }
      else if k < j { assert s[k] == s[i..j][k - i]; }
      else { assert s[k] == s[j..][k - j]; }
    }
  }

  /** For years 1 to 9999 the stamp is 16 characters and reads back as the same date and time. */
  lemma BasicStampRoundTrip(t: DateTime)
    requires ValidDateTime(t) && 1 <= t.date.year <= 9999
    ensures |BasicStamp(t)| == 16
    ensures AllDigits(BasicStamp(t)[..8]) && BasicStamp(t)[8] == 'T'
    ensures AllDigits(BasicStamp(t)[9..15]) && BasicStamp(t)[15] == 'Z'
    ensures ParseBasicStamp(BasicStamp(t)) == Some(t)
  {
    var ds, ts := DateText(t.date), TimeText(t);
    DateTextRoundTrip(t.date);
    TimeTextRoundTrip(t);
    FieldsAreDigits(ds, 4, 6);
    FieldsAreDigits(ts, 2, 4);
    StampSlices(ds, ts);
    assert BasicStamp(t) == ds + "T" + ts + "Z";
  }

  /**
   * `s` has the shape of a stamp, eight digits, `T`, six digits, `Z`, and reads
   * back as a valid UTC date and time whose epoch second is `epochSecond`.
   */
  predicate IsStampOf(s: string, epochSecond: int) {
    && |s| == 16
    && AllDigits(s[..8]) && s[8] == 'T' && AllDigits(s[9..15]) && s[15] == 'Z'
    && match ParseBasicStamp(s)
       case Some(t) => ValidDateTime(t) && EpochSecondOf(t) == epochSecond
       case None => false
  }

  // ---------------------------------------------------------------------------
  // The constructor
  // ---------------------------------------------------------------------------

  /** `cameraId + " " + sequenceNumber`, with Java's `"null"` for a null reference. */
  function VideoSequenceName(cameraId: Option<string>, sequenceNumber: Option<Long>): (s: string)
    ensures var k := |StringText(cameraId)|;
      && |s| == k + 1 + |LongText(sequenceNumber)|
      && s[..k] == StringText(cameraId) && s[k] == ' '
      && ParseLongText(s[k + 1..]) == Some(sequenceNumber)
  {
    var a, b := StringText(cameraId), LongText(sequenceNumber);
    JoinedBySpace(a, b);
    LongTextRoundTrip(sequenceNumber);
    a + " " + b
  }

  /** `videoSequenceName.replaceAll("\\s+", "_")`: a non-empty name without whitespace. */
  function UriName(cameraId: Option<string>, sequenceNumber: Option<Long>): (s: string)
    ensures s != [] && NoWhitespace(s) && |s| <= |VideoSequenceName(cameraId, sequenceNumber)|
  {
    ReplaceWhitespaceRuns(VideoSequenceName(cameraId, sequenceNumber))
  }

  /**
   * The URN-safe name is the camera id's text without its trailing whitespace,
   * each inner whitespace run turned into one underscore, then `_` and the
   * sequence number's text.
   */
  lemma UriNameSplit(cameraId: Option<string>, sequenceNumber: Option<Long>)
    ensures var seqText := LongText(sequenceNumber);
      UriName(cameraId, sequenceNumber) == ReplaceWhitespaceRuns(TrimEnd(StringText(cameraId))) + "_" + seqText
  {
    var seqText := LongText(sequenceNumber);
    ReplaceJoin(StringText(cameraId), " ", seqText);
    ReplaceKeepsSolidText(seqText);
  }

  /**
   * The fields the constructor computes before it parses the URI. The two
   * calls of `Instant.now()` are the readings `startClock` (the start
   * timestamp) and `nameClock` (the stamp in the video name).
   */
  function Describe(cameraId: Option<string>, sequenceNumber: Option<Long>,
                    startClock: Instant, nameClock: Instant): (m: MediaParams)
    ensures m.cameraId == cameraId && m.sequenceNumber == sequenceNumber && m.startTimestamp == startClock
    ensures |m.uri| > |UrnPrefix| && m.uri[..|UrnPrefix|] == UrnPrefix && NoWhitespace(m.uri[|UrnPrefix|..])
  {
    var videoSequenceName := VideoSequenceName(cameraId, sequenceNumber);
    var videoName := videoSequenceName + " " + StampOf(nameClock);
    var uriName := UriName(cameraId, sequenceNumber);
    var uri := UrnPrefix + uriName;
    assert uri[|UrnPrefix|..] == uriName && |uriName| > 0 by {
      UriNameSplit(cameraId, sequenceNumber);
    }
    MediaParams(sequenceNumber, cameraId, videoSequenceName, startClock, videoName, uri)
  }

  /**
   * `new MediaParams(cameraId, sequenceNumber)`: `isValidUri` stands for
   * `java.net.URI`'s parser. Construction succeeds exactly when the parser
   * accepts the URN; otherwise it aborts with the rejected string and there
   * is no fallback descriptor.
   */
  function NewMediaParams(cameraId: Option<string>, sequenceNumber: Option<Long>,
                          startClock: Instant, nameClock: Instant,
                          isValidUri: string -> bool): (r: Result<MediaParams, MediaError>)
    ensures r.Success? <==> isValidUri(Describe(cameraId, sequenceNumber, startClock, nameClock).uri)
    ensures r.Success? ==> r.value == Describe(cameraId, sequenceNumber, startClock, nameClock)
    ensures r.Success? ==> r.value.cameraId == cameraId && r.value.sequenceNumber == sequenceNumber
    ensures r.Success? ==> r.value.startTimestamp == startClock && isValidUri(r.value.uri)
    ensures r.Failure? ==> r.error == UriSyntaxError(Describe(cameraId, sequenceNumber, startClock, nameClock).uri)
  {
    var m := Describe(cameraId, sequenceNumber, startClock, nameClock);
    if isValidUri(m.uri) then Success(m) else Failure(UriSyntaxError(m.uri))
  }

  /**
   * The sequence name is the camera id's text, one space and the sequence
   * number's text, and the number reads back from what follows the space.
   */
  lemma SequenceNameParts(cameraId: Option<string>, sequenceNumber: Option<Long>,
                          startClock: Instant, nameClock: Instant)
    ensures var name := Describe(cameraId, sequenceNumber, startClock, nameClock).videoSequenceName;
      var k := |StringText(cameraId)|;
      && |name| > k
      && name[..k] == StringText(cameraId)
      && name[k] == ' '
      && ParseLongText(name[k + 1..]) == Some(sequenceNumber)
  {
    DescribedNames(cameraId, sequenceNumber, startClock, nameClock);
  }

  /**
   * The video name is the sequence name, one space and the stamp of the second
   * clock reading; for years 1 to 9999 that stamp is 16 characters that render
   * the reading in UTC.
   */
  lemma VideoNameParts(cameraId: Option<string>, sequenceNumber: Option<Long>,
                       startClock: Instant, nameClock: Instant)
    requires 1 <= UtcDateTime(nameClock.epochSecond).date.year <= 9999
    ensures var m := Describe(cameraId, sequenceNumber, startClock, nameClock);
      var k := |m.videoSequenceName|;
      && |m.videoName| == k + 17
      && m.videoName[..k] == m.videoSequenceName && m.videoName[k] == ' '
      && IsStampOf(m.videoName[k + 1..], nameClock.epochSecond)
  {
    DescribedNames(cameraId, sequenceNumber, startClock, nameClock);
    JoinedBySpace(VideoSequenceName(cameraId, sequenceNumber), StampOf(nameClock));
  }

  /** The names a descriptor holds, in terms of the functions that compute them. */
  lemma DescribedNames(cameraId: Option<string>, sequenceNumber: Option<Long>,
                       startClock: Instant, nameClock: Instant)
    ensures var m := Describe(cameraId, sequenceNumber, startClock, nameClock);
      && m.videoSequenceName == VideoSequenceName(cameraId, sequenceNumber)
      && m.videoName == m.videoSequenceName + " " + StampOf(nameClock)
      && m.uri == UrnPrefix + UriName(cameraId, sequenceNumber)
  {
  }

  lemma JoinedBySpace(a: string, b: string)
    ensures |a + " " + b| == |a| + 1 + |b|
    ensures (a + " " + b)[..|a|] == a && (a + " " + b)[|a|] == ' ' && (a + " " + b)[|a| + 1..] == b
  {
  }

  /**
   * The URI is the URN prefix followed by the URN-safe name. That name holds no
   * whitespace; it is the camera id's text without its trailing whitespace,
   * with each inner whitespace run turned into one underscore, then `_` and the
   * sequence number's text: trailing whitespace of the camera id merges with
   * the separating space.
   */
  lemma UriNameParts(cameraId: Option<string>, sequenceNumber: Option<Long>,
                     startClock: Instant, nameClock: Instant)
    ensures var m := Describe(cameraId, sequenceNumber, startClock, nameClock);
      var name := m.uri[|UrnPrefix|..];
      var seqText := LongText(sequenceNumber);
      && m.uri == UrnPrefix + name
      && NoWhitespace(name)
      && name == ReplaceWhitespaceRuns(TrimEnd(StringText(cameraId))) + "_" + seqText
      && |name| > |seqText| && name[|name| - |seqText| - 1..] == "_" + seqText
  {
    var m := Describe(cameraId, sequenceNumber, startClock, nameClock);
    var name := UriName(cameraId, sequenceNumber);
    DescribedNames(cameraId, sequenceNumber, startClock, nameClock);
    assert m.uri == UrnPrefix + name;
    DropPrefix(UrnPrefix, name);
    assert m.uri[|UrnPrefix|..] == name;
    assert NoWhitespace(name);
    UriNameSplit(cameraId, sequenceNumber);
    UriNameEnd(cameraId, sequenceNumber);
  }

  lemma DropPrefix(p: string, n: string)
    ensures (p + n)[|p|..] == n
  {
  }

  /** The URN-safe name always ends with `_` and the sequence number's text. */
  lemma UriNameEnd(cameraId: Option<string>, sequenceNumber: Option<Long>)
    ensures var name := UriName(cameraId, sequenceNumber);
      var seqText := LongText(sequenceNumber);
      |name| > |seqText| && name[|name| - |seqText| - 1..] == "_" + seqText
  {
    UriNameSplit(cameraId, sequenceNumber);
    KeepSuffix(ReplaceWhitespaceRuns(TrimEnd(StringText(cameraId))), LongText(sequenceNumber));
  }

  lemma KeepSuffix(head: string, t: string)
    ensures var name := head + "_" + t;
      |name| > |t| && name[|name| - |t| - 1..] == "_" + t
  {
    var name := head + "_" + t;
    assert |name| - |t| - 1 == |head|;
    assert name == head + ("_" + t);
  }
}

# Annotation client core: media descriptor, service generator, annotation events

This project models, in Dafny, three self-contained pieces of the client of
the VARS annotation tool (oceanographic video annotation):

- **The media descriptor** of a ship-camera recording session (`MediaParams`,
  module `Ships`). From a camera id, a sequence number and two clock readings
  it derives the sequence name `cameraId + " " + sequenceNumber`, the video
  name (the sequence name, a space and a UTC stamp in the ISO 8601 basic
  format `yyyyMMdd'T'HHmmss'Z'`), and the URN
  `urn:rtva:org.mbari:<name>`, where every whitespace run of the sequence
  name becomes one `_`. Java's string conversion is kept: a null camera id or
  sequence number prints as `null`. The helpers live in module `Text`
  (whitespace class `\s`, `replaceAll("\\s+", "_")`, `Long.toString`, zero
  padding) and module `Calendar` (epoch seconds to a proleptic Gregorian date
  and time in UTC, proved to be the inverse of a day-counting reference).
  The stamp's year follows the `yyyy` pattern letter: year of era, four digits
  at least, a `+` sign when more are needed.
- **The service generator** of the annotation service (`ServiceGenerator`,
  module `Annosaurus`). Its constructor throws on a null endpoint,
  otherwise appends one `/` to an endpoint that lacks it, throws when the URL
  parser rejects the corrected endpoint, and otherwise binds a shared Retrofit
  builder to that URL and to the Gson converter (pretty printing, date format `yyyy-MM-dd'T'HH:mm:ss'Z'`,
  adapters for durations, timecodes, byte arrays and instants). Each `create`
  builds a new OkHttp client step by step, with an authorization interceptor
  exactly when an `Authorization` is given, and installs it in the shared
  builder in place of the previous client. The generator and the two builders
  are classes whose methods update their fields.
- **The annotation events** (`AnnotationsChangedEvent`,
  `AnnotationsSelectedEvent`, module `Events`): one tagged event with a kind
  (change or selection), the source token and the payload.
  `ImmutableList.copyOf` is a loop that copies the caller's collection (an
  array) into a fresh sequence and throws on a null collection or a null
  element.

Source paths below are relative to the repository root.

## Model

| member | source | states |
|---|---|---|
| `Text.ReplaceWhitespaceRuns` | src/main/java/org/mbari/m3/vars/annotation/mediaplayers/ships/MediaParams.java:30 | the URN-safe name contains none of the six `\s` characters, is no longer than its input, and is empty only when the input is |
| `Text.ReplaceRunBetween` | src/main/java/org/mbari/m3/vars/annotation/mediaplayers/ships/MediaParams.java:30 | a maximal whitespace run between two solid pieces becomes exactly one `_`, and the pieces around it keep their order |
| `Text.ReplaceAppend` | src/main/java/org/mbari/m3/vars/annotation/mediaplayers/ships/MediaParams.java:30 | the replacement works piece by piece wherever a cut does not split a whitespace run |
| `Text.ReplaceWholeRun` | src/main/java/org/mbari/m3/vars/annotation/mediaplayers/ships/MediaParams.java:30 | a non-empty run of whitespace alone becomes a single `_` |
| `Text.ReplaceIsIdentityIff` | src/main/java/org/mbari/m3/vars/annotation/mediaplayers/ships/MediaParams.java:30 | the replacement leaves a string unchanged if and only if it holds no whitespace |
| `Text.ReplaceIdempotent` | src/main/java/org/mbari/m3/vars/annotation/mediaplayers/ships/MediaParams.java:30 | replacing a second time changes nothing |
| `Text.ReplaceJoin` | src/main/java/org/mbari/m3/vars/annotation/mediaplayers/ships/MediaParams.java:26-30 | joining a string and a solid suffix with whitespace gives the string without its trailing whitespace (runs replaced), one `_` and the suffix: trailing whitespace merges with the separator |
| `Text.LongToString` | src/main/java/org/mbari/m3/vars/annotation/mediaplayers/ships/MediaParams.java:26 | `Long.toString`: a negative value prints as `-` and the canonical digits of its magnitude, any other value as its canonical digits; canonical digits are non-empty and start with `0` only for zero |
| `Text.LongText` | src/main/java/org/mbari/m3/vars/annotation/mediaplayers/ships/MediaParams.java:26 | the text of a `Long` reference is `null` exactly when the reference is null; it is non-empty and holds no whitespace |
| `Text.StringText` | src/main/java/org/mbari/m3/vars/annotation/mediaplayers/ships/MediaParams.java:26 | the text of a `String` reference is the string itself, and it is `null` exactly for a null reference or the string `"null"` |
| `Text.LongTextRoundTrip` | src/main/java/org/mbari/m3/vars/annotation/mediaplayers/ships/MediaParams.java:26 | the text Java prints for a `Long` reference reads back as the same value |
| `Text.ParsedTextIsLongText` | src/main/java/org/mbari/m3/vars/annotation/mediaplayers/ships/MediaParams.java:26 | the reader accepts only the texts Java prints: any string it reads back as a value is exactly that value's text, so leading zeros, `-0` and a `+` are refused |
| `Text.PadDigitsRoundTrip` | src/main/java/org/mbari/m3/vars/annotation/mediaplayers/ships/MediaParams.java:20 | a value below 10^width fills its zero-padded field exactly and reads back unchanged |
| `Calendar.YearsAddUp` | src/main/java/org/mbari/m3/vars/annotation/mediaplayers/ships/MediaParams.java:29 | the reference day count starts at 0 on 1970-01-01 and each year adds 366 days when it is a Gregorian leap year, else 365 |
| `Calendar.MonthsAddUp` | src/main/java/org/mbari/m3/vars/annotation/mediaplayers/ships/MediaParams.java:29 | the month table adds up month by month to the year length, February having 29 days in leap years |
| `Calendar.CivilFromDays` | src/main/java/org/mbari/m3/vars/annotation/mediaplayers/ships/MediaParams.java:29 | the date computed for a day count is valid (month 1..12, day within the month) and its reference day count is the input |
| `Calendar.UtcDateTime` | src/main/java/org/mbari/m3/vars/annotation/mediaplayers/ships/MediaParams.java:29 | the UTC date and time of an epoch second is valid (hour 0..23, minute and second 0..59) and its reference epoch second is the input |
| `Calendar.EpochDayInjective` | src/main/java/org/mbari/m3/vars/annotation/mediaplayers/ships/MediaParams.java:29 | two valid dates with the same day count are equal |
| `Calendar.CivilFromEpochDay` | src/main/java/org/mbari/m3/vars/annotation/mediaplayers/ships/MediaParams.java:29 | every valid date is the date of its own day count |
| `Calendar.UtcDateTimeOfEpochSecond` | src/main/java/org/mbari/m3/vars/annotation/mediaplayers/ships/MediaParams.java:29 | every valid date and time is the UTC rendering of its own epoch second |
| `Ships.YearOfEraText` | src/main/java/org/mbari/m3/vars/annotation/mediaplayers/ships/MediaParams.java:20 | the `yyyy` field has at least four characters and starts with `+` exactly when the year of era exceeds 9999 |
| `Ships.FourDigitYear` | src/main/java/org/mbari/m3/vars/annotation/mediaplayers/ships/MediaParams.java:20 | years 1 to 9999 print as four digits that read back as the year |
| `Ships.BasicStamp` | src/main/java/org/mbari/m3/vars/annotation/mediaplayers/ships/MediaParams.java:20 | the stamp of a date and time has at least 16 characters and ends with `T`, six digits of time and `Z` |
| `Ships.BasicStampRoundTrip` | src/main/java/org/mbari/m3/vars/annotation/mediaplayers/ships/MediaParams.java:20 | for years 1 to 9999 the stamp has 16 characters, 8 digits, `T`, 6 digits, `Z`, and parses back to the same date and time |
| `Ships.StampOf` | src/main/java/org/mbari/m3/vars/annotation/mediaplayers/ships/MediaParams.java:28-29 | the stamp of a clock reading ends with `T`, six digits and `Z`; for a reading in years 1 to 9999 it parses back to a valid UTC date and time whose epoch second is the reading |
| `Ships.VideoSequenceName` | src/main/java/org/mbari/m3/vars/annotation/mediaplayers/ships/MediaParams.java:26 | the sequence name is the camera id's text, one space, and a text that reads back as the sequence number (and, by `Text.ParsedTextIsLongText`, is exactly its Java text) |
| `Ships.UriName` | src/main/java/org/mbari/m3/vars/annotation/mediaplayers/ships/MediaParams.java:30 | the URN-safe name is non-empty, holds no whitespace and is no longer than the sequence name |
| `Ships.Describe` | src/main/java/org/mbari/m3/vars/annotation/mediaplayers/ships/MediaParams.java:22-32 | the descriptor keeps the camera id, sequence number and first clock reading as given (what the getters return), and its URI is the URN prefix followed by a non-empty, whitespace-free name |
| `Ships.NewMediaParams` | src/main/java/org/mbari/m3/vars/annotation/mediaplayers/ships/MediaParams.java:22-37 | construction succeeds if and only if the URI parser accepts the URN string, and then yields that descriptor with the given camera id, sequence number and first clock reading; otherwise the error carries the rejected string and there is no fallback |
| `Ships.SequenceNameParts` | src/main/java/org/mbari/m3/vars/annotation/mediaplayers/ships/MediaParams.java:26 | the contract of `Ships.VideoSequenceName`, restated for the descriptor's `videoSequenceName` field: the camera id's text, a space, and a text that reads back as the sequence number |
| `Ships.VideoNameParts` | src/main/java/org/mbari/m3/vars/annotation/mediaplayers/ships/MediaParams.java:28-29 | the video name is the sequence name, a space and a 16-character stamp rendering the second clock reading in UTC |
| `Ships.UriNameSplit` | src/main/java/org/mbari/m3/vars/annotation/mediaplayers/ships/MediaParams.java:26-30 | the URN-safe name is the camera id's text without trailing whitespace (inner runs replaced), one `_`, and the sequence number's text |
| `Ships.UriNameEnd` | src/main/java/org/mbari/m3/vars/annotation/mediaplayers/ships/MediaParams.java:26-30 | the URN-safe name always ends with `_` followed by the sequence number's text |
| `Ships.UriNameParts` | src/main/java/org/mbari/m3/vars/annotation/mediaplayers/ships/MediaParams.java:30-32 | the URI is the prefix plus a whitespace-free name equal to the camera id without its trailing whitespace (a leading run becomes `_`) and with each whitespace run replaced, `_`, and the sequence number's text, so it ends with `"_" + sequenceNumber` |
| `Annosaurus.CorrectEndpoint` | src/main/java/org/mbari/m3/vars/annotation/services/annosaurus/v1/ServiceGenerator.java:26 | the corrected endpoint ends with `/`; one that already did is unchanged; any other is the input plus exactly one character |
| `Annosaurus.CorrectEndpointIdempotent` | src/main/java/org/mbari/m3/vars/annotation/services/annosaurus/v1/ServiceGenerator.java:26 | correcting twice gives the same endpoint as correcting once |
| `Annosaurus.Gson` | src/main/java/org/mbari/m3/vars/annotation/services/annosaurus/v1/ServiceGenerator.java:50-62 | the converter pretty-prints, uses the date format `yyyy-MM-dd'T'HH:mm:ss'Z'`, and registers an adapter for each of the four value types, each exactly once |
| `Annosaurus.ClientFor` | src/main/java/org/mbari/m3/vars/annotation/services/annosaurus/v1/ServiceGenerator.java:39-43 | the built client has an authorization interceptor if and only if an `Authorization` is given, at most one interceptor, and it carries that `Authorization` |
| `Annosaurus.HttpClientBuilder.constructor` | src/main/java/org/mbari/m3/vars/annotation/services/annosaurus/v1/ServiceGenerator.java:39 | a new OkHttp builder has no interceptor |
| `Annosaurus.HttpClientBuilder.AddInterceptor` | src/main/java/org/mbari/m3/vars/annotation/services/annosaurus/v1/ServiceGenerator.java:42 | the interceptor is appended to the chain and the earlier ones stay |
| `Annosaurus.HttpClientBuilder.Build` | src/main/java/org/mbari/m3/vars/annotation/services/annosaurus/v1/ServiceGenerator.java:44 | the built client carries exactly the builder's interceptor chain |
| `Annosaurus.RetrofitBuilder.constructor` | src/main/java/org/mbari/m3/vars/annotation/services/annosaurus/v1/ServiceGenerator.java:28 | a new Retrofit builder has no base URL, no converter and no client |
| `Annosaurus.RetrofitBuilder.BaseUrl` | src/main/java/org/mbari/m3/vars/annotation/services/annosaurus/v1/ServiceGenerator.java:29 | the base URL is set; converters and client are unchanged |
| `Annosaurus.RetrofitBuilder.AddConverterFactory` | src/main/java/org/mbari/m3/vars/annotation/services/annosaurus/v1/ServiceGenerator.java:30 | the converter is appended; base URL and client are unchanged |
| `Annosaurus.RetrofitBuilder.Client` | src/main/java/org/mbari/m3/vars/annotation/services/annosaurus/v1/ServiceGenerator.java:44 | the client is set, replacing any earlier one; base URL and converters are unchanged |
| `Annosaurus.RetrofitBuilder.Build` | src/main/java/org/mbari/m3/vars/annotation/services/annosaurus/v1/ServiceGenerator.java:46 | the built Retrofit carries the builder's base URL, converters and client |
| `Annosaurus.ServiceGenerator.constructor` | src/main/java/org/mbari/m3/vars/annotation/services/annosaurus/v1/ServiceGenerator.java:25-31 | the shared builder is bound to the corrected endpoint and the Gson converter and has no client yet |
| `Annosaurus.NewServiceGenerator` | src/main/java/org/mbari/m3/vars/annotation/services/annosaurus/v1/ServiceGenerator.java:25-31 | construction fails if and only if the endpoint is null (a null-pointer error) or the URL parser rejects the corrected endpoint (an illegal-argument error carrying that URL); otherwise the generator is bound as by the constructor, to the corrected endpoint |
| `Annosaurus.ServiceGenerator.Create` | src/main/java/org/mbari/m3/vars/annotation/services/annosaurus/v1/ServiceGenerator.java:38-48 | the builder's client is replaced by the client for `auth`, base URL and converters are unchanged, and the service uses that client |
| `Annosaurus.ServiceGenerator.CreateWithoutAuth` | src/main/java/org/mbari/m3/vars/annotation/services/annosaurus/v1/ServiceGenerator.java:33-35 | `create(clazz)` installs and uses a client with no interceptor |
| `Annosaurus.CreateAfterAuthenticatedCreate` | src/main/java/org/mbari/m3/vars/annotation/services/annosaurus/v1/ServiceGenerator.java:39-44 | a service created after an authenticated one, without an `Authorization`, does not inherit the interceptor; both use the corrected endpoint |
| `Events.CopyOf` | src/main/java/org/mbari/m3/vars/annotation/events/AnnotationsChangedEvent.java:15 | the copy holds exactly the collection's elements in iteration order and with the same count; a null collection or the first null element makes it fail |
| `Events.NewAnnotationsChangedEvent` | src/main/java/org/mbari/m3/vars/annotation/events/AnnotationsChangedEvent.java:14-16 | the event's kind is change, its source is the given token and its payload holds exactly the annotations; it fails only on a null collection or element |
| `Events.NewAnnotationsSelectedEvent` | src/main/java/org/mbari/m3/vars/annotation/events/AnnotationsSelectedEvent.java:14-16 | the event's kind is selection, its source is the given token and its payload holds exactly the annotations; it fails only on a null collection or element |
| `Events.ChangedEventIsSnapshot` | src/main/java/org/mbari/m3/vars/annotation/events/AnnotationsChangedEvent.java:15 | overwriting the caller's collection after construction leaves the change event's payload equal to the old contents |
| `Events.SelectedEventIsSnapshot` | src/main/java/org/mbari/m3/vars/annotation/events/AnnotationsSelectedEvent.java:15 | the same for the selection event |

The payload is a Dafny sequence, a value, so nothing reached through an
event can modify it, as with the immutable list of the Java code.

## Left out

- URI parsing: `java.net.URI` (RFC 2396) is not re-implemented; it is the parameter `isValidUri` of `Ships.NewMediaParams`.
- The clock: the two `Instant.now()` calls are the parameters `startClock` and `nameClock`, so they may differ as in the Java code; nanoseconds are carried but never printed.
- Ships.VideoNameParts: states the 16-character stamp only for years 1 to 9999 of the second clock reading. Above 9999 and below -9998 the year field gains a `+` sign and more digits; from 0 down to -9998 it is four digits of the year of era without the era (year 0 prints `0001`), so the stamp does not read back as the same year (see `Ships.YearOfEraText`).
- Ships.StampOf: the read-back to the clock reading is stated only for years 1 to 9999, for the reason given on the line above: outside that range the year field either gains a `+` and more digits or prints the year of era without the era.
- Leap seconds: as in java.time, every day has 86400 seconds.
- `Retrofit.Builder.baseUrl`'s URL parser is the parameter `isValidBaseUrl` of `Annosaurus.NewServiceGenerator`; `Retrofit.create`'s proxy, the `AuthInterceptor`'s behaviour and OkHttp itself are not part of this model.
- Annosaurus.ServiceGenerator.Create: modelled as one atomic step. In the Java code `create` sets the client on the shared builder and then reads the builder again to build, with no locking, so two `create` calls on one generator that overlap in time can hand a service the other call's client (another caller's `AuthInterceptor`, or none). The interceptor guarantee of `Create` and of `Annosaurus.CreateAfterAuthenticatedCreate` holds only for `create` calls on the same generator that do not overlap.
- Gson (de)serialisation and the four type adapters: only the converter's configuration is recorded.
- Annotations are modelled as values: `ImmutableList.copyOf` copies references, so an `Annotation` object changed in place by the caller is also changed in the event; the snapshot covers the list, not the objects in it.
- Event bus dispatch, the `UIChangeEvent` and `UISelectionEvent` base classes, the annotation service, the authentication service and the codecs are not part of this model.
- The integration tests against the remote service, the media dialog controller, the image-pane demo and the Gson factory of the knowledge-base service are not part of this model.

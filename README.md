# DMM map upload: a verified model of the coordinate pipeline

The application reads a CSV or text file of latitude/longitude pairs written in degrees and
decimal minutes (DMM, such as `4023.6174N`). It converts each pair to signed decimal degrees
and shows the points as markers on a map. This project models the logic behind that:

- **The home page's strict decoder** (`StrictDmm`).
  - It trims and upper-cases the input.
  - It matches `^(\d{2,3})(\d{2}\.\d+)([NSEW])$`, with the regex's backtracking written out in `Exec`.
  - It returns ±(degrees + minutes / 60), rounded to eight decimals. NaN is `None`.
- **Row extraction** (`Rows`). A Papa Parse row is either an array of fields or one raw line. A raw line is split on white space and commas.
- **The ingest loop** (`Ingest`). Every row whose two candidates both decode becomes a point. Its id is the number of points before it.
- **The home page's state** (`HomePage.Page`), as a class:
  - the point list, the visible list, loading, the error and the two manual-entry inputs;
  - the idle callbacks that are waiting, each holding the list it captured.

  Its event handlers are methods: choosing a file, the parser's `complete` and `error`, the two input setters, adding a point, and the browser running an idle callback.
- **Progressive visibility** (`Visibility`). A list of more than 500 points shows its first 500 at once and the rest after an idle callback.
- **The map component** (`MapView`):
  - the tile style of each map type;
  - the style and selection state (`MapView.MapState`);
  - the markers and their active icon;
  - the point the map pans to.
- **The upload route's lenient decoder** (`LenientDmm`).
  - It slices the string by the last character.
  - N and S take two degree characters; every other character takes three.
  - JavaScript's `parseInt` and `parseFloat` (`JsParse`) read the slices without validation.

The main theorem compares the two decoders: `LenientDmm.DecodersAgreeExactly`. On every string the strict regex accepts, they give the same number exactly when one of two things holds:

- the regex split the degrees at the width the lenient decoder assumes;
- every digit that the other width moves between degrees and minutes is zero.

Numbers are exact reals. `toFixed(8)` is rounding half away from zero to eight decimals (`Numbers.Round8`).

Nothing cancels an idle callback once it is requested (`my-app/src/app/page.tsx:85`). `HomePage.StaleRevealScenario` proves that a long file's callback still shows its list after a short file has replaced it: the map then shows the long file's points while the page holds the short file's.

## Model

| member | source | states |
|---|---|---|
| Text.Trim | my-app/src/app/page.tsx:15 | `trim` on ASCII white space; specified by `Text.TrimIsSlice`, `Text.TrimNoSpaceAtEnds`, `Text.TrimOfPadded` and `Text.TrimOfSurrounding` |
| Text.TrimStartOfSpace | my-app/src/app/page.tsx:15 | white space in front of a string does not change its `trimStart` |
| Text.TrimEndOfSpace | my-app/src/app/page.tsx:15 | white space behind a string does not change its `trimEnd` |
| Text.TrimIsSlice | my-app/src/app/page.tsx:15 | `trim` returns one contiguous slice of its input, with only white space before and after it |
| Text.TrimNoSpaceAtEnds | my-app/src/app/page.tsx:15 | the trimmed string has no white space at either end |
| Text.TrimOfPadded | my-app/src/app/page.tsx:15 | a string with no white space at its ends, padded with any white space on both sides, trims back to itself |
| Text.TrimOfSurrounding | my-app/src/app/page.tsx:15 | white space of any length on either side does not change the trim |
| Text.TrimUnchanged | my-app/src/app/page.tsx:15 | a string with no white space at either end is its own trim |
| Text.ToUpper | my-app/src/app/page.tsx:15 | `toUpperCase` changes every character the same way, and only ASCII letters; see `Text.ToUpperIdempotent` |
| Text.NatToString | my-app/src/app/page.tsx:70 | `String(n)` of a count is a non-empty run of digits that starts with 0 only for 0 itself; see `Text.NatToStringRoundTrip` |
| Text.TrimUpperCommute | my-app/src/app/page.tsx:15 | trimming and upper-casing can be done in either order |
| Text.ToUpperIdempotent | my-app/src/app/page.tsx:15 | upper-casing twice is upper-casing once |
| Text.NatToStringRoundTrip | my-app/src/app/page.tsx:70 | `String(n)` reads back as n |
| Text.NatToStringInjective | my-app/src/app/page.tsx:70 | different counts give different ids |
| Numbers.FracValue | my-app/src/app/page.tsx:19 | the digits after the point are worth at least 0 and less than 1 |
| Numbers.Round8 | my-app/src/app/page.tsx:22 | `+x.toFixed(8)` has at most eight decimals, keeps the sign, and lies within half of 10^-8 of x, the half-way point being taken only away from zero |
| Numbers.Round8Unique | my-app/src/app/page.tsx:22 | no other value with eight decimals lies in that window, so the result is exactly `toFixed(8)`'s choice |
| Numbers.Round8OnGrid | my-app/src/app/page.tsx:22 | a value that already has eight decimals is left unchanged |
| Numbers.Round8Negate | my-app/src/app/page.tsx:21-22 | rounding commutes with negation, so negating before `toFixed` is negating after it |
| Numbers.Round8Separates | my-app/src/app/page.tsx:22 | values more than 10^-8 apart stay different after rounding |
| JsParse.ParseInt | my-app/src/pages/api/upload.ts:38-41 | `parseInt` with no radix, on ASCII; specified by `JsParse.ParseIntOfDigits`, `JsParse.ParseIntIn`, `JsParse.ParseIntOfSpace`, `JsParse.ParseIntOfSign` and `JsParse.ParseIntHexExample` |
| JsParse.ParseFloat | my-app/src/app/page.tsx:19 | `parseFloat`, on ASCII, with `Infinity` as no value; specified by `JsParse.ParseFloatOfDecimal`, `JsParse.ParseFloatIn`, `JsParse.ParseFloatOfSpace`, `JsParse.ParseFloatOfSign`, `JsParse.ParseFloatWithExponent` and `JsParse.ParseFloatOfInfinity` |
| JsParse.ParseIntOfSpace | my-app/src/pages/api/upload.ts:38-41 | `parseInt` skips any leading white space |
| JsParse.ParseIntOfSign | my-app/src/pages/api/upload.ts:38-41 | a leading "-" negates what `parseInt` reads after it, and a leading "+" changes nothing |
| JsParse.ParseIntHexExample | my-app/src/pages/api/upload.ts:38-41 | without a radix, "0x1f" reads as 31 and "-0X1F" as -31 |
| JsParse.ParseFloatOfSpace | my-app/src/app/page.tsx:97-98 | `parseFloat` skips any leading white space |
| JsParse.ParseFloatOfSign | my-app/src/app/page.tsx:97-98 | a leading "-" negates what `parseFloat` reads after it, and a leading "+" changes nothing |
| JsParse.ParseFloatWithExponent | my-app/src/app/page.tsx:97-98 | an exponent after "digits.digits" multiplies the value by 10 to that power, negative after "e-" |
| JsParse.ExponentExample | my-app/src/app/page.tsx:97-98 | "2.5e3" reads as 2500 and "2.5E-1" as 0.25 |
| JsParse.ParseFloatOfInfinity | my-app/src/app/page.tsx:97-99 | "Infinity" and "-Infinity", whatever follows, are not finite |
| JsParse.FloatScanShift | my-app/src/pages/api/upload.ts:39-42 | the scan of a suffix finds the same pieces as the scan of the whole string from where the suffix starts |
| JsParse.ParseIntOfDigits | my-app/src/app/page.tsx:18 | `parseInt` of a run of decimal digits is their value |
| JsParse.ParseFloatOfDecimal | my-app/src/app/page.tsx:19 | `parseFloat` of "digits.digits" is the integer part plus the fraction |
| JsParse.ParseIntIn | my-app/src/pages/api/upload.ts:38 | `parseInt` of a slice of digits is the value of those digits |
| JsParse.ParseFloatIn | my-app/src/pages/api/upload.ts:39 | `parseFloat` of a decimal slice is its digits plus its fraction |
| StrictDmm.Decode | my-app/src/app/page.tsx:14-23 | the page's `dmmToDecimal`; specified by `StrictDmm.DecodeAcceptsExactly`, `StrictDmm.DecodeSign` and `StrictDmm.DecodeBound` |
| StrictDmm.DecodeNormalized | my-app/src/app/page.tsx:16-22 | matching and arithmetic after normalisation; `StrictDmm.DecodeMatched` ties it to `StrictDmm.Decode` |
| StrictDmm.Signed | my-app/src/app/page.tsx:21 | `val *= -1` for S and W; see `StrictDmm.DecodeSign` |
| StrictDmm.Magnitude | my-app/src/app/page.tsx:18-20 | degrees + minutes / 60 of the groups; see `StrictDmm.GroupsParse` and `StrictDmm.DecodeBound` |
| StrictDmm.WellFormed | my-app/src/app/page.tsx:13 | the strings the regex accepts, described without it; tied to `StrictDmm.Exec` by `StrictDmm.ExecIffWellFormed` |
| StrictDmm.GroupsAt | my-app/src/app/page.tsx:13 | a match at degree width w captures the first w digits, then the minutes up to the last character, then the direction |
| StrictDmm.Exec | my-app/src/app/page.tsx:16 | a match has 2 or 3 degree digits, a minutes group `\d{2}\.\d+` and a final N/S/E/W, and the three groups split the string |
| StrictDmm.MatchFixesIntegerPart | my-app/src/app/page.tsx:13 | whatever the split, the integer part is the whole leading digit run |
| StrictDmm.ExecIffWellFormed | my-app/src/app/page.tsx:13-17 | the regex accepts exactly the strings with 4 or 5 leading digits, a point, at least one digit and one direction letter at the end; the minutes then take the last two integer digits |
| StrictDmm.ExecOfParts | my-app/src/app/page.tsx:13-16 | building a string from an integer part, a fraction and a letter and matching it gives back those parts |
| StrictDmm.GroupsParse | my-app/src/app/page.tsx:18-19 | on a match, `parseInt` of the degrees and `parseFloat` of the minutes give exactly the digit value and the minutes value |
| StrictDmm.MinutesValue | my-app/src/app/page.tsx:19 | the minutes group reads as a value in [0, 100) |
| StrictDmm.DecodeAcceptsExactly | my-app/src/app/page.tsx:14-17 | the decoder gives a number exactly when the trimmed, upper-cased input is well formed, and NaN otherwise |
| StrictDmm.CanonicalInput | my-app/src/app/page.tsx:15-16 | a string the regex accepts is left unchanged by trim and upper-case |
| StrictDmm.DecodeMatched | my-app/src/app/page.tsx:15-16 | on an accepted string, decoding is matching it directly |
| StrictDmm.AlreadyNormalized | my-app/src/app/page.tsx:15 | input without surrounding space or lower case is decoded as it stands |
| StrictDmm.DecodeSign | my-app/src/app/page.tsx:20-22 | the result is the rounded magnitude, negated exactly for S and W; N/E give values ≥ 0 and S/W values ≤ 0 |
| StrictDmm.DecodeBound | my-app/src/app/page.tsx:18-22 | with no range check, an accepted value lies strictly within 10^d + 2 of zero, d being the number of degree digits |
| StrictDmm.DecodeIgnoresCase | my-app/src/app/page.tsx:15 | upper-casing the input first changes nothing |
| StrictDmm.DecodeIgnoresSurroundingSpace | my-app/src/app/page.tsx:15 | white space of any length before and after the input changes nothing |
| StrictDmm.RejectsLastCharacter | my-app/src/app/page.tsx:13-17 | a string whose last character is not space and not a direction letter in any case decodes to NaN |
| StrictDmm.ExampleLatitude | my-app/src/app/page.tsx:13-22 | "4023.6174N" splits as 40 / 23.6174 / N and decodes to 40.39362333 |
| StrictDmm.ExampleLongitude | my-app/src/app/page.tsx:13-22 | "07923.6174W" splits as 079 / 23.6174 / W and decodes to -79.39362333 |
| StrictDmm.RoundingLongitudeExample | my-app/src/app/page.tsx:22 | -(79 + 23.6174/60) rounds to -79.39362333 |
| StrictDmm.ExampleLowerCase | my-app/src/app/page.tsx:15 | "4023.6174n" decodes like "4023.6174N" |
| StrictDmm.ExampleMinutesNotRangeChecked | my-app/src/app/page.tsx:18-20 | "4075.0N" is accepted with 75 minutes and decodes to 41.25 |
| StrictDmm.ExampleRejectedLetters | my-app/src/app/page.tsx:17 | "abc" is NaN |
| StrictDmm.ExampleRejectedNoFraction | my-app/src/app/page.tsx:13-17 | "4023N", which has no fraction, is NaN |
| StrictDmm.ExampleRejectedDirection | my-app/src/app/page.tsx:13-17 | "4023.6174X" is NaN |
| LenientDmm.Decode | my-app/src/pages/api/upload.ts:30-51 | the upload route's `dmmToDecimal`; specified by `LenientDmm.SlicesOfLetter`, `LenientDmm.DecodeOfNumbers` and `LenientDmm.DecodersAgreeExactly` |
| LenientDmm.Combine | my-app/src/pages/api/upload.ts:45-50 | the arithmetic after the slices are read; specified by `LenientDmm.CombineOfNumbers` and `LenientDmm.CombineNegates` |
| LenientDmm.DegreesSlice | my-app/src/pages/api/upload.ts:38-41 | `value.slice(0, 2)` or `value.slice(0, 3)`; see `LenientDmm.SlicesOfLetter` and `LenientDmm.SlicesPartition` |
| LenientDmm.MinutesSlice | my-app/src/pages/api/upload.ts:39-42 | `value.slice(2)` or `value.slice(3)`; see `LenientDmm.SlicesOfLetter` and `LenientDmm.SlicesPartition` |
| LenientDmm.Negated | my-app/src/pages/api/upload.ts:46-48 | `decimal *= -1`, with NaN staying NaN; see `LenientDmm.CombineNegates` |
| LenientDmm.Direction | my-app/src/pages/api/upload.ts:31 | `slice(-1)` is at most one character |
| LenientDmm.Body | my-app/src/pages/api/upload.ts:32 | `slice(0, -1)` followed by the direction is the whole input |
| LenientDmm.Cut | my-app/src/pages/api/upload.ts:37-43 | the degree slice never runs past the body, because `slice` clamps |
| LenientDmm.SlicesPartition | my-app/src/pages/api/upload.ts:31-43 | the degree slice, the minutes slice and the direction together are the input |
| LenientDmm.SlicesOfLetter | my-app/src/pages/api/upload.ts:31-43 | N and S cut after two body characters and any other last character after three, clamped to the body |
| LenientDmm.CombineNegates | my-app/src/pages/api/upload.ts:45-48 | with the same numbers, S is the negation of N and W of E |
| LenientDmm.SouthNegatesNorth | my-app/src/pages/api/upload.ts:37-48 | the same body ending in S decodes to the negation of it ending in N |
| LenientDmm.WestNegatesEast | my-app/src/pages/api/upload.ts:37-48 | the same body ending in W decodes to the negation of it ending in E |
| LenientDmm.CombineIgnoresOtherLetters | my-app/src/pages/api/upload.ts:46-48 | any direction other than S and W is not negated, exactly as with E |
| LenientDmm.OtherLettersReadAsEast | my-app/src/pages/api/upload.ts:37-48 | any last character other than N, S and W decodes exactly as E does |
| LenientDmm.CombineOfNumbers | my-app/src/pages/api/upload.ts:45-50 | with both numbers present, the result is the rounded degrees + minutes/60, negated for S and W |
| LenientDmm.DecodeOfNumbers | my-app/src/pages/api/upload.ts:30-51 | when both slices parse, the decoder gives the rounded signed value of those numbers |
| LenientDmm.SlicesAt | my-app/src/pages/api/upload.ts:31-42 | on a digits-point-digits string the slices read as the digits before the cut, and as the rest with its fraction |
| LenientDmm.LenientAt | my-app/src/pages/api/upload.ts:30-51 | on a digits-point-digits string the decoder's value is built from the digits on each side of the cut |
| LenientDmm.RoundingDecides | my-app/src/pages/api/upload.ts:50 | two readings at least 2/3 apart round differently, and equal readings round the same |
| LenientDmm.SameWidthCase | my-app/src/pages/api/upload.ts:37-45 | when the regex split matches the lenient width, the two decoders agree |
| LenientDmm.NarrowerCase | my-app/src/pages/api/upload.ts:38-39 | N/S with three degree digits: the decoders agree exactly when those digits are 000 |
| LenientDmm.WiderCase | my-app/src/pages/api/upload.ts:41-42 | E/W with two degree digits: the decoders agree exactly when the first three digits are 000 |
| LenientDmm.MovedDigitsAt | my-app/src/pages/api/upload.ts:37-43 | with differing widths, the moved digits are zero exactly when the first three digits are |
| LenientDmm.AgreeOnMatched | my-app/src/pages/api/upload.ts:30-51 | the agreement theorem on a matched string, against the page's matching and arithmetic |
| LenientDmm.DecodersAgreeExactly | my-app/src/pages/api/upload.ts:30-51 | on every string the strict regex accepts, the two decoders agree exactly when the widths match or every moved digit is zero |
| LenientDmm.ExampleAgreement | my-app/src/pages/api/upload.ts:37-50 | both decoders give -79.39362333 for "07923.6174W" |
| LenientDmm.PageValueDisagreementExample | my-app/src/app/page.tsx:13-22 | the page decodes "04023.6174N" to 40.39362333 |
| LenientDmm.ExampleDisagreement | my-app/src/pages/api/upload.ts:38-39 | on "04023.6174N" the page gives 40.39362333, while the upload decoder gives 4 + 23.6174/60 (rounded), and the two differ |
| LenientDmm.ExampleLowerCaseDirection | my-app/src/pages/api/upload.ts:37-48 | "4023.6174n" takes the three-digit branch and is not negated |
| LenientDmm.ExampleLetters | my-app/src/pages/api/upload.ts:30-51 | "abc" gives NaN rather than an error |
| Rows.ExtractRow | my-app/src/app/page.tsx:52-65 | `latRaw`/`lngRaw` of one row; specified by `Rows.ExtractFields`, `Rows.ExtraFieldsIgnored` and `Rows.ExtractLine` |
| Rows.Tokens | my-app/src/app/page.tsx:59 | `split(/\s+\|,\|\t/).filter(Boolean)`; specified by `Rows.TokensAreTokens`, `Rows.TokensOfCons`, `Rows.TokensOfSeparator`, `Rows.TokensOfOne` and `Rows.TokensOfSeparators` |
| Rows.WordEnd | my-app/src/app/page.tsx:59 | a token starting at a non-separator is not empty and stays inside the line |
| Rows.TokensAreTokens | my-app/src/app/page.tsx:59 | after the split and filter, every part is non-empty and holds no white space or comma |
| Rows.TokensOfCons | my-app/src/app/page.tsx:59 | a token, then a separator, then more text splits as that token followed by the parts of the rest |
| Rows.TokensOfSeparator | my-app/src/app/page.tsx:59 | a separator in front adds no part, so runs of separators and leading ones leave no empty tokens |
| Rows.TokensOfSeparators | my-app/src/app/page.tsx:59 | an empty line, or one of separators only, splits into nothing |
| Rows.TokensOfOne | my-app/src/app/page.tsx:59 | a lone token splits into itself |
| Rows.TokensOfJoin | my-app/src/app/page.tsx:59 | splitting tokens joined by commas gives back the tokens |
| Rows.TokenTrimmed | my-app/src/app/page.tsx:61-62 | trimming a part changes nothing |
| Rows.ExtractFields | my-app/src/app/page.tsx:55-57 | an array row gives candidates exactly when it has two fields and both are non-empty after trimming; the candidates are those trimmed fields |
| Rows.ExtraFieldsIgnored | my-app/src/app/page.tsx:55-57 | fields after the first two do not matter |
| Rows.ExtractLine | my-app/src/app/page.tsx:58-65 | a line row gives candidates exactly when it splits into at least two parts; the candidates are the first two parts |
| Rows.ExtractJoinedPair | my-app/src/app/page.tsx:58-65 | the line "lat,lng" of two tokens gives the pair (lat, lng) |
| Locations.DenseIdsDistinct | my-app/src/app/page.tsx:70 | in a densely numbered list two points share an id only if they are the same point |
| Locations.DensePrefix | my-app/src/app/page.tsx:84 | the first n points of a densely numbered list are densely numbered |
| Locations.DenseAppend | my-app/src/app/page.tsx:103-106 | appending a point numbered by the old length keeps the numbering dense |
| Visibility.Settled | my-app/src/app/page.tsx:85 | what is shown once every idle callback has run; see `Visibility.SettledWhole` and `HomePage.ParseAndSettle` |
| Visibility.Immediate | my-app/src/app/page.tsx:83-87 | what is shown at once is a prefix of the list: 500 points for a long list, all of them otherwise |
| Visibility.ImmediateWhole | my-app/src/app/page.tsx:83-88 | the whole list is shown at once exactly when it has at most 500 points |
| Visibility.SettledWhole | my-app/src/app/page.tsx:82-89 | after the idle callbacks the whole list is shown exactly when idle callbacks exist or the list is short; it is always a prefix |
| Visibility.Example501 | my-app/src/app/page.tsx:83-85 | 501 points: 500 at once, all 501 after the idle reveal, 500 forever without idle callbacks |
| Ingest.ReadRow | my-app/src/app/page.tsx:65-69 | one row's coordinates, or nothing when it is skipped; see `Ingest.AcceptedMembers` |
| Ingest.Accepted | my-app/src/app/page.tsx:50-71 | the accepted rows' coordinates in order; specified by `Ingest.AcceptedCount`, `Ingest.AcceptedAppend`, `Ingest.AcceptedMembers` and `Ingest.AcceptedFirst` |
| Ingest.Numbered | my-app/src/app/page.tsx:70 | ids `String(parsed.length)` in push order; see `Ingest.NumberedDense`, `Ingest.NumberedAppend` and `Ingest.NumberedCoordinates` |
| Ingest.Ingest | my-app/src/app/page.tsx:49-71 | the loop's `parsed` is the accepted coordinates, numbered in order |
| Ingest.NumberedAppend | my-app/src/app/page.tsx:70 | a pushed point has the old count as its id, and the earlier points are unchanged |
| Ingest.NumberedDense | my-app/src/app/page.tsx:70 | the ingested points are numbered "0", "1", … with one point per accepted row |
| Ingest.NumberedCoordinates | my-app/src/app/page.tsx:70 | the ids are the only thing numbering adds |
| Ingest.AcceptedEmpty | my-app/src/app/page.tsx:49-50 | no rows give no points |
| Ingest.CollectCount | my-app/src/app/page.tsx:50-71 | every element is either collected or skipped |
| Ingest.CollectAppend | my-app/src/app/page.tsx:50-71 | splitting the input splits the result, so order is kept |
| Ingest.CollectMembers | my-app/src/app/page.tsx:50-71 | a value is collected exactly when some element reads as it |
| Ingest.CollectEmpty | my-app/src/app/page.tsx:50-71 | nothing is collected exactly when every element is skipped |
| Ingest.CollectFirst | my-app/src/app/page.tsx:50-71 | the first value collected is the reading of the first element not skipped |
| Ingest.AcceptedFirst | my-app/src/app/page.tsx:65-70 | the first point comes from the first row not skipped, and there is none exactly when every row is skipped |
| Ingest.AcceptedCount | my-app/src/app/page.tsx:50-71 | accepted plus rejected rows is all the rows |
| Ingest.AcceptedAppend | my-app/src/app/page.tsx:50-71 | rows are read independently and in order |
| Ingest.AcceptedMembers | my-app/src/app/page.tsx:65-70 | a coordinate pair is ingested exactly when some row extracts and decodes to it |
| Ingest.AllAccepted | my-app/src/app/page.tsx:65-70 | when no row is skipped, every row gives a point |
| Ingest.IngestShape | my-app/src/app/page.tsx:49-71 | the ingested list is densely numbered, no longer than the rows, and holds exactly the accepted coordinates in order |
| HomePage.CenterAfterAppend | my-app/src/app/page.tsx:91-93 | appending never moves the centre, except that the first point becomes it |
| HomePage.Center | my-app/src/app/page.tsx:91-93 | `center`; specified by `HomePage.CenterAfterAppend` and `HomePage.CenterOfIngest` |
| HomePage.CenterOfIngest | my-app/src/app/page.tsx:91-93 | after a parse the centre is the first accepted row's coordinates, or London (51.5074, -0.1278) when every row is skipped |
| HomePage.Page.constructor | my-app/src/app/page.tsx:28-33 | empty lists, not loading, no error, empty inputs, nothing pending |
| HomePage.Page.ShowLocations | my-app/src/app/page.tsx:82-89 | visible is the list itself when short and its first 500 when long; a long list queues one idle callback capturing it when idle callbacks exist |
| HomePage.Page.ChooseFile | my-app/src/app/page.tsx:35-39 | with a file, loading starts and the error is cleared; without one nothing changes |
| HomePage.Page.CompleteParse | my-app/src/app/page.tsx:47-74 | the ingested list replaces the old one wholesale, loading ends, the error is kept and visibility is recomputed |
| HomePage.Page.FailParse | my-app/src/app/page.tsx:75-78 | the error is the message, loading ends and the points and view stay the same |
| HomePage.Page.SetLatInput | my-app/src/app/page.tsx:129 | only the latitude input changes |
| HomePage.Page.SetLngInput | my-app/src/app/page.tsx:138 | only the longitude input changes |
| HomePage.Page.AddPoint | my-app/src/app/page.tsx:95-110 | non-finite input sets the error and changes nothing else; otherwise exactly one point with id = old length is appended, the inputs and error are cleared and visibility is recomputed |
| HomePage.Page.IdleFires | my-app/src/app/page.tsx:85 | the oldest waiting callback shows the list it captured and leaves the queue |
| HomePage.LongFileScenario | my-app/src/app/page.tsx:82-89 | a long file shows its first 500 points and then, once idle, all of them |
| HomePage.ParseAndSettle | my-app/src/app/page.tsx:82-89 | with no callback waiting, a parse followed by the callback it asks for shows what `Visibility.Settled` gives for the new list |
| HomePage.NoIdleScenario | my-app/src/app/page.tsx:85 | without `requestIdleCallback` a long list stays cut at 500 points |
| HomePage.StaleRevealScenario | my-app/src/app/page.tsx:85 | a callback of an earlier long list is not cancelled and shows that list over a later short one |
| HomePage.FailedReparseScenario | my-app/src/app/page.tsx:72-78 | a failed parse after a successful one keeps the points and the view |
| MapView.TileUrl | my-app/src/app/components/Map.tsx:41-49 | `urls[mapType]`; specified by `MapView.TileUrlShared` |
| MapView.FindById | my-app/src/app/components/Map.tsx:71 | `locations.find`; specified by `MapView.FindByIdFirst` |
| MapView.PanTarget | my-app/src/app/components/Map.tsx:68-74 | `panTarget`; specified by `MapView.PanTargetCases` |
| MapView.TileUrlShared | my-app/src/app/components/Map.tsx:41-49 | every style has a template; two styles share one exactly when they are equal or are Roadmap and Hybrid |
| MapView.ButtonsReach | my-app/src/app/components/Map.tsx:110-151 | the buttons reach exactly the styles other than Hybrid |
| MapView.Markers | my-app/src/app/components/Map.tsx:52-65 | one marker per location |
| MapView.MarkersShape | my-app/src/app/components/Map.tsx:52-65 | marker i has location i's id and position, and the active icon exactly when that id is selected |
| MapView.OneActiveMarker | my-app/src/app/components/Map.tsx:57 | with dense ids and id "k" selected, marker k is the only active one |
| MapView.FindByIdFirst | my-app/src/app/components/Map.tsx:71 | `find` gives the first location with the id, and nothing exactly when no location has it |
| MapView.FindDense | my-app/src/app/components/Map.tsx:71 | with dense ids, the id "k" finds location k |
| MapView.PanTargetCases | my-app/src/app/components/Map.tsx:68-74 | no selection, or the falsy empty id, pans to the centre; any other selection pans to the first location with that id, or to the centre if there is none |
| MapView.PanToClicked | my-app/src/app/components/Map.tsx:60-74 | with dense ids, selecting marker k's id pans to location k |
| MapView.MapState.constructor | my-app/src/app/components/Map.tsx:38-39 | the style starts as Roadmap and nothing is selected |
| MapView.MapState.Press | my-app/src/app/components/Map.tsx:120-148 | a button sets its style, never Hybrid, and leaves the selection alone |
| MapView.MapState.ClickMarker | my-app/src/app/components/Map.tsx:60 | a click selects that marker's id and leaves the style alone |
| MapView.ClickScenario | my-app/src/app/components/Map.tsx:52-74 | clicking marker k selects it alone and pans the map to it |

## Left out

- The upload route's HTTP handler (`my-app/src/pages/api/upload.ts:53-97`) is I/O plumbing built on the form parser, `fs` streams and the CSV parser. Only its `dmmToDecimal` is modelled.
- The coordinates store (`my-app/src/pages/api/coordinates.ts`), `mapview.tsx`, the layout, `_app.tsx` and the Next.js configuration are HTTP handlers, rendering or configuration, and nothing in the model needs them.
- Papa Parse is not modelled: its worker thread, its delimiter detection and `skipEmptyLines` are library behaviour.
  - Its output is taken as given, as a sequence of `Rows.RawRecord`.
  - Whether a parse ends in `complete` or `error` is the caller's choice of method.
- Idle scheduling is a queue of waiting callbacks that the caller runs one at a time, oldest first (`HomePage.Page.IdleFires`). When the browser is idle is not modelled.
- React's render batching and effect timing are simplified: the effect on `locations` runs at the end of every handler that sets `locations`.
- Rendering is left out: Leaflet's markers, tile loading, the `PanTo` animation, the icon images and all styles.
  - The icons are modelled by their sizes, to tell them apart.
  - The pan target is computed but not applied.
- The inputs' `required` and `type="number"` checks are browser validation before submit. The model lets any string reach `AddPoint`.
- Numbers are exact reals, not IEEE-754 doubles (section 6.1.6.1 of ECMA-262).
  - The degrees + minutes / 60 addition and division do not round.
  - `toFixed(8)` is exact rounding half away from zero. Its exponential form for values of 10^21 and above is not modelled.
- `parseInt` and `parseFloat` (sections 19.2.5 and 19.2.4 of ECMA-262) cover ASCII space, a sign, a hex prefix for `parseInt`, and digits, a fraction, an exponent and `Infinity` for `parseFloat`.
  - Unicode white space and the line terminators beyond ASCII are not treated as space.
  - A `parseFloat` result too large for a double is finite here, where JavaScript gives Infinity.
- HomePage.Page.AddPoint: because of the point above, an input such as "1e400" is added as a finite point here, where the page sets the error.
- `trim` and `toUpperCase` are ASCII only: Unicode white space and non-ASCII letters are not modelled. One consequence: JavaScript upper-cases 'ſ' (U+017F) to 'S', so the page accepts "4023.6174ſ" as a southern latitude, and the model rejects it.
- The `\s` of the row split `split(/\s+|,|\t/)` is ASCII white space here (`Rows.IsSeparator`); JavaScript's `\s` also matches Unicode spaces.
- `parseInt(m[1], 10)` on the page reads the degree group as a decimal digit run (`DigitsValue`). The group holds only decimal digits, so the radix changes nothing.
- `Number.isFinite` is the `Some` case. The page's decoder never reads an infinite value from a string its regex accepts.
- LenientDmm.Decode: maps a result of ±Infinity to `None`, the same as NaN. The upload decoder accepts every string, and on "12InfinityN" its `parseFloat` reads Infinity minutes, so the route returns Infinity where the model returns `None`.

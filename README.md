# CSV-to-train-times, modelled in Dafny

The script reads a CSV file that lists teachers (origins) and schools
(destinations). It pairs every teacher with every school and builds a
route-search URL for each pair. It downloads each result page, reads the
travel time ("1時間5分") and writes a teacher × school table of durations.
This project models the parts of that pipeline that compute, and proves what
they promise:

- `make_dicts` (rows.dfy, module `Rows`). Rows are classified by their tag:
  "Teacher" in field 0 marks an origin, "School" a destination. Every origin
  is paired with every destination, teacher-major. A row too short for the
  fields Python indexes ends in `IndexError`, modelled as an `Err` result.
- `url_from_dict` (url.dfy, module `UrlBuilder`), with `urllib.parse.quote`
  (quote.dfy, module `PercentEncoding`). Quoting follows section 2.1 of
  RFC 3986 over the UTF-8 bytes of section 3 of RFC 3629, with letters,
  digits, `_.-~` and `/` left as they are. The URL is checked by reading its
  query back field by field and percent-decoding the address fields.
- `parse_duration_str` (duration.dfy, module `Durations`). The result is kept
  as a whole number of minutes. `str(timedelta)` is modelled exactly,
  including days and negative durations, together with a reader that takes
  that text back to minutes.
- The table-building part of `write_duration_csv` (pivot.dfy, module
  `Pivot`). The row and column orders that `list(set(...))` produces are
  parameters: any duplicate-free listing of the distinct names.
- The Python string and integer operations these rely on (text.dfy, module
  `Text`): `in`, `split`, `strip`, `str.isspace`, `int()` and `'%d'`.

`write_duration_csv`'s loop over the nested dictionary is a method with a
loop invariant. It is proved against `LastCell`, a function that gives each
cell its value: the last record's duration text, or `''` for a pair with no
record. `make_dicts`' loop is a method too, proved against the cross-product
function `Pairs`.

Where the behaviour is sometimes described differently from what the code
does, the model follows the code:

- `parse_duration_str` catches only `ValueError` and `IndexError`.
  `timedelta` raises `OverflowError` once the day count passes 999999999 in
  either direction, and that error escapes. The model's `TooLarge` outcome
  stands for it (`Durations.ParseOverflow`, `Durations.ParseOverflowNegative`).
  A number longer than `int()`'s digit limit fails earlier, with `ValueError`,
  and gives `None`; the model has no digit limit.
- A blank CSV line reaches `make_dicts` as an empty row, and `row[0]` then
  raises `IndexError`. It is not skipped.

## Model

| member | source | states |
|---|---|---|
| Rows.MakeDicts | CSV-to-train-times.py:25-45 | fails exactly when some row has no field 0, or a teacher or location that gets paired lacks field 1 or 2; otherwise the records are the teacher-major cross product: \|teachers\|·\|locations\| of them, the one at i·\|locations\|+j (written `Block(i, \|locations\|) + j`) holding teacher i's name and address and location j's |
| Rows.BlockIsProduct | CSV-to-train-times.py:30 | `Block(i, n)`, the offset of teacher i's first pair, is i·n |
| Rows.Tagged | CSV-to-train-times.py:28-29 | keeps only rows of the input whose field 0 contains the tag word, and no more rows than the input has |
| Rows.PairsAt | CSV-to-train-times.py:30 | pair i·\|locations\|+j of the cross product exists and is (x[1], x[2], y[1], y[2]) for teacher x = teachers[i] and location y = locations[j] |
| Rows.TaggedAppend | CSV-to-train-times.py:28-29 | classifying a concatenation of rows classifies each part, in order |
| Rows.TaggedKeepsAll | CSV-to-train-times.py:28-29 | no deduplication: when every row carries the tag, every row is kept, repeats included, in input order |
| Rows.TaggedKeeps | CSV-to-train-times.py:28-29 | every row whose tag contains the word is kept |
| Rows.UntaggedRowDropped | CSV-to-train-times.py:28-29 | removing a row whose tag contains neither "Teacher" nor "School" changes neither the teachers nor the locations |
| Rows.DoublyTaggedRowUsedTwice | CSV-to-train-times.py:28-29 | a row whose tag contains both words is both a teacher and a location |
| PercentEncoding.EncodeChar | CSV-to-train-times.py:52-53 | a character is 1 to 4 UTF-8 bytes, and an ASCII character is its own byte |
| PercentEncoding.QuoteBytes | CSV-to-train-times.py:52-53 | every character of an encoded segment is a letter, a digit, one of `_.-~/`, or the `%` of an escape |
| PercentEncoding.QuoteHasNoDelimiters | CSV-to-train-times.py:52-53 | no encoded segment contains `&`, `=`, `?`, `#`, `+` or a space |
| PercentEncoding.UnquoteQuote | CSV-to-train-times.py:52-53 | percent-decoding an encoded segment gives back the original bytes |
| PercentEncoding.QuoteInjective | CSV-to-train-times.py:52-53 | different byte strings never encode to the same segment |
| PercentEncoding.QuoteKeepsSafe | CSV-to-train-times.py:52-53 | a string made only of letters, digits and `_.-~/` is left as it is |
| UrlBuilder.UrlFromDict | CSV-to-train-times.py:48-60 | the record is returned beside the URL unchanged |
| UrlBuilder.UrlQueryFields | CSV-to-train-times.py:50-59 | the URL goes to `https://transit.yahoo.co.jp/search/result`, the text before its first `?`; its query fields are, in order: `from` holding the encoded teacher address, an empty `flatlon`, `to` holding the encoded location address, the template's fixed fields, and last `kw` holding the encoded location address again |
| UrlBuilder.UrlCarriesAddresses | CSV-to-train-times.py:50-59 | the URL has exactly four fields beyond the fixed ones, and decoding `from`, `to` and `kw` gives the UTF-8 bytes of the teacher, location and location addresses |
| UrlBuilder.UrlDeterminesAddresses | CSV-to-train-times.py:50-59 | two records with the same URL have addresses with the same UTF-8 bytes |
| UrlBuilder.UrlOfAddressesOnly | CSV-to-train-times.py:50-59 | the URL depends on the two addresses only: records with the same teacher and location addresses get the same URL, whatever their names |
| Text.IndexOf | CSV-to-train-times.py:68 | `sub in s`: when the search succeeds, `sub` occurs at the position found |
| Text.IndexOfFirst | CSV-to-train-times.py:68 | no earlier position holds `sub`, and when the search fails no position does |
| Text.Before | CSV-to-train-times.py:69-72 | `s.split(sub)[0]` is a prefix of `s` that ends where the first `sub` begins, or all of `s` when there is none |
| Text.After | CSV-to-train-times.py:70 | `s` is the text before the first `sub`, then `sub`, then what `After` returns |
| Text.BeforeAtSeparator | CSV-to-train-times.py:69-72 | splitting `a + sub + b`, where `a` cannot hold the start of `sub`, gives `a` before and `b` after |
| Text.StripPadded | CSV-to-train-times.py:69-72 | `strip()` removes the whitespace around a word and nothing else |
| Text.ParseIntRoundTrip | CSV-to-train-times.py:69-72 | `int()` reads back every integer's decimal spelling |
| Durations.TimedeltaRangeInMinutes | CSV-to-train-times.py:73 | `timedelta(hours=h, minutes=m)` keeps a total of `60·h + m` minutes exactly when it lies from -999999999 days up to, but not including, 1000000000 days; any other total is the overflow, never `None` |
| Durations.ParseHoursAndMinutes | CSV-to-train-times.py:68-70 | "H時間M分", with whitespace anywhere around the numbers and anything after the "分", is 60·H+M minutes |
| Durations.ParseHoursForm | CSV-to-train-times.py:68-70 | with "時間" present, the hours are the text before it and the minutes the text after it up to the first "分", each read as `int(strip())` |
| Durations.ParseMinutesForm | CSV-to-train-times.py:71-72 | without "時間", the minutes are the text before the first "分", read as `int(strip())` |
| Durations.ParseMinutesOnly | CSV-to-train-times.py:71-73 | "M分" with whitespace around M and no "時間" anywhere is M minutes |
| Durations.ParseBareNumber | CSV-to-train-times.py:71-73 | a number with no separator at all is read as minutes |
| Durations.ParseRoundTrip | CSV-to-train-times.py:65-73 | the site's spellings "H時間M分" and "M分" parse to 60·H+M and M minutes |
| Durations.ParseOverflow | CSV-to-train-times.py:73-74 | a duration of a billion days or more ends in the escaping overflow, not in `None` |
| Durations.ParseSignedHours | CSV-to-train-times.py:68-73 | "-H時間M分" with a signed hours count parses to `60·H + M` minutes, as `int()` reads the sign |
| Durations.ParseOverflowNegative | CSV-to-train-times.py:68-74 | a total below -999999999 days ends in the escaping overflow too, not in `None` |
| Durations.NoDigitNoDuration | CSV-to-train-times.py:65-75 | text without an ASCII decimal digit gives `None` |
| Durations.MissingHours | CSV-to-train-times.py:68-75 | an empty hours segment gives `None` |
| Durations.MissingMinutes | CSV-to-train-times.py:68-75 | "H時間" with nothing but whitespace after it gives `None` |
| Durations.ParseExampleLongMinutes | CSV-to-train-times.py:68-73 | minutes are not range-checked: "1時間90分" is 150 minutes |
| Durations.ParseExampleBare | CSV-to-train-times.py:72-73 | "45" is 45 minutes |
| Durations.ParseExamplesNoDigits | CSV-to-train-times.py:72-75 | "" and "abc分" give `None` |
| Durations.ParseExampleNoMinutes | CSV-to-train-times.py:68-75 | "1時間" gives `None` |
| Durations.ParseExampleNoHours | CSV-to-train-times.py:68-75 | "時間30分" gives `None` |
| Durations.ReadClockOf | CSV-to-train-times.py:125 | the "H:MM:00" text of a time within one day reads back as its minutes and holds no "," |
| Durations.ReadRenderedRoundTrip | CSV-to-train-times.py:125 | reading `str(timedelta)` back gives every duration, days and negative durations included |
| Durations.RenderInjective | CSV-to-train-times.py:125 | two different durations never render alike |
| Durations.RenderExampleClock | CSV-to-train-times.py:125 | 90 minutes render as "1:30:00" |
| Durations.RenderExampleDays | CSV-to-train-times.py:125 | 1440 minutes render as "1 day, 0:00:00" and 2881 as "2 days, 0:01:00" |
| Durations.RenderExampleNegative | CSV-to-train-times.py:125 | minus five minutes render as "-1 day, 23:55:00" |
| Pivot.NoneIsNotRendered | CSV-to-train-times.py:125 | "None" is not the text of any duration |
| Pivot.ReadCellText | CSV-to-train-times.py:125 | a cell's text gives back the record's duration, missing or not |
| Pivot.CellTextNotBlank | CSV-to-train-times.py:124-125 | no record writes an empty cell; a missing duration writes "None" |
| Pivot.WriteDurationTable | CSV-to-train-times.py:113-132 | the header is "Teacher" followed by the locations; there is one row per teacher, made of the teacher's name and one cell per location; each cell is `LastCell` of the records for that pair |
| Pivot.FillDurations | CSV-to-train-times.py:120-126 | after the loop over the records, every listed teacher and location has a cell, and that cell is `LastCell` of the records |
| Pivot.BuildRows | CSV-to-train-times.py:131-132 | one row per teacher in order, made of the teacher's name and that teacher's cell for each location in order |
| Pivot.LastCellBlank | CSV-to-train-times.py:120-126 | a cell stays `''` exactly when no record names its teacher and location |
| Pivot.LastCellIsLast | CSV-to-train-times.py:122-126 | the last record for a pair decides its cell: earlier records for the pair are overwritten, and records for other pairs do not touch it |
| Pivot.LastCellStep | CSV-to-train-times.py:122-126 | writing one more record changes only its own pair's cell |
| Pivot.OrderCoversNames | CSV-to-train-times.py:115-116 | a duplicate-free listing of the distinct names has one entry per name, so there is one row per distinct teacher and one column per distinct location |

## Left out

- `read_csv` (lines 16-22) and the `open`/`csv.writer` output (lines 128-133) are file I/O. The model takes the rows as a value and returns the header and rows that would be written. The CSV quoting of those rows is not modelled.
- `download_page`, `download_pages` and `a_main` (lines 78-110) are networking, `asyncio` concurrency and HTML scraping with BeautifulSoup. The pivot takes the downloaded records (`Pivot.Page`) as input.
- The error strings that `download_page` returns on failure (line 96) are left out. `write_duration_csv` would raise `TypeError` on them at line 115, where `d['Teacher']` indexes a string with a string, and the model accepts only well-formed records.
- The order `set()` gives at lines 115-116 is unspecified in Python. `Pivot.WriteDurationTable` takes any duplicate-free listing of the distinct names instead.
- The `__main__` block (lines 136-141) is left out.
- `Text.ParseInt` is `int()` applied to text that is already stripped: an optional sign, then ASCII digits. `int()` also accepts `_` between digits and non-ASCII decimal digits, and it refuses more than 4300 digits. None of that is modelled.
- `Text.IsSpace` lists the code points for which `str.isspace()` is true, taken from the Unicode tables and written out by hand.
- `PercentEncoding.EncodeChar` encodes every `char` Dafny allows. These are Unicode scalar values, so Python's failure on lone surrogates does not arise.
- `UrlBuilder.QueryFields` reads the query by splitting at `&` and then at the first `=`. It does not decode `+` or percent escapes the way `urllib.parse.parse_qsl` does. The address fields are decoded with `PercentEncoding.Unquote`.
- Durations.ParseOverflow and Durations.ParseOverflowNegative: hold only for numbers within `int()`'s 4300-digit limit in Python, since the model's `Text.ParseInt` has no such limit.
- `Durations.Render` covers whole minutes only, because `parse_duration_str` never produces seconds or microseconds.

# Weather clock: forecast table and clock arithmetic

A Dafny model of the logic in `weatherclock.js`. That file draws a twelve-hour clock face with weather glyphs around the dial. The model covers these parts of it:

- **The forecast table** (`forecasts.dfy`, module `Forecasts`). Raw forecast entries each cover an interval `from`–`to` and may carry a symbol number, a temperature and a wind speed. They are folded into a table keyed by the interval's midpoint. An entry is skipped when its key already holds a span no longer than its own. Otherwise it replaces the span and only the sub-fields it carries; the sub-fields it lacks keep their earlier values. The merge loop is the method `ParseForecasts`. It is proved equal to the left fold `MergeAll` of the one-step function `Merge`, and the lemmas about the table are stated over `MergeAll`.
- **Rendering** (`render.dfy`, module `Render`). This covers the window of table rows drawn on the dial, from now + 45 min to now + 11 h 45 min with both bounds included. It also covers the local hour and minute of a row's time, the fixed day/night rule (night before 07:00 or after 20:00), the address of the weather-symbol image, and the set of glyphs drawn: one temperature label and one symbol image per row in the window, for whichever of the two the row has.
- **Hands** (`hands.dfy`, module `Hands`). This covers the rotation of the hour hand and the minute hand for a local time, and which hands are shown at loading progress 1 (position found) and 2 (the forecast request has returned, before its status is checked).

Time is integer milliseconds since the epoch. A span is `to - from` in milliseconds. The source divides the span by an hour's length in double precision, and the table only compares spans. That division keeps the order of spans below about 2^31 hours (see "## Left out" for the spans beyond it). A table key is the midpoint `(from + to) / 2` rounded toward zero. That is what building a date from a fractional millisecond count does while `from + to` is at most 2^53 in magnitude, so the model needs no precondition on `from + to` (see "## Left out" for larger sums). Sub-field values are the attribute text of the forecast document, as the source stores them; the symbol text goes into the image address as is. The local time of an instant uses a fixed zone offset (a parameter) and the date library's definitions: division rounds down and the remainder is never negative. The current time (`now`) and the local hour and minute for the hands are parameters.

The comment on `parseWeatherXml` (weatherclock.js:20-28) speaks of timestamps in seconds since the epoch. The code keys on dates with millisecond values, and the model follows the code. The code also stores the attribute text of each sub-field, not a number. The render loop visits rows in the order they were first stored; the model returns a set of glyphs.

## Model

| member | source | states |
|---|---|---|
| `Forecasts.Merge` | weatherclock.js:38-73 | Merging writes only the key `(from+to)/2`, and every other key keeps its row. An empty key receives the entry with span exactly `to - from` and only the sub-fields the entry carries. If the key holds a span no longer than the entry's, the whole table is unchanged, so equal spans keep the first entry. A strictly finer entry replaces the span and each sub-field it carries, and the sub-fields it lacks keep their earlier values. The row at the key never gets coarser. |
| `Forecasts.ParseForecasts` | weatherclock.js:30-77 | The merge loop (look up the key, skip when the data there is at least as fine, otherwise overwrite the span and the sub-fields present, store) builds exactly the table `MergeAll(entries)`. `MergeAll` is the left fold of `Merge` over the entries in document order. |
| `Forecasts.MergeAllKeys` | weatherclock.js:41-73 | After reading a sequence of entries, the table has a row for a key exactly when some entry has that midpoint. |
| `Forecasts.MidpointWithinInterval` | weatherclock.js:41 | `Midpoint` gives the key of an interval: `(from + to) / 2` rounded toward zero, which is the source's key while the sum is at most 2^53 in magnitude. A key is the exact midpoint when `from + to` is even and is off by at most half a millisecond otherwise. It always lies within the interval, in either orientation. |
| `Forecasts.StoredSpanIsMinimum` | weatherclock.js:43-53 | After any sequence of entries, the span stored at a key is at most the span of every entry with that midpoint, and it equals the span of one of them. So it is the minimum span seen at that key. |
| `Forecasts.SpanIndependentOfOrder` | weatherclock.js:43-53 | A key present after reading the entries in one order is present after reading them in any other order, and it holds the same span. |
| `Forecasts.SpansIndependentOfOrder` | weatherclock.js:43-53 | Two orders of the same entries give tables with the same keys and the same span at every key. |
| `Forecasts.FinestEntryWins` | weatherclock.js:43-73 | Take the first entry at a key whose span is strictly below every earlier span there and no longer than every later one. The table row at that key has that entry's span, and it holds every sub-field (symbol, temperature, wind) that entry carries. Sub-fields it lacks may come from coarser entries. |
| `Render.SelectWindow` | weatherclock.js:167-185 | The window keeps the rows of the table unchanged. Every time it keeps satisfies `now + 45 min <= t <= now + 11 h 45 min`. Every table time in that range, both bounds included, is kept. |
| `Render.LocalTimeOf` | weatherclock.js:187 | The local hour is in 0..23 and the minute in 0..59 for every instant, including instants before the epoch. |
| `Render.LocalTimeIsMinuteOfDay` | weatherclock.js:187 | `hours * 60 + minutes` of an instant is the count of whole minutes since the epoch, in the zone, modulo one day. |
| `Render.FractionalHour` | weatherclock.js:187 | The hour a row is drawn at, `hours + minutes / 60`, lies in `[hours, hours + 1)`. |
| `Render.IsNightByMinuteOfDay` | weatherclock.js:200 | `IsNight` (the fractional hour is below 7 or above 20) holds exactly when the minute of the day is below 420 or above 1200. |
| `Render.NightBoundaries` | weatherclock.js:199-200 | 06:59 is night, 07:00 and 20:00 are day, and 20:01 is night. |
| `Render.SymbolUrl` | weatherclock.js:205-209 | The image address starts with the weather-icon service prefix, and its length is the prefix, the symbol text, the fixed parameters and one digit. It ends in `is_night=1` exactly at night and in `is_night=0` otherwise. |
| `Render.SymbolUrlRoundTrip` | weatherclock.js:205-209 | Parsing an image address gives back the symbol text and the day/night flag it was built from. |
| `Render.ForecastGlyphs` | weatherclock.js:189-212 | A row yields a temperature label exactly when it has a temperature, and a symbol image exactly when it has a symbol. Both glyphs are placed at the row's fractional hour. The label carries the row's temperature. The image address is built from the row's symbol and from whether that hour is night. |
| `Render.RenderClock` | weatherclock.js:167-214 | Every glyph drawn belongs to a table row inside the window and is placed at that row's local hour. Labels carry the row's temperature. Images carry the row's symbol, with the night flag set exactly when the row's hour is night. Every row in the window gets a label if it has a temperature and an image if it has a symbol. |
| `Render.OneHourForecastShown` | weatherclock.js:38-211 | A single one-hour entry carrying a symbol and a temperature, whose midpoint lies in the window, becomes the only table row, with span one hour and exactly those sub-fields. It is drawn as exactly one temperature label and one symbol image at its local hour. |
| `Hands.HourAngle` | weatherclock.js:247-250 | The hour hand's rotation, from the hour taken modulo 12, is 30 degrees per hour plus half a degree per minute. It lies in `[0, 360)` for hours 0..23 and minutes 0..59. |
| `Hands.MinuteAngle` | weatherclock.js:254 | The minute hand turns 6 degrees per minute and lies in `[0, 354]`. |
| `Hands.HandsAgree` | weatherclock.js:250-254 | Twelve times the hour hand's rotation equals the minute hand's rotation plus a whole number of turns. |
| `Hands.HourAngleTwelveHourPeriod` | weatherclock.js:247-250 | An afternoon hour points where the same morning hour does. |
| `Hands.HourAngleIncreases` | weatherclock.js:247-250 | Within one half of the day, a later time gives a larger hour-hand rotation. |
| `Hands.HandsAtProgress` | weatherclock.js:285-289 | The minute hand is never shown without the hour hand, because progress of at least 2 is also at least 1. |
| `Hands.LoadingStages` | weatherclock.js:288-289 | At progress 0 (never set by the script) no hand is shown. At progress 1 (position found, line 269) only the hour hand is shown. At progress 2 (the forecast request has returned, line 96, before its status is checked) both are shown, so both hands also appear when the fetch failed. |
| `Hands.HandsStayShown` | weatherclock.js:288-289 | More progress never hides a hand that less progress showed. |

## Left out

- Reading the forecast document is left out because it is a foreign DOM API. This covers finding the `time` elements, their `symbol`, `temperature` and `windSpeed` descendants, and their attributes. An `Entry` holds the already-extracted values. Each is taken from the first descendant of its kind in document order, as the source does.
- Parsing the `from`/`to` attribute text into dates is left out. An unparsable date gives a not-a-number span in the source, and such an entry always replaces the row at its key; numbers that are not a number are not modelled.
- Table keys in the source are the text form of a date, which has one-second resolution. So two midpoints within the same second share a row there. The model keys on whole milliseconds. The date range limit (about ±8.64e15 ms) is not modelled either.
- `SelectWindow` decides on the exact millisecond of a key. The source's render loop parses the key text back into a date (weatherclock.js:177). That date is the midpoint rounded down to the whole second, and the loop compares it with the window bounds (lines 179-184). So a midpoint `t` is dropped there when ⌊t⌋ < now + 2700000 ≤ t, and kept there when ⌊t⌋ ≤ now + 42300000 < t, where ⌊t⌋ is `t` rounded down to the whole second.
- `Midpoint` adds `from` and `to` exactly. The source adds them as doubles (line 41). When the sum is larger than 2^53 in magnitude, an odd sum is rounded to an even one before the halving. For example, take the entry (4503599627370999, 4503599627371000), with both dates inside the date range. The source's key is 4503599627371000, which is in the next second. `Midpoint` gives 4503599627370999.
- `Merge` compares spans as exact integers. The source compares `(to - from) / 3600000` as doubles (lines 40 and 48). Beyond about 2^31 hours, different spans can round to the same double. For example, take the entries (−8.6e15, 8.6e15) and then (−8.6e15 + 1, 8.6e15 − 1), both with key 0. The source skips the second entry because the two hour counts are equal. The model replaces the row because the second span is 2 ms shorter.
- `FractionalHour` and `Glyph.hour` are exact reals; the source's fractional hour (line 187) is a double. This cannot change the night test at line 200. For minutes of 1 or more, the fraction is at least 1/60, and 6 + 59/60 rounded to a double is still below 7.
- Rows are values in the model. In the source the row object is updated in place and then stored back under its key. No other key shares that object, so the stored result is the same.
- `RenderClock` returns a set of glyphs. The order in which the source inserts them into the page (the order rows were first stored) is not modelled.
- The local zone is a fixed offset. Daylight-saving changes of offset are not modelled.
- `getCoordinates` is not part of this model. It places glyphs on the dial with floating-point sine, cosine and rounding. The render path passes it an hour in 0..24 that is not reduced modulo 12; that makes no difference there because the placement repeats every 12 hours.
- The temperature label's text (the temperature rounded to a whole degree, then a degree sign) is left out because it is floating-point rounding. A label carries the temperature text as read.
- `addHourString`, `addHourSymbol`, and the page updates of `setClock` and `setProgress0to2` (transform and visibility attributes) are left out: they only change the page. Their values are modelled: the rotations, and which hands are shown.
- Reading the current time and local hour from the system clock is left out; `now`, the zone offset, and the hour and minute are parameters.
- `fetchWeather` is left out because it is network I/O and analytics. This includes the synchronous request, the check that the status is 2xx, and the timing metric.
- `doWeather`, `setPosition`, `positioningError`, `logError`, `log` and `main` are left out because they are geolocation callbacks, logging, alerts and the redirect to https.
- `src/App.js` is left out because it is user-interface wiring with no logic. `clocknumbers.rb` is left out because it is a one-shot printer of the dial's numerals using floating-point trigonometry.

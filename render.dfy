/**
 Rendering the forecast table onto the clock face: the rows whose time falls
 in the window shown on a twelve-hour dial, the local hour each is drawn at,
 the day/night choice for its weather symbol and the address of the symbol's
 image.
 */
module Render {
  import opened Forecasts

  const MS_PER_MINUTE: int := 60 * 1000
  const MS_PER_HOUR: int := 3600 * 1000

  // The contracts below spell these bounds as 45 * 60000 and
  // (11 * 60 + 45) * 60000: the same 2700000 and 42300000 ms.

  /** The window starts three quarters of an hour after now... */
  const WINDOW_START: int := 3 * MS_PER_HOUR / 4
  /** ...and ends eleven and three quarter hours after now. */
  const WINDOW_END: int := 47 * MS_PER_HOUR / 4

  /** A time is shown unless it is before the start or after the end of the
      window. */
  predicate InWindow(now: int, t: int)
  {
    !(t < now + WINDOW_START) && !(t > now + WINDOW_END)
  }

  /** The rows of the table that are drawn on the dial. */
  function SelectWindow(table: Table, now: int): (w: Table)
    ensures w.Keys <= table.Keys
    ensures forall t :: t in w ==> w[t] == table[t]
    // nothing before now + 45 min or after now + 11 h 45 min is shown
    ensures forall t :: t in w ==> now + 45 * 60000 <= t <= now + (11 * 60 + 45) * 60000
    // every row between those bounds, both included, is shown
    ensures forall t :: t in table && now + 45 * 60000 <= t <= now + (11 * 60 + 45) * 60000 ==> t in w
  {
    map t | t in table && InWindow(now, t) :: table[t]
  }

  /** Wall-clock hour and minute. */
  datatype LocalTime = LocalTime(hours: int, minutes: int)

  predicate ValidLocalTime(lt: LocalTime)
  {
    0 <= lt.hours < 24 && 0 <= lt.minutes < 60
  }

  /** The local hour and minute of the instant `t`, for a zone `offset`
      milliseconds ahead of UTC. Division rounds down and the remainder is
      never negative, as the date library defines them, so instants before
      the epoch come out right too. */
  function LocalTimeOf(t: int, offset: int): (lt: LocalTime)
    ensures ValidLocalTime(lt)
  {
    LocalTime(((t + offset) / MS_PER_HOUR) % 24, ((t + offset) / MS_PER_MINUTE) % 60)
  }

  function MinuteOfDay(lt: LocalTime): int
  {
    lt.hours * 60 + lt.minutes
  }

  /** The local minute of the day is the number of whole minutes since the
      epoch, in the zone, counted modulo a day. */
  lemma LocalTimeIsMinuteOfDay(t: int, offset: int)
    ensures MinuteOfDay(LocalTimeOf(t, offset)) == ((t + offset) / MS_PER_MINUTE) % (24 * 60)
  {
    var x := t + offset;
    var m := x / MS_PER_MINUTE;
    var q, r2 := m / 60, m % 60;
    assert x == MS_PER_HOUR * q + (MS_PER_MINUTE * r2 + x % MS_PER_MINUTE);
    assert x / MS_PER_HOUR == q;
    var p, s := q / 24, q % 24;
    assert m == (24 * 60) * p + (60 * s + r2);
    assert m % (24 * 60) == 60 * s + r2;
  }

  /** The fractional hour a forecast is drawn at: hours plus minutes over
      sixty. */
  function FractionalHour(lt: LocalTime): (hour: real)
    requires ValidLocalTime(lt)
    ensures lt.hours as real <= hour < lt.hours as real + 1.0
  {
    lt.hours as real + lt.minutes as real / 60.0
  }

  /** The fixed night window: before seven in the morning or after eight in
      the evening. */
  predicate IsNight(hour: real)
  {
    hour < 7.0 || hour > 20.0
  }

  /** Night holds exactly before 07:00 and after 20:00, counted in minutes of
      the day. */
  lemma IsNightByMinuteOfDay(lt: LocalTime)
    requires ValidLocalTime(lt)
    ensures IsNight(FractionalHour(lt)) <==> MinuteOfDay(lt) < 7 * 60 || MinuteOfDay(lt) > 20 * 60
  {
  }

  /** The boundaries: 06:59 is night, 07:00 and 20:00 are day, 20:01 is
      night. */
  lemma NightBoundaries()
    ensures IsNight(FractionalHour(LocalTime(6, 59)))
    ensures !IsNight(FractionalHour(LocalTime(7, 0)))
    ensures !IsNight(FractionalHour(LocalTime(20, 0)))
    ensures IsNight(FractionalHour(LocalTime(20, 1)))
  {
  }

  const ICON_URL_PREFIX: string := "https://api.met.no/weatherapi/weathericon/1.1/?symbol="
  const ICON_URL_NIGHT_PARAMETER: string := ";content_type=image/png;is_night="

  /** The address of the PNG image of a weather symbol, for day or night. */
  function SymbolUrl(symbol: string, night: bool): (url: string)
    ensures |url| == |ICON_URL_PREFIX| + |symbol| + |ICON_URL_NIGHT_PARAMETER| + 1
    ensures url[..|ICON_URL_PREFIX|] == ICON_URL_PREFIX
    // the address ends in is_night=1 at night and in is_night=0 by day
    ensures url[|url| - 10..] == (if night then "is_night=1" else "is_night=0")
  {
    ICON_URL_PREFIX + symbol + ICON_URL_NIGHT_PARAMETER + (if night then "1" else "0")
  }

  /** Reading the symbol and the day/night flag back out of an address. */
  function ParseSymbolUrl(url: string): Option<(string, bool)>
  {
    var fixed := |ICON_URL_PREFIX| + |ICON_URL_NIGHT_PARAMETER| + 1;
    if |url| < fixed then None
    else
      var end := |url| - 1 - |ICON_URL_NIGHT_PARAMETER|;
      if url[..|ICON_URL_PREFIX|] != ICON_URL_PREFIX then None
      else if url[end..|url| - 1] != ICON_URL_NIGHT_PARAMETER then None
      else if url[|url| - 1] == '1' then Some((url[|ICON_URL_PREFIX|..end], true))
      else if url[|url| - 1] == '0' then Some((url[|ICON_URL_PREFIX|..end], false))
      else None
  }

  /** The address determines the symbol and the day/night flag it was built
      from. */
  lemma SymbolUrlRoundTrip(symbol: string, night: bool)
    ensures ParseSymbolUrl(SymbolUrl(symbol, night)) == Some((symbol, night))
  {
    var url := SymbolUrl(symbol, night);
    var end := |url| - 1 - |ICON_URL_NIGHT_PARAMETER|;
    assert url[|ICON_URL_PREFIX|..end] == symbol;
    assert url[end..|url| - 1] == ICON_URL_NIGHT_PARAMETER;
  }

  /** What is drawn on the dial for one forecast: its temperature as a label
      and its weather symbol as an image, both placed at the fractional hour
      of the forecast's time. */
  datatype Glyph =
    | Temperature(at: int, hour: real, celsius: string)
    | Symbol(at: int, hour: real, url: string)

  /** The glyphs of the row for time `at`, drawn at local time `lt`. */
  function ForecastGlyphs(at: int, f: Forecast, lt: LocalTime): (gs: set<Glyph>)
    requires ValidLocalTime(lt)
    ensures forall g :: g in gs ==> g.at == at && g.hour == FractionalHour(lt)
    ensures (exists g :: g in gs && g.Temperature?) <==> f.celsius.Some?
    ensures (exists g :: g in gs && g.Symbol?) <==> f.symbol.Some?
    ensures forall g :: g in gs && g.Temperature? ==> f.celsius == Some(g.celsius)
    ensures forall g :: g in gs && g.Symbol? ==>
      f.symbol.Some? && g.url == SymbolUrl(f.symbol.value, IsNight(FractionalHour(lt)))
  {
    var hour := FractionalHour(lt);
    (if f.celsius.Some? then {Temperature(at, hour, f.celsius.value)} else {})
    + (if f.symbol.Some? then {Symbol(at, hour, SymbolUrl(f.symbol.value, IsNight(hour)))} else {})
  }

  /** Everything drawn for a table at time `now` in a zone `offset`
      milliseconds ahead of UTC. */
  function RenderClock(table: Table, now: int, offset: int): (gs: set<Glyph>)
    // only rows inside the window are drawn, each at its own local hour
    ensures forall g :: g in gs ==>
      && g.at in table
      && now + 45 * 60000 <= g.at <= now + (11 * 60 + 45) * 60000
      && g.hour == FractionalHour(LocalTimeOf(g.at, offset))
    // a label carries the row's temperature; an image its symbol, for night
    // exactly when the row's local hour is
    ensures forall g :: g in gs && g.Temperature? ==> table[g.at].celsius == Some(g.celsius)
    ensures forall g :: g in gs && g.Symbol? ==>
      table[g.at].symbol.Some? && g.url == SymbolUrl(table[g.at].symbol.value, IsNight(g.hour))
    // every row inside the window gets a label for its temperature and an
    // image for its symbol, whichever it has
    ensures forall t :: t in table && now + 45 * 60000 <= t <= now + (11 * 60 + 45) * 60000 ==>
      && (table[t].celsius.Some? ==>
            Temperature(t, FractionalHour(LocalTimeOf(t, offset)), table[t].celsius.value) in gs)
      && (table[t].symbol.Some? ==>
            var hour := FractionalHour(LocalTimeOf(t, offset));
            Symbol(t, hour, SymbolUrl(table[t].symbol.value, IsNight(hour))) in gs)
  {
    var w := SelectWindow(table, now);
    var gs := set t, g | t in w && g in ForecastGlyphs(t, w[t], LocalTimeOf(t, offset)) :: g;
    assert forall t, g :: t in w && g in ForecastGlyphs(t, w[t], LocalTimeOf(t, offset)) ==> g in gs;
    gs
  }

  /** A single one-hour forecast whose midpoint lies in the window ends up as
      the only row of the table, with exactly its span and sub-fields, and is
      drawn as one temperature label and one symbol image at its local hour. */
  lemma OneHourForecastShown(start: int, now: int, offset: int, symbol: string, celsius: string)
    requires now + 45 * 60000 <= start + 30 * 60000 <= now + (11 * 60 + 45) * 60000
    ensures var at := start + 30 * 60000;
      && MergeAll([Entry(start, start + 60 * 60000, Some(symbol), Some(celsius), None)])
           == map[at := Forecast(60 * 60000, Some(symbol), Some(celsius), None)]
      && var hour := FractionalHour(LocalTimeOf(at, offset));
         RenderClock(MergeAll([Entry(start, start + 60 * 60000, Some(symbol), Some(celsius), None)]), now, offset)
           == {Temperature(at, hour, celsius), Symbol(at, hour, SymbolUrl(symbol, IsNight(hour)))}
  {
    // Dafny proves this unaided, by unfolding the one-entry fold.
  }
}

/**
 The forecast table of the weather clock: raw forecast entries, each covering
 an interval of time, are folded into a table keyed by the interval's midpoint.
 Where several entries share a midpoint the one with the shortest span is the
 most specific and wins; sub-fields it does not carry are inherited from the
 entry it replaces.

 Times are integer milliseconds since the epoch.
 */
module Forecasts {

  datatype Option<T> = None | Some(value: T)

  /** One raw forecast entry: the interval it covers and the sub-fields it
      carries (the text of the weather-symbol number, the temperature and the
      wind speed, as they appear in the forecast document). */
  datatype Entry = Entry(from: int, to: int, symbol: Option<string>, celsius: Option<string>, wind: Option<string>)

  /** One row of the forecast table. */
  datatype Forecast = Forecast(span: int, symbol: Option<string>, celsius: Option<string>, wind: Option<string>)

  type Table = map<int, Forecast>

  /** Length of the interval an entry covers, in milliseconds. The source
      divides this by the length of an hour, in double precision; for spans
      below about 2^31 hours that keeps the order of spans, which is all the
      table uses. */
  function Span(e: Entry): int
  {
    e.to - e.from
  }

  /** Half of `x`, rounded toward zero, as a date built from a fractional
      millisecond count is (for sums up to 2^53 in magnitude). */
  function HalfTowardZero(x: int): int
  {
    if x >= 0 then x / 2 else -((-x) / 2)
  }

  /** The table key of an interval: its midpoint, truncated to a whole
      millisecond. */
  function Midpoint(from: int, to: int): int
  {
    HalfTowardZero(from + to)
  }

  /** The key of an interval is its exact midpoint when that is a whole
      millisecond, is off by at most half a millisecond otherwise, and always
      lies within the interval. */
  lemma MidpointWithinInterval(from: int, to: int)
    ensures from + to - 1 <= 2 * Midpoint(from, to) <= from + to + 1
    ensures (from + to) % 2 == 0 ==> 2 * Midpoint(from, to) == from + to
    ensures from <= to ==> from <= Midpoint(from, to) <= to
    ensures to <= from ==> to <= Midpoint(from, to) <= from
  {
  }

  function Key(e: Entry): int
  {
    Midpoint(e.from, e.to)
  }

  /** A new row for an entry whose key held nothing: only the sub-fields the
      entry carries are set. */
  function Fresh(e: Entry): Forecast
  {
    Forecast(Span(e), e.symbol, e.celsius, e.wind)
  }

  /** `f` overwritten with the span of `e` and with each sub-field that `e`
      carries; the sub-fields `e` lacks keep the values they had in `f`. */
  function Overlay(f: Forecast, e: Entry): Forecast
  {
    Forecast(Span(e),
             if e.symbol.Some? then e.symbol else f.symbol,
             if e.celsius.Some? then e.celsius else f.celsius,
             if e.wind.Some? then e.wind else f.wind)
  }

  /** Folding one entry into the table. */
  function Merge(t: Table, e: Entry): (r: Table)
    // only the entry's own key can be added or changed
    ensures r.Keys == t.Keys + {Key(e)}
    ensures forall k :: k in t && k != Key(e) ==> r[k] == t[k]
    // an empty key receives the entry, with exactly its span
    ensures Key(e) !in t ==> r[Key(e)] == Forecast(Span(e), e.symbol, e.celsius, e.wind)
    // a row at least as fine as the entry is kept, and so is the whole table
    ensures Key(e) in t && t[Key(e)].span <= Span(e) ==> r == t
    // a strictly finer entry replaces the span and only the sub-fields it carries
    ensures Key(e) in t && Span(e) < t[Key(e)].span ==>
      && r[Key(e)].span == Span(e)
      && r[Key(e)].symbol == (if e.symbol.None? then t[Key(e)].symbol else e.symbol)
      && r[Key(e)].celsius == (if e.celsius.None? then t[Key(e)].celsius else e.celsius)
      && r[Key(e)].wind == (if e.wind.None? then t[Key(e)].wind else e.wind)
    // the row at the key never gets coarser
    ensures r[Key(e)].span <= Span(e)
    ensures Key(e) in t ==> r[Key(e)].span <= t[Key(e)].span
  {
    var k := Key(e);
    if k !in t then t[k := Fresh(e)]
    else if t[k].span <= Span(e) then t
    else t[k := Overlay(t[k], e)]
  }

  /** The table built from a sequence of entries, taken in order. */
  function MergeAll(es: seq<Entry>): Table
  {
    if es == [] then map[]
    else Merge(MergeAll(es[..|es| - 1]), es[|es| - 1])
  }

  /** The table has a row for exactly the keys of the entries read. */
  lemma {:induction false} MergeAllKeys(es: seq<Entry>)
    ensures forall k :: k in MergeAll(es) <==> exists j :: 0 <= j < |es| && Key(es[j]) == k
  {
    if es != [] {
      var n := |es| - 1;
      MergeAllKeys(es[..n]);
      assert forall j :: 0 <= j < n ==> es[..n][j] == es[j];
    }
  }

  /** The merge loop as the forecast reader runs it: one table, updated entry
      by entry, an entry skipped when its key already holds data at least as
      fine. */
  method ParseForecasts(entries: seq<Entry>) returns (forecasts: Table)
    ensures forecasts == MergeAll(entries)
  {
    forecasts := map[];
    for i := 0 to |entries|
      invariant forecasts == MergeAll(entries[..i])
    {
      assert entries[..i + 1][..i] == entries[..i];
      var prognosis := entries[i];
      var dh := prognosis.to - prognosis.from;
      var timestamp := Midpoint(prognosis.from, prognosis.to);

      var forecast: Forecast;
      if timestamp in forecasts {
        forecast := forecasts[timestamp];
        if forecast.span <= dh {
          // there is already better data here
          continue;
        }
      } else {
        forecast := Forecast(dh, None, None, None);
      }

      forecast := forecast.(span := dh);
      if prognosis.symbol.Some? {
        forecast := forecast.(symbol := prognosis.symbol);
      }
      if prognosis.celsius.Some? {
        forecast := forecast.(celsius := prognosis.celsius);
      }
      if prognosis.wind.Some? {
        forecast := forecast.(wind := prognosis.wind);
      }
      forecasts := forecasts[timestamp := forecast];
    }
    assert entries[..|entries|] == entries;
  }

  /** The span stored at a key is the smallest span among the entries with
      that key, and it is the span of one of them. */
  lemma {:induction false} StoredSpanIsMinimum(es: seq<Entry>, k: int)
    requires k in MergeAll(es)
    ensures forall j :: 0 <= j < |es| && Key(es[j]) == k ==> MergeAll(es)[k].span <= Span(es[j])
    ensures exists j :: 0 <= j < |es| && Key(es[j]) == k && MergeAll(es)[k].span == Span(es[j])
  {
    assert es != [];
    var n := |es| - 1;
    var init, e := es[..n], es[n];
    var m := MergeAll(init);
    var r := MergeAll(es);
    assert r == Merge(m, e);
    MergeAllKeys(init);
    if k in m {
      StoredSpanIsMinimum(init, k);
    }
    forall j | 0 <= j < |es| && Key(es[j]) == k
      ensures r[k].span <= Span(es[j])
    {
      if j < n {
        assert init[j] == es[j];
        assert k in m && m[k].span <= Span(es[j]);
        if k == Key(e) {
          assert r[k].span <= m[k].span;
        } else {
          assert r[k] == m[k];
        }
      } else {
        assert e == es[j];
      }
    }
    if k in m && (k != Key(e) || m[k].span <= Span(e)) {
      var j :| 0 <= j < n && Key(init[j]) == k && m[k].span == Span(init[j]);
      assert init[j] == es[j];
      assert r[k].span == Span(es[j]);
    } else {
      assert r[k].span == Span(es[n]);
    }
  }

  /** Each entry of one sequence occurs in any sequence holding the same
      entries. */
  lemma Occurs(es1: seq<Entry>, es2: seq<Entry>, j1: int) returns (j2: int)
    requires multiset(es1) == multiset(es2)
    requires 0 <= j1 < |es1|
    ensures 0 <= j2 < |es2| && es2[j2] == es1[j1]
  {
    assert es1[j1] in multiset(es2);
    j2 :| 0 <= j2 < |es2| && es2[j2] == es1[j1];
  }

  /** A key present after reading `es1` is present, with the same span, after
      reading the same entries in another order. */
  lemma SpanIndependentOfOrder(es1: seq<Entry>, es2: seq<Entry>, k: int)
    requires multiset(es1) == multiset(es2)
    requires k in MergeAll(es1)
    ensures k in MergeAll(es2) && MergeAll(es2)[k].span == MergeAll(es1)[k].span
  {
    StoredSpanIsMinimum(es1, k);
    var j1 :| 0 <= j1 < |es1| && Key(es1[j1]) == k && MergeAll(es1)[k].span == Span(es1[j1]);
    var i1 := Occurs(es1, es2, j1);
    MergeAllKeys(es2);
    StoredSpanIsMinimum(es2, k);
    var j2 :| 0 <= j2 < |es2| && Key(es2[j2]) == k && MergeAll(es2)[k].span == Span(es2[j2]);
    var i2 := Occurs(es2, es1, j2);
  }

  /** The spans in the table depend only on which entries were read, not on
      the order they came in. */
  lemma SpansIndependentOfOrder(es1: seq<Entry>, es2: seq<Entry>)
    requires multiset(es1) == multiset(es2)
    ensures MergeAll(es1).Keys == MergeAll(es2).Keys
    ensures forall k :: k in MergeAll(es1) ==> MergeAll(es1)[k].span == MergeAll(es2)[k].span
  {
    forall k | k in MergeAll(es1)
      ensures k in MergeAll(es2) && MergeAll(es1)[k].span == MergeAll(es2)[k].span
    {
      SpanIndependentOfOrder(es1, es2, k);
    }
    forall k | k in MergeAll(es2)
      ensures k in MergeAll(es1)
    {
      SpanIndependentOfOrder(es2, es1, k);
    }
  }

  /** The entry that first reaches the smallest span at its key decides what
      the table holds there: its span, and every sub-field it carries. */
  lemma {:induction false} FinestEntryWins(es: seq<Entry>, j: nat)
    requires j < |es|
    requires forall i :: 0 <= i < j && Key(es[i]) == Key(es[j]) ==> Span(es[j]) < Span(es[i])
    requires forall i :: j < i < |es| && Key(es[i]) == Key(es[j]) ==> Span(es[j]) <= Span(es[i])
    ensures Key(es[j]) in MergeAll(es)
    ensures MergeAll(es)[Key(es[j])].span == Span(es[j])
    ensures es[j].symbol.Some? ==> MergeAll(es)[Key(es[j])].symbol == es[j].symbol
    ensures es[j].celsius.Some? ==> MergeAll(es)[Key(es[j])].celsius == es[j].celsius
    ensures es[j].wind.Some? ==> MergeAll(es)[Key(es[j])].wind == es[j].wind
  {
    var n := |es| - 1;
    var init := es[..n];
    assert forall i :: 0 <= i < n ==> init[i] == es[i];
    var k := Key(es[j]);
    if j < n {
      FinestEntryWins(init, j);
    } else if k in MergeAll(init) {
      StoredSpanIsMinimum(init, k);
    }
  }
}

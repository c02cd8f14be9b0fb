/**
 The hands of the clock: the angle each is turned to for the current local
 time, and which of them are shown while the page is still loading.
 */
module Hands {

  /** Rotation of the hour hand, in degrees clockwise from twelve, for the
      local hour (0 to 23) and minute. The hour is first taken modulo twelve. */
  function HourAngle(hours: int, minutes: int): (a: real)
    requires 0 <= hours < 24 && 0 <= minutes < 60
    ensures 0.0 <= a < 360.0
    // thirty degrees per hour, half a degree per minute
    ensures a == 30.0 * (hours % 12) as real + minutes as real / 2.0
  {
    (((hours % 12) * 60 + minutes) * 360) as real / (12 * 60) as real
  }

  /** Rotation of the minute hand, in degrees clockwise from twelve. */
  function MinuteAngle(minutes: int): (a: real)
    requires 0 <= minutes < 60
    ensures 0.0 <= a <= 354.0
    ensures a == 6.0 * minutes as real
  {
    (minutes * 360) as real / 60 as real
  }

  /** The hands agree: twelve times the hour hand's rotation is the minute
      hand's rotation plus a whole number of turns. */
  lemma HandsAgree(hours: int, minutes: int)
    requires 0 <= hours < 24 && 0 <= minutes < 60
    ensures 12.0 * HourAngle(hours, minutes) == MinuteAngle(minutes) + 360.0 * (hours % 12) as real
  {
  }

  /** The dial shows twelve hours: an afternoon hour points where the same
      morning hour does. */
  lemma HourAngleTwelveHourPeriod(hours: int, minutes: int)
    requires 0 <= hours < 12 && 0 <= minutes < 60
    ensures HourAngle(hours + 12, minutes) == HourAngle(hours, minutes)
  {
  }

  /** Within one half of the day the hour hand moves forward with time. */
  lemma HourAngleIncreases(h1: int, m1: int, h2: int, m2: int)
    requires 0 <= h1 < 24 && 0 <= m1 < 60 && 0 <= h2 < 24 && 0 <= m2 < 60
    requires h1 / 12 == h2 / 12
    requires h1 * 60 + m1 < h2 * 60 + m2
    ensures HourAngle(h1, m1) < HourAngle(h2, m2)
  {
  }

  datatype Visibility = Visible | Hidden

  datatype HandsShown = HandsShown(hourHand: Visibility, minuteHand: Visibility)

  /** Which hands are shown at a loading progress of 0, 1 or 2: the hour hand
      from 1 on (position found), the minute hand from 2 on (forecast request
      returned). */
  function HandsAtProgress(progress: int): (v: HandsShown)
    // the minute hand is never shown without the hour hand
    ensures v.minuteHand == Visible ==> v.hourHand == Visible
  {
    HandsShown(if progress >= 1 then Visible else Hidden,
               if progress >= 2 then Visible else Hidden)
  }

  /** The rule at each stage: progress 0 (never set by the script) shows no
      hand; progress 1 (position found) the hour hand alone; progress 2 (the
      forecast request has returned, before its status is checked) both. */
  lemma LoadingStages()
    ensures HandsAtProgress(0) == HandsShown(Hidden, Hidden)
    ensures HandsAtProgress(1) == HandsShown(Visible, Hidden)
    ensures HandsAtProgress(2) == HandsShown(Visible, Visible)
  {
  }

  /** Progress never hides a hand that less progress showed. */
  lemma HandsStayShown(p: int, q: int)
    requires p <= q
    ensures HandsAtProgress(p).hourHand == Visible ==> HandsAtProgress(q).hourHand == Visible
    ensures HandsAtProgress(p).minuteHand == Visible ==> HandsAtProgress(q).minuteHand == Visible
  {
  }
}

/**
  The time-of-day train "detector" of the status widget.

  The browser rule reads the wall clock and one random draw; here the hour,
  the minute and the draw are parameters, so the rule is a pure decision
  function. The draw is a real in [0, 1) and is only compared against the
  literals 0.3 and 0.7, so Dafny's exact `real` loses nothing.
 */
module TrainDetector {

  /** The three reasons the rule can report, one per branch. */
  const ScheduledReason: string := "Scheduled freight train"
  const DelayReason: string := "Unexpected train delay"
  const ClearReason: string := "No train currently blocking"

  /** Draws above this report a train inside a scheduled window. */
  const ScheduledOdds: real := 0.3
  /** Draws above this report a delayed train outside rush hour. */
  const DelayOdds: real := 0.7

  /** The result of one detection: whether the crossing is blocked, and why. */
  datatype Verdict = Verdict(isBlocking: bool, reason: string)

  /** The ranges the clock and the random generator deliver. */
  predicate ValidHour(hour: int) { 0 <= hour <= 23 }
  predicate ValidMinute(minute: int) { 0 <= minute <= 59 }
  predicate ValidDraw(r: real) { 0.0 <= r < 1.0 }

  /** Morning (7-9) and evening (16-18) rush hours, bounds inclusive. */
  predicate IsRushHour(hour: int) {
    (7 <= hour <= 9) || (16 <= hour <= 18)
  }

  /** The first half hour of 10:00, 14:00 and 20:00. */
  predicate IsTrainTime(hour: int, minute: int) {
    (hour == 10 || hour == 14 || hour == 20) && minute < 30
  }

  /**
    The decision rule: a scheduled train wins when in a train window and the
    draw exceeds 0.3; otherwise, outside rush hour, a draw above 0.7 reports a
    delayed train; everything else is clear.
   */
  function Detect(hour: int, minute: int, r: real): (v: Verdict)
    // the reason tells blocking from clear
    ensures v.isBlocking <==> v.reason != ClearReason
    ensures v.reason == ScheduledReason || v.reason == DelayReason || v.reason == ClearReason
    // a scheduled train is reported exactly in a window with a draw above 0.3
    ensures v.reason == ScheduledReason <==> IsTrainTime(hour, minute) && r > ScheduledOdds
    // a low draw is never blocking
    ensures r <= ScheduledOdds ==> !v.isBlocking
    // rush hour is always clear
    ensures IsRushHour(hour) ==> v == Verdict(false, ClearReason)
    // outside windows and rush hour, only a draw above 0.7 blocks, as a delay
    ensures !IsTrainTime(hour, minute) && !IsRushHour(hour) ==>
              (v.isBlocking <==> r > DelayOdds) && (v.isBlocking ==> v.reason == DelayReason)
  {
    if IsTrainTime(hour, minute) && r > ScheduledOdds then
      Verdict(true, ScheduledReason)
    else if !IsRushHour(hour) && r > DelayOdds then
      Verdict(true, DelayReason)
    else
      Verdict(false, ClearReason)
  }

  /**
    An independent reading of the rule: each minute of the day has one
    threshold, and the crossing is reported blocked exactly when the draw
    exceeds it. In rush hour the threshold is 1.0, which no draw exceeds.
   */
  function BlockingThreshold(hour: int, minute: int): real {
    if IsTrainTime(hour, minute) then ScheduledOdds
    else if IsRushHour(hour) then 1.0
    else DelayOdds
  }

  /** The rule and the threshold table agree on every clock reading and draw. */
  lemma DetectMatchesThreshold(hour: int, minute: int, r: real)
    requires ValidDraw(r)
    ensures Detect(hour, minute, r).isBlocking <==> r > BlockingThreshold(hour, minute)
    ensures Detect(hour, minute, r).isBlocking ==>
              Detect(hour, minute, r).reason ==
                (if BlockingThreshold(hour, minute) == ScheduledOdds then ScheduledReason else DelayReason)
  {
  }

  /** No hour is both a rush hour and a train hour. */
  lemma RushHourNeverTrainTime(hour: int, minute: int)
    ensures !(IsRushHour(hour) && IsTrainTime(hour, minute))
  {
  }

  /**
    At any clock reading, the rule can report a train exactly outside rush
    hour: at every other minute some draw in [0, 1) blocks, and in rush hour
    none does.
   */
  lemma BlockingPossibleExactlyOutsideRushHour(hour: int, minute: int)
    ensures (exists r: real :: ValidDraw(r) && Detect(hour, minute, r).isBlocking) <==> !IsRushHour(hour)
  {
    if !IsRushHour(hour) {
      var r: real := 0.8;
      assert ValidDraw(r) && Detect(hour, minute, r).isBlocking;
    }
  }
}

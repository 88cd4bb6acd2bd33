/**
  The status controller of the widget: the status element's class set and
  text, the "last updated" time, and one check of the crossing.

  The DOM element is a value (its class list is a set of strings), a check
  is one atomic transition from the state before it to the state it shows
  while checking and the state it leaves behind, and the formatted time of
  day is a parameter.
 */
module StatusController {
  import opened TrainDetector

  /** The four statuses the element can show. */
  datatype Status = Yes | No | Checking | Error

  /** The CSS class that marks each status. */
  function ClassName(s: Status): string {
    match s
    case Yes => "yes"
    case No => "no"
    case Checking => "checking"
    case Error => "error"
  }

  /** The text shown with each status. */
  function Label(s: Status): string {
    match s
    case Yes => "YES"
    case No => "NO"
    case Checking => "Checking..."
    case Error => "Error"
  }

  /** Every class that marks a status; the status update removes all of them. */
  const StatusClasses: set<string> := {"yes", "no", "checking", "error"}

  /** A status that may be missing. */
  datatype Option<T> = None | Some(value: T)

  /** The status text element: its class list and its text content. */
  datatype Element = Element(classes: set<string>, text: string)

  /** What the widget shows: the status element and the last-updated time. */
  datatype App = App(statusText: Element, updateTime: string)

  /**
    Reads back the status an element shows: the status whose class is the
    only status class on it, or None when there are none or several.
   */
  function StatusOf(e: Element): Option<Status> {
    var present := e.classes * StatusClasses;
    if present == {"yes"} then Some(Yes)
    else if present == {"no"} then Some(No)
    else if present == {"checking"} then Some(Checking)
    else if present == {"error"} then Some(Error)
    else None
  }

  /**
    Removes the four status classes, adds the class of `s`, and sets the
    text. Other classes on the element are left alone.
   */
  function SetStatus(e: Element, s: Status, text: string): (r: Element)
    ensures r.classes * StatusClasses == {ClassName(s)}
    ensures forall c :: c !in StatusClasses ==> (c in r.classes <==> c in e.classes)
    ensures r.text == text
  {
    Element(e.classes - StatusClasses + {ClassName(s)}, text)
  }

  /** Each status class marks exactly one status. */
  lemma ClassNameInjective(s: Status, t: Status)
    ensures ClassName(s) in StatusClasses
    ensures ClassName(s) == ClassName(t) <==> s == t
  {
  }

  /** Reading back the status just set gives that status, whatever was there before. */
  lemma StatusOfSetStatus(e: Element, s: Status, text: string)
    ensures StatusOf(SetStatus(e, s, text)) == Some(s)
  {
  }

  /** A second status update replaces the first entirely: the last write wins. */
  lemma SetStatusLastWins(e: Element, s1: Status, t1: string, s2: Status, t2: string)
    ensures SetStatus(SetStatus(e, s1, t1), s2, t2) == SetStatus(e, s2, t2)
  {
  }

  /** Shows status `s` with its own label, keeping the last-updated time. */
  function Show(app: App, s: Status): App {
    App(SetStatus(app.statusText, s, Label(s)), app.updateTime)
  }

  /**
    How a check ended. The detection rule itself cannot throw; what can is
    the timestamp update that follows the yes/no status: writing the time
    fails when the time element is missing (nothing written,
    `timeWritten` false), and the fade effect that follows fails when the
    "last updated" element is missing (the new time is already written,
    `timeWritten` true). Either way the handler then shows the error.
   */
  datatype Outcome = Returned(verdict: Verdict) | Threw(timeWritten: bool)

  /** Whether a check leaves its new time on the page. */
  predicate WritesTime(o: Outcome) {
    o.Returned? || o.timeWritten
  }

  /** The state shown while a check is pending, and the state it ends in. */
  datatype CheckTrace = CheckTrace(pending: App, final: App)

  /** The status a finished check settles on. */
  function Settled(o: Outcome): Status {
    match o
    case Threw(_) => Error
    case Returned(v) => if v.isBlocking then Yes else No
  }

  /**
    One check of the crossing. It first shows "checking"; a returned verdict
    then shows yes/YES when blocking and no/NO otherwise and refreshes the
    last-updated time to `stamp`; a thrown error shows error/Error, with the
    new time only when it was written before the throw.
   */
  function CheckTrainStatus(app: App, outcome: Outcome, stamp: string): (t: CheckTrace)
    // the pending state shows checking, with the old time
    ensures StatusOf(t.pending.statusText) == Some(Checking)
    ensures t.pending.statusText.text == "Checking..."
    ensures t.pending.updateTime == app.updateTime
    // a blocking verdict ends in yes, a clear one in no, both with a new time
    ensures outcome.Returned? && outcome.verdict.isBlocking ==>
              StatusOf(t.final.statusText) == Some(Yes) && t.final.statusText.text == "YES" && t.final.updateTime == stamp
    ensures outcome.Returned? && !outcome.verdict.isBlocking ==>
              StatusOf(t.final.statusText) == Some(No) && t.final.statusText.text == "NO" && t.final.updateTime == stamp
    // a thrown error ends in error; the time is new only if it was written first
    ensures outcome.Threw? ==>
              StatusOf(t.final.statusText) == Some(Error) && t.final.statusText.text == "Error"
    ensures outcome.Threw? && outcome.timeWritten ==> t.final.updateTime == stamp
    ensures outcome.Threw? && !outcome.timeWritten ==> t.final.updateTime == app.updateTime
    // classes that do not mark a status survive both steps
    ensures forall c :: c !in StatusClasses ==>
              (c in t.pending.statusText.classes <==> c in app.statusText.classes) &&
              (c in t.final.statusText.classes <==> c in app.statusText.classes)
  {
    var pending := Show(app, Checking);
    var final := match outcome
      case Threw(written) => App(Show(pending, Error).statusText, if written then stamp else app.updateTime)
      case Returned(v) => App(Show(pending, Settled(outcome)).statusText, stamp);
    CheckTrace(pending, final)
  }

  /**
    A check whose detection step ran the time-of-day rule: the widget ends
    in yes exactly when the draw exceeds the threshold for that minute, and
    in no otherwise.
   */
  lemma CheckAtClock(app: App, hour: int, minute: int, r: real, stamp: string)
    requires ValidHour(hour) && ValidMinute(minute) && ValidDraw(r)
    ensures StatusOf(CheckTrainStatus(app, Returned(Detect(hour, minute, r)), stamp).final.statusText) ==
              (if r > BlockingThreshold(hour, minute) then Some(Yes) else Some(No))
    ensures IsRushHour(hour) ==>
              StatusOf(CheckTrainStatus(app, Returned(Detect(hour, minute, r)), stamp).final.statusText) == Some(No)
  {
  }

  /** The keys that ask for a refresh. */
  predicate IsRefreshKey(key: string) {
    key == "r" || key == "R"
  }

  /**
    A key press: the refresh keys run a check, any other key changes
    nothing.
   */
  function OnKeyDown(app: App, key: string, outcome: Outcome, stamp: string): (r: App)
    ensures !IsRefreshKey(key) ==> r == app
    ensures IsRefreshKey(key) ==> StatusOf(r.statusText) == Some(Settled(outcome))
    ensures IsRefreshKey(key) ==> r.statusText.text == Label(Settled(outcome))
    ensures IsRefreshKey(key) ==> r.updateTime == (if WritesTime(outcome) then stamp else app.updateTime)
    ensures IsRefreshKey(key) ==> forall c :: c !in StatusClasses ==>
              (c in r.statusText.classes <==> c in app.statusText.classes)
  {
    if IsRefreshKey(key) then CheckTrainStatus(app, outcome, stamp).final else app
  }

  /** One check as it arrives: how its detection ended and the time it would record. */
  datatype CheckEvent = CheckEvent(outcome: Outcome, stamp: string)

  /**
    The state after a series of checks, each one run to completion in
    turn (the timer, the indicator click, the R key and the global refresh
    all start the same check).
   */
  function RunChecks(app: App, events: seq<CheckEvent>): App
    decreases |events|
  {
    if |events| == 0 then app
    else
      var last := events[|events| - 1];
      CheckTrainStatus(RunChecks(app, events[..|events| - 1]), last.outcome, last.stamp).final
  }

  /**
    After any series of checks: the shown status is the one the last check
    settled on; the last-updated time is the stamp of the last check that
    wrote its time, or the initial one when no check did; and the
    classes that do not mark a status are those the element started with.
   */
  lemma {:induction false} RunChecksInvariant(app: App, events: seq<CheckEvent>)
    ensures |events| > 0 ==> StatusOf(RunChecks(app, events).statusText) == Some(Settled(events[|events| - 1].outcome))
    ensures (forall i :: 0 <= i < |events| ==> !WritesTime(events[i].outcome)) ==>
              RunChecks(app, events).updateTime == app.updateTime
    ensures forall i :: 0 <= i < |events| && WritesTime(events[i].outcome) &&
                        (forall j :: i < j < |events| ==> !WritesTime(events[j].outcome)) ==>
              RunChecks(app, events).updateTime == events[i].stamp
    ensures forall c :: c !in StatusClasses ==>
              (c in RunChecks(app, events).statusText.classes <==> c in app.statusText.classes)
    decreases |events|
  {
    if |events| > 0 {
      var n := |events| - 1;
      var prefix := events[..n];
      RunChecksInvariant(app, prefix);
      var before := RunChecks(app, prefix);
      var after := CheckTrainStatus(before, events[n].outcome, events[n].stamp);
      assert RunChecks(app, events) == after.final;
      forall i | 0 <= i < |events| && WritesTime(events[i].outcome) &&
                 (forall j :: i < j < |events| ==> !WritesTime(events[j].outcome))
        ensures RunChecks(app, events).updateTime == events[i].stamp
      {
        if i < n {
          assert !WritesTime(events[n].outcome);
          assert prefix[i] == events[i];
          assert forall j :: i < j < |prefix| ==> prefix[j] == events[j];
        }
      }
      if forall i :: 0 <= i < |events| ==> !WritesTime(events[i].outcome) {
        assert forall i :: 0 <= i < |prefix| ==> prefix[i] == events[i];
      }
    }
  }
}

/**
  The page title's easter egg: every fifth click on the heading shows a
  train greeting for a moment, then the counter starts again.

  The heading is a value holding the click counter and the heading text;
  the timer that later restores the text is a separate event, which may
  fire between any two clicks.
 */
module TitleEasterEgg {

  /** The greeting shown on a fifth click. */
  const ChooChooTitle: string := "\U{1F682} Choo Choo! \U{1F682}"
  /** The text the restore timer puts back. */
  const RestoredTitle: string := "\U{1F682} Train Status"
  /** The number of clicks that shows the greeting. */
  const ClicksPerGreeting: nat := 5

  /** The heading: clicks counted since the last greeting, and its text. */
  datatype Title = Title(clickCount: nat, text: string)

  /** The heading as the page loads: no clicks yet. */
  function Initial(text: string): Title {
    Title(0, text)
  }

  /** Whether the next click shows the greeting. */
  predicate Fires(t: Title) {
    t.clickCount + 1 >= ClicksPerGreeting
  }

  /**
    One click: the counter goes up, and on reaching five the greeting is
    shown and the counter goes back to zero.
   */
  function Click(t: Title): (r: Title)
    // the counter never leaves 0..4 after a click
    ensures r.clickCount < ClicksPerGreeting
    // from a reachable counter, a click advances it modulo five
    ensures t.clickCount < ClicksPerGreeting ==> r.clickCount == (t.clickCount + 1) % ClicksPerGreeting
    // a reset counter comes with the greeting; otherwise the text is untouched
    ensures r.clickCount == 0 ==> r.text == ChooChooTitle
    ensures r.clickCount != 0 ==> r.text == t.text
  {
    var count := t.clickCount + 1;
    if count >= ClicksPerGreeting then Title(0, ChooChooTitle) else Title(count, t.text)
  }

  /** The restore timer: puts the plain title back and leaves the counter alone. */
  function Restore(t: Title): (r: Title)
    ensures r.clickCount == t.clickCount
    ensures r.text == RestoredTitle
  {
    t.(text := RestoredTitle)
  }

  /** What can happen to the heading: a click, or a restore timer firing. */
  datatype TitleEvent = Clicked | Restored

  /** The heading after a series of events, in order. */
  function Run(t: Title, events: seq<TitleEvent>): Title
    decreases |events|
  {
    if |events| == 0 then t
    else
      var before := Run(t, events[..|events| - 1]);
      match events[|events| - 1]
      case Clicked => Click(before)
      case Restored => Restore(before)
  }

  /** The number of clicks in a series of events. */
  function Clicks(events: seq<TitleEvent>): nat
    decreases |events|
  {
    if |events| == 0 then 0
    else Clicks(events[..|events| - 1]) + (if events[|events| - 1] == Clicked then 1 else 0)
  }

  /** The number of clicks in a series of events that showed the greeting. */
  function Greetings(t: Title, events: seq<TitleEvent>): nat
    decreases |events|
  {
    if |events| == 0 then 0
    else
      var prefix := events[..|events| - 1];
      Greetings(t, prefix) + (if events[|events| - 1] == Clicked && Fires(Run(t, prefix)) then 1 else 0)
  }

  /**
    Whatever the interleaving of clicks and restore timers, the counter
    holds the number of clicks so far modulo five.
   */
  lemma {:induction false} RunCountsClicks(text: string, events: seq<TitleEvent>)
    ensures Run(Initial(text), events).clickCount == Clicks(events) % ClicksPerGreeting
    decreases |events|
  {
    if |events| > 0 {
      RunCountsClicks(text, events[..|events| - 1]);
    }
  }

  /**
    A click shows the greeting exactly when it is a fifth click since the
    page loaded, that is, when the clicks up to and including it number a
    multiple of five.
   */
  lemma ClickFiresOnEveryFifth(text: string, events: seq<TitleEvent>, i: int)
    requires 0 <= i < |events| && events[i] == Clicked
    ensures Fires(Run(Initial(text), events[..i])) <==> Clicks(events[..i + 1]) % ClicksPerGreeting == 0
    ensures Fires(Run(Initial(text), events[..i])) ==> Run(Initial(text), events[..i + 1]).text == ChooChooTitle
  {
    RunCountsClicks(text, events[..i]);
    assert events[..i + 1][..i] == events[..i];
  }

  /** The greeting is shown once per five clicks, whatever the interleaving. */
  lemma {:induction false} GreetingsPerFiveClicks(text: string, events: seq<TitleEvent>)
    ensures Greetings(Initial(text), events) == Clicks(events) / ClicksPerGreeting
    decreases |events|
  {
    if |events| > 0 {
      var prefix := events[..|events| - 1];
      GreetingsPerFiveClicks(text, prefix);
      RunCountsClicks(text, prefix);
    }
  }
}

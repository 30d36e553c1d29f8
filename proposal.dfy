/**
 * The discrete rules of the proposal page (script.js): the "No" button's
 * click counter, the message and style it selects, and the check of the
 * saved answer when the page loads.
 */
module Proposal {
  import opened Common

  /** The messages the "No" button cycles through. */
  const NoButtonTexts: seq<string> := [
    "No",
    "Wait... are you sure?",
    "Really? \U{1F97A}",
    "But think about it!",
    "You know you want to...",
    "Come on! \U{1F495}",
    "Pretty please?",
    "The rose is waiting! \U{1F339}",
    "Just say yes already!",
    "I know you want to say yes!",
    "Okay fine, keep clicking... \U{1F624}",
    "Still here? Just say yes! \U{1F496}"
  ]

  /** Clicks from which the button is scaled down. */
  const ShrinkFrom := 5

  /** Clicks from which the button is faded out. */
  const FadeFrom := 10

  /** The message index after `n` clicks: `Math.min(n, noButtonTexts.length - 1)`. */
  function TextIndex(n: nat): (i: nat)
    ensures i < |NoButtonTexts|
    ensures i <= n
    ensures n < |NoButtonTexts| ==> i == n
    ensures n >= |NoButtonTexts| - 1 ==> i == |NoButtonTexts| - 1
  {
    if n < |NoButtonTexts| - 1 then n else |NoButtonTexts| - 1
  }

  /** `Math.max(0.5, 1 - (n - 5) * 0.05)`, in exact arithmetic. */
  function ShrinkFactor(n: nat): (f: real)
    requires n >= ShrinkFrom
    ensures 0.5 <= f <= 1.0
  {
    var linear := 1.0 - (n - ShrinkFrom) as real * 0.05;
    if linear > 0.5 then linear else 0.5
  }

  /** The factor never grows as clicks accumulate. */
  lemma ShrinkNonIncreasing(m: nat, n: nat)
    requires ShrinkFrom <= m <= n
    ensures ShrinkFactor(n) <= ShrinkFactor(m)
  {
  }

  /** The factor starts at 1 and sits at 0.5 exactly from 15 clicks on. */
  lemma ShrinkFloor(n: nat)
    requires n >= ShrinkFrom
    ensures ShrinkFactor(ShrinkFrom) == 1.0
    ensures ShrinkFactor(n) == 0.5 <==> n >= 15
  {
  }

  /** Up to 15 clicks, every further click makes the factor strictly smaller. */
  lemma ShrinkStrictlyDecreasing(m: nat, n: nat)
    requires ShrinkFrom <= m < n <= 15
    ensures ShrinkFactor(n) < ShrinkFactor(m)
  {
  }

  /** What the button shows: its text and the style properties the handler sets. */
  datatype Look = Look(text: string, scale: Option<real>, opacity: Option<string>, cursor: Option<string>)

  /** The button before any click. */
  const InitialLook := Look(NoButtonTexts[0], None, None, None)

  /** What the click handler does to the button once the count has become `n`. */
  function ClickUpdate(look: Look, n: nat): Look
  {
    var look1 := look.(text := NoButtonTexts[TextIndex(n)]);
    var look2 := if n >= ShrinkFrom then look1.(scale := Some(ShrinkFactor(n))) else look1;
    if n >= FadeFrom then look2.(opacity := Some("0.3"), cursor := Some("not-allowed")) else look2
  }

  /** The button after `n` clicks, in closed form. */
  function LookAfter(n: nat): Look
  {
    Look(NoButtonTexts[TextIndex(n)],
         if n >= ShrinkFrom then Some(ShrinkFactor(n)) else None,
         if n >= FadeFrom then Some("0.3") else None,
         if n >= FadeFrom then Some("not-allowed") else None)
  }

  /** The button after `n` handler runs from the initial look. */
  function Replay(n: nat): Look
  {
    if n == 0 then InitialLook else ClickUpdate(Replay(n - 1), n)
  }

  /** The look depends only on the count: replaying `n` clicks gives the closed form. */
  lemma {:induction false} ReplayIsLookAfter(n: nat)
    ensures Replay(n) == LookAfter(n)
  {
    if n > 0 {
      ReplayIsLookAfter(n - 1);
    }
  }

  /**
   * The thresholds: no scale before 5 clicks, a scale in [0.5, 1] from 5 on;
   * faded with a not-allowed cursor exactly from 10 on; the last message
   * exactly from 11 on.
   */
  lemma LookThresholds(n: nat)
    ensures LookAfter(n).scale.Some? <==> n >= ShrinkFrom
    ensures LookAfter(n).scale.Some? ==> 0.5 <= LookAfter(n).scale.value <= 1.0
    ensures LookAfter(n).opacity == Some("0.3") <==> n >= FadeFrom
    ensures LookAfter(n).cursor == Some("not-allowed") <==> n >= FadeFrom
    ensures LookAfter(n).text == NoButtonTexts[|NoButtonTexts| - 1] <==> n >= |NoButtonTexts| - 1
  {
    if n < |NoButtonTexts| - 1 {
      assert NoButtonTexts[n] != NoButtonTexts[|NoButtonTexts| - 1];
    }
  }

  /** The "No" button: the module-level counter and the button element's text and style. */
  class NoButton {
    var noClickCount: nat
    var text: string
    var scale: Option<real>
    var opacity: Option<string>
    var cursor: Option<string>

    function CurrentLook(): Look
      reads this
    {
      Look(text, scale, opacity, cursor)
    }

    constructor ()
      ensures noClickCount == 0 && CurrentLook() == InitialLook
    {
      noClickCount := 0;
      text := NoButtonTexts[0];
      scale, opacity, cursor := None, None, None;
    }

    /**
     * The click handler.  It has no guard: every click counts, also after the
     * button has faded.
     */
    method OnClick()
      modifies this
      ensures noClickCount == old(noClickCount) + 1
      ensures CurrentLook() == ClickUpdate(old(CurrentLook()), noClickCount)
      ensures old(CurrentLook()) == LookAfter(old(noClickCount)) ==> CurrentLook() == LookAfter(noClickCount)
    {
      noClickCount := noClickCount + 1;
      var textIndex := TextIndex(noClickCount);
      text := NoButtonTexts[textIndex];
      if noClickCount >= ShrinkFrom {
        var shrinkFactor := ShrinkFactor(noClickCount);
        scale := Some(shrinkFactor);
      }
      if noClickCount >= FadeFrom {
        opacity := Some("0.3");
        cursor := Some("not-allowed");
      }
    }
  }

  // ---------------------------------------------------------------------------
  // The saved answer

  /** `localStorage`: keys to string values. */
  type Storage = map<string, string>

  function GetItem(storage: Storage, key: string): Option<string>
  {
    if key in storage then Some(storage[key]) else None
  }

  /** What the "Yes" handler stores; `date` is the ISO timestamp it reads from the clock. */
  function SayYes(storage: Storage, date: string): Storage
  {
    storage["saidYes" := "true"]["yesDate" := date]
  }

  /** The load handler re-initialises the rose when this holds. */
  predicate ReinitOnLoad(storage: Storage, planPageActive: bool)
  {
    GetItem(storage, "saidYes") == Some("true") && planPageActive
  }

  /**
   * After "Yes", a reload on the plan page re-initialises the rose; a stored
   * value other than exactly "true", or any other page, does not.
   */
  lemma ReinitOnlyAfterYes(storage: Storage, date: string, planPageActive: bool, other: string)
    requires other != "true"
    ensures ReinitOnLoad(SayYes(storage, date), planPageActive) <==> planPageActive
    ensures !ReinitOnLoad(storage["saidYes" := other], planPageActive)
    ensures "saidYes" !in storage ==> !ReinitOnLoad(storage, planPageActive)
    ensures ReinitOnLoad(storage, planPageActive) ==> planPageActive && storage["saidYes"] == "true"
  {
    assert "yesDate" != "saidYes";
  }
}

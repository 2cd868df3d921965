/** The tutorial: five fixed steps shown one at a time, with Previous and
    Next buttons whose state each displayed step decides; on the last step
    Next becomes a button that loads the Big-O module. Step descriptions,
    styling and the progress text are not modelled. */
module Tutorial {
  import opened Common
  import opened Graphics
  import opened Lifecycle

  /** One step: its title, and whether it carries an action button. */
  datatype Step = Step(title: string, hasActionButton: bool)

  const STEPS: seq<Step> := [
    Step("Welcome to DSA Arcade!", false),
    Step("What are Data Structures & Algorithms?", false),
    Step("How to use this app", false),
    Step("Your Learning Path", false),
    Step("Key Insight", true)
  ]

  const LAST: nat := |STEPS| - 1

  /** There are five steps and only the last carries an action button. */
  lemma StepsShape()
    ensures |STEPS| == 5 && LAST == 4
    ensures forall i :: 0 <= i < |STEPS| ==> (STEPS[i].hasActionButton <==> i == LAST)
  {
  }

  /** The state of the two navigation buttons, as the page holds it: the
      Previous button's flag, and the Next button's text, action, target
      module and flag. */
  datatype Nav = Nav(prevDisabled: bool, nextText: string, nextAction: string, nextModule: Option<string>, nextDisabled: bool)

  /** The buttons as the action bar first renders them. */
  const INITIAL_NAV := Nav(false, "Next", "next-step", None, false)

  /** The buttons after step `i` is displayed over `nav`: Previous is
      disabled exactly on the first step; Next is enabled and reads "Next"
      with the next-step action, except on the last step, where a step
      with an action button turns it into the "load the Big-O module"
      button, and one without reads "Finish" and keeps its action. */
  function Displayed(i: nat, nav: Nav): Nav
    requires i < |STEPS|
  {
    var prev := i == 0;
    if i == LAST then
      if STEPS[i].hasActionButton then Nav(prev, "Start Learning Big O Notation!", "load-module", Some("bigO"), false)
      else Nav(prev, "Finish", nav.nextAction, nav.nextModule, false)
    else Nav(prev, "Next", "next-step", None, false)
  }

  /** Whatever the buttons were, displaying a step leaves Previous disabled
      exactly on the first step, and Next loading the Big-O module exactly
      on the last and stepping forward everywhere else. */
  lemma DisplayedButtons(i: nat, nav: Nav)
    requires i < |STEPS|
    ensures Displayed(i, nav).prevDisabled <==> i == 0
    ensures !Displayed(i, nav).nextDisabled
    ensures Displayed(i, nav).nextAction == (if i == LAST then "load-module" else "next-step")
    ensures Displayed(i, nav).nextModule == (if i == LAST then Some("bigO") else None)
  {
  }

  /** A click on one of the two buttons. */
  datatype Click = Back | Forward

  /** The step after a click: Next moves forward unless on the last step
      (where it leaves the tutorial instead), Previous moves back unless
      on the first. */
  function StepAfter(i: nat, c: Click): (j: nat)
    requires i < |STEPS|
    ensures j < |STEPS|
  {
    match c
    case Forward => if i < LAST then i + 1 else i
    case Back => if i > 0 then i - 1 else i
  }

  /** The step after a run of clicks. */
  function StepAfterAll(i: nat, cs: seq<Click>): (j: nat)
    requires i < |STEPS|
    ensures j < |STEPS|
    decreases |cs|
  {
    if cs == [] then i else StepAfterAll(StepAfter(i, cs[0]), cs[1..])
  }

  /** Previous undoes Next on every step but the last, and Next undoes
      Previous on every step but the first. */
  lemma StepsUndo(i: nat)
    requires i < |STEPS|
    ensures i < LAST ==> StepAfter(StepAfter(i, Forward), Back) == i
    ensures i > 0 ==> StepAfter(StepAfter(i, Back), Forward) == i
  {
  }

  /** `k` clicks on Next from step `i` reach step `min(i + k, LAST)`. */
  lemma {:induction false} NextClicksClimb(i: nat, k: nat)
    requires i < |STEPS|
    ensures StepAfterAll(i, seq(k, _ => Forward)) == if i + k < LAST then i + k else LAST
    decreases k
  {
    if k > 0 {
      var cs := seq(k, _ => Forward);
      assert cs[0] == Forward && cs[1..] == seq(k - 1, _ => Forward);
      NextClicksClimb(StepAfter(i, Forward), k - 1);
    }
  }

  /** Previous reached as the host handles the click: the button is
      disabled, the step goes back, and the host's settle handler enables
      the button again, overriding what the displayed step decided. */
  function PrevClickAsWritten(i: nat, nav: Nav): (r: (nat, Nav))
    requires i < |STEPS|
  {
    var j := StepAfter(i, Back);
    var shown := if i > 0 then Displayed(j, nav) else nav.(prevDisabled := true);
    (j, shown.(prevDisabled := false))
  }

  /** Going back from the second step lands on the first step with the
      Previous button enabled. */
  lemma PreviousEnabledOnFirstStep(nav: Nav)
    ensures PrevClickAsWritten(1, nav).0 == 0 && !PrevClickAsWritten(1, nav).1.prevDisabled
  {
  }

  /** Previous with the host's busy mark kept apart from the button's own
      flag: the settle handler lifts only its mark, so the flag is what the
      displayed step decided. */
  function PrevClick(i: nat, nav: Nav): (r: (nat, Nav))
    requires i < |STEPS|
  {
    var j := StepAfter(i, Back);
    (j, if i > 0 then Displayed(j, nav) else nav)
  }

  /** With the busy mark apart, Previous stays disabled exactly on the
      first step, however it was reached. */
  lemma PrevClickKeepsRule(i: nat, nav: Nav)
    requires i < |STEPS| && (nav.prevDisabled <==> i == 0)
    ensures PrevClick(i, nav).1.prevDisabled <==> PrevClick(i, nav).0 == 0
  {
  }

  class TutorialModule {
    const base: ModuleBase
    const gfx: GraphicsEngine
    var currentStep: nat
    /** The title shown for the current step. */
    var title: string
    var nav: Nav
    /** The host's mark that a click on Previous is being handled. */
    var prevBusy: bool

    ghost predicate Valid()
      reads this, base, gfx, gfx.resources
    {
      base.gfx == gfx && gfx.Valid() && currentStep < |STEPS|
    }

    /** A fresh tutorial shows its first step: Previous disabled, Next
        stepping forward, an empty scene. */
    constructor (engine: GraphicsEngine)
      requires engine.Valid()
      modifies engine, engine.hoveredObject
      ensures Valid() && gfx == engine && fresh(base) && !base.cancelToken
      ensures currentStep == 0 && title == STEPS[0].title && nav == Displayed(0, INITIAL_NAV) && !prevBusy
      ensures gfx.objects == [] && gfx.labels == [] && gfx.arrows == []
    {
      base := new ModuleBase(engine);
      gfx := engine;
      currentStep := 0;
      title := "Tutorial";
      nav := INITIAL_NAV;
      prevBusy := false;
      new;
      DisplayStep(0);
    }

    /** Clears the scene and shows step `i`: its title, and the buttons as
        that step decides. */
    method DisplayStep(i: nat)
      requires Valid() && i < |STEPS|
      modifies this, gfx, gfx.hoveredObject
      ensures Valid() && currentStep == i && title == STEPS[i].title
      ensures nav == Displayed(i, old(nav)) && prevBusy == old(prevBusy)
      ensures gfx.objects == [] && gfx.labels == [] && gfx.arrows == []
    {
      gfx.Clear();
      currentStep := i;
      title := STEPS[i].title;
      nav := Displayed(i, nav);
    }

    /** Next: shows the following step, or on the last step asks the host
        to load the Big-O module (returned), changing nothing here. */
    method NextStep() returns (load: Option<string>)
      requires Valid()
      modifies this, gfx, gfx.hoveredObject
      ensures Valid() && currentStep == StepAfter(old(currentStep), Forward) && prevBusy == old(prevBusy)
      ensures load == (if old(currentStep) == LAST then Some("bigO") else None)
      ensures old(currentStep) < LAST ==> nav == Displayed(currentStep, old(nav)) && title == STEPS[currentStep].title
      ensures old(currentStep) == LAST ==> nav == old(nav) && title == old(title)
    {
      if currentStep < LAST {
        DisplayStep(currentStep + 1);
        load := None;
      } else {
        load := Some("bigO");
      }
    }

    /** Previous: shows the step before, and does nothing on the first. */
    method PrevStep()
      requires Valid()
      modifies this, gfx, gfx.hoveredObject
      ensures Valid() && currentStep == StepAfter(old(currentStep), Back) && prevBusy == old(prevBusy)
      ensures old(currentStep) > 0 ==> nav == Displayed(currentStep, old(nav)) && title == STEPS[currentStep].title
      ensures old(currentStep) == 0 ==> nav == old(nav) && title == old(title)
    {
      if currentStep > 0 {
        DisplayStep(currentStep - 1);
      }
    }

    /** A click on Previous as the host handles it: the button's flag is
        set, the step goes back, and the flag is cleared when the action
        settles. */
    method ClickPreviousAsWritten()
      requires Valid()
      modifies this, gfx, gfx.hoveredObject
      ensures Valid() && (currentStep, nav) == PrevClickAsWritten(old(currentStep), old(nav))
    {
      nav := nav.(prevDisabled := true);
      PrevStep();
      nav := nav.(prevDisabled := false);
    }

    /** A click on Previous with the host's busy mark kept apart from the
        button's flag: Previous stays disabled exactly on the first step. */
    method ClickPrevious()
      requires Valid() && (nav.prevDisabled <==> currentStep == 0)
      modifies this, gfx, gfx.hoveredObject
      ensures Valid() && (currentStep, nav) == PrevClick(old(currentStep), old(nav)) && !prevBusy
      ensures nav.prevDisabled <==> currentStep == 0
    {
      prevBusy := true;
      PrevStep();
      prevBusy := false;
      PrevClickKeepsRule(old(currentStep), old(nav));
    }
  }
}

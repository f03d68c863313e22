/** The how-it-works page: a carousel over the six steps of the detection
    flow, with previous/next buttons that wrap around in both directions and
    a row of indicator dots, and a grid of defect types of which the visitor
    may pick one to read about. */
module HowItWorks {
  import Rotation
  import opened Selection

  /** The titles of `steps`, in carousel order. */
  const StepTitles: seq<string> := [
    "Data Collection", "Data Processing", "AI Analysis",
    "Defect Detection", "Maintenance Dispatch", "Reporting & Insights"]

  /** The names of `defectTypes`, in grid order. */
  const DefectTypeNames: seq<string> := [
    "Interactive Exhibit Malfunctions", "Mechanical Failures in Moving Exhibits",
    "Environmental Control Issues", "Audio-Visual Equipment Failures",
    "Safety Mechanism Failures", "Power Supply Disruptions"]

  /** The indicator row: dot i is highlighted when `index === currentStep`. */
  function Indicators(current: nat): (dots: seq<bool>)
    ensures |dots| == |StepTitles|
  {
    seq(|StepTitles|, i requires 0 <= i < |StepTitles| => i == current)
  }

  /** How many dots are highlighted. */
  function CountActive(dots: seq<bool>): nat
  {
    if dots == [] then 0
    else CountActive(dots[..|dots| - 1]) + (if dots[|dots| - 1] then 1 else 0)
  }

  /** A row that highlights exactly the positions equal to c has one
      highlighted dot if c is a position, none otherwise. */
  lemma {:induction false} CountActiveSingle(dots: seq<bool>, c: nat)
    requires forall i :: 0 <= i < |dots| ==> (dots[i] <==> i == c)
    ensures CountActive(dots) == if c < |dots| then 1 else 0
    decreases |dots|
  {
    if dots != [] {
      var init := dots[..|dots| - 1];
      assert forall i :: 0 <= i < |init| ==> init[i] == dots[i];
      CountActiveSingle(init, c);
    }
  }

  /** For a step in range exactly one dot is highlighted: the current one. */
  lemma ExactlyOneIndicator(current: nat)
    requires current < |StepTitles|
    ensures CountActive(Indicators(current)) == 1
    ensures Indicators(current)[current]
  {
    CountActiveSingle(Indicators(current), current);
  }

  /** The page's state cells. */
  class HowItWorksPage {
    var currentStep: nat
    var selectedDefect: Option<nat>

    /** The step is a valid index of `steps` and a selected defect a valid
        index of `defectTypes`, so every lookup the page makes is in bounds. */
    ghost predicate Valid()
      reads this
    {
      currentStep < |StepTitles|
      && (selectedDefect.Some? ==> selectedDefect.value < |DefectTypeNames|)
    }

    constructor ()
      ensures Valid()
      ensures currentStep == 0 && selectedDefect == None
    {
      currentStep := 0;
      selectedDefect := None;
    }

    /** `nextStep`: advance to `(prev + 1) % steps.length`. */
    method NextStep()
      requires Valid()
      modifies this`currentStep
      ensures Valid()
      ensures currentStep == Rotation.Next(old(currentStep), |StepTitles|)
    {
      currentStep := Rotation.Next(currentStep, |StepTitles|);
    }

    /** `prevStep`: go back to `(prev - 1 + steps.length) % steps.length`. */
    method PrevStep()
      requires Valid()
      modifies this`currentStep
      ensures Valid()
      ensures currentStep == Rotation.Prev(old(currentStep), |StepTitles|)
    {
      currentStep := Rotation.Prev(currentStep, |StepTitles|);
    }

    /** Clicking the defect card at `index`; there is no action that clears
        the selection again. */
    method SelectDefect(index: nat)
      requires Valid()
      requires index < |DefectTypeNames|
      modifies this`selectedDefect
      ensures Valid()
      // One `Selection.Step`, so a run of clicks is a `Selection.Replay` session.
      ensures selectedDefect == Step(old(selectedDefect), Pick(index))
    {
      selectedDefect := Step(selectedDefect, Pick(index));
    }

    /** The title the carousel shows, `steps[currentStep].title`. */
    function CurrentStepTitle(): (title: string)
      reads this
      requires Valid()
      ensures title in StepTitles
    {
      StepTitles[currentStep]
    }

    /** The detail panel: shown only while a defect is selected, with that
        defect type's name, `defectTypes[selectedDefect].name`. */
    function DefectDetail(): (name: Option<string>)
      reads this
      requires Valid()
      ensures name.Some? <==> selectedDefect.Some?
      ensures name.Some? ==> name.value == DefectTypeNames[selectedDefect.value]
    {
      match selectedDefect
      case None => None
      case Some(i) => Some(DefectTypeNames[i])
    }
  }
}

/** The wizard's session state (app.py:205-213, 245-253, 414-416): six pages
    and a step counter that starts at 1, moves by one per button, is put back
    to 1 whenever it is found above 6, and is sent back to 1 by "Start
    Over", which also forgets the entered data and the generated resume. */
module Wizard {

  const LastStep: int := 6

  /** The navigation part of the session, plus the three values "Start Over"
      touches or leaves alone. */
  class Session {
    var step: int
    var cvData: map<string, string>
    var finalCv: string
    var coverLetter: string
    var atsAnalysis: string

    /** A new session: page 1, no data, nothing generated. */
    constructor ()
      ensures step == 1 && cvData == map[] && finalCv == [] && coverLetter == [] && atsAnalysis == []
    {
      step := 1;
      cvData := map[];
      finalCv := [];
      coverLetter := [];
      atsAnalysis := [];
    }

    /** The check run on every page load: a counter above the last page is
        put back to page 1. */
    method Guard()
      modifies this
      ensures step == if old(step) > LastStep then 1 else old(step)
      ensures cvData == old(cvData) && finalCv == old(finalCv)
      ensures coverLetter == old(coverLetter) && atsAnalysis == old(atsAnalysis)
    {
      if step > LastStep {
        step := 1;
      }
    }

    /** `next_step`. */
    method NextStep()
      modifies this
      ensures step == old(step) + 1
      ensures cvData == old(cvData) && finalCv == old(finalCv)
      ensures coverLetter == old(coverLetter) && atsAnalysis == old(atsAnalysis)
    {
      step := step + 1;
    }

    /** `prev_step`. */
    method PrevStep()
      modifies this
      ensures step == old(step) - 1
      ensures cvData == old(cvData) && finalCv == old(finalCv)
      ensures coverLetter == old(coverLetter) && atsAnalysis == old(atsAnalysis)
    {
      step := step - 1;
    }

    /** The "Start Over" button: page 1, the entered data and the resume
        forgotten; the cover letter and the ATS analysis are kept. */
    method StartOver()
      modifies this
      ensures step == 1 && cvData == map[] && finalCv == []
      ensures coverLetter == old(coverLetter) && atsAnalysis == old(atsAnalysis)
    {
      step := 1;
      cvData := map[];
      finalCv := [];
    }

    /** One button press followed by the page reload that runs the guard. */
    method Press(a: Action)
      modifies this
      ensures step == StepAfter(old(step), a)
      ensures coverLetter == old(coverLetter) && atsAnalysis == old(atsAnalysis)
    {
      match a {
        case Next(filled) =>
          if step != 1 || filled {
            NextStep();
          }
        case Back => PrevStep();
        case Restart => StartOver();
      }
      Guard();
    }
  }

  /** The buttons that move the counter. `filled` says whether the name, the
      email and the target job were given: on page 1 "Next" refuses to move
      without them. */
  datatype Action = Next(filled: bool) | Back | Restart

  /** Which buttons each page shows: "Next" (or "Generate CV") on pages 1-5,
      "Back" on pages 2-5, "Start Over" on page 6. */
  predicate Enabled(step: int, a: Action) {
    match a
    case Next(_) => 1 <= step < LastStep
    case Back => 2 <= step < LastStep
    case Restart => step == LastStep
  }

  /** The counter after pressing a button and reloading the page. */
  function StepAfter(step: int, a: Action): int {
    var moved := match a
      case Next(filled) => if step == 1 && !filled then step else step + 1
      case Back => step - 1
      case Restart => 1;
    if moved > LastStep then 1 else moved
  }

  /** A run of button presses, each one shown on the page it is pressed on. */
  predicate ValidRun(step: int, actions: seq<Action>)
    decreases |actions|
  {
    actions == [] || (Enabled(step, actions[0]) && ValidRun(StepAfter(step, actions[0]), actions[1..]))
  }

  /** The counter after a run of presses. */
  function Run(step: int, actions: seq<Action>): int
    decreases |actions|
  {
    if actions == [] then step else Run(StepAfter(step, actions[0]), actions[1..])
  }

  /** A button shown on a page in 1..6 lands on a page in 1..6 without the
      guard stepping in: "Next" moves forward one page (except on an
      incomplete page 1), "Back" one page back, "Start Over" to page 1. */
  lemma StepAfterInRange(step: int, a: Action)
    requires 1 <= step <= LastStep && Enabled(step, a)
    ensures 1 <= StepAfter(step, a) <= LastStep
    ensures a.Next? ==> StepAfter(step, a) == (if step == 1 && !a.filled then 1 else step + 1)
    ensures a.Back? ==> StepAfter(step, a) == step - 1 && StepAfter(step, a) >= 1
    ensures a.Restart? ==> StepAfter(step, a) == 1
  {
  }

  /** Starting from a page in 1..6, every run of shown buttons keeps the
      counter in 1..6, so the reset to page 1 never fires. */
  lemma {:induction false} RunStaysInRange(step: int, actions: seq<Action>)
    requires 1 <= step <= LastStep
    requires ValidRun(step, actions)
    ensures 1 <= Run(step, actions) <= LastStep
    decreases |actions|
  {
    if actions != [] {
      StepAfterInRange(step, actions[0]);
      RunStaysInRange(StepAfter(step, actions[0]), actions[1..]);
    }
  }

  /** The result page is reached only by passing page 1 with its required
      fields filled: a run from page 1 that ends on page 6 has pressed
      "Next" on a complete page 1. */
  lemma {:induction false} ResultNeedsPersonalInfo(step: int, actions: seq<Action>)
    requires 1 <= step <= LastStep
    requires ValidRun(step, actions)
    requires step == 1 && Run(step, actions) != 1
    ensures exists k | 0 <= k < |actions| :: actions[k] == Next(true)
    decreases |actions|
  {
    var a := actions[0];
    StepAfterInRange(step, a);
    if a == Next(true) {
      assert actions[0] == Next(true);
    } else {
      assert StepAfter(step, a) == 1;
      ResultNeedsPersonalInfo(1, actions[1..]);
      var k :| 0 <= k < |actions[1..]| && actions[1..][k] == Next(true);
      assert actions[k + 1] == Next(true);
    }
  }
}

/**
  Worked configurations of the rule engine: three registered conditions over
  a small project state, and an enabler that makes a selection.
 */
module Scenarios {
  import opened Wrappers
  import opened CommandFlags
  import opened FlagOptions
  import opened FlagRegistry
  import opened FlagMessages
  import opened Enablers

  /** The part of a project the conditions look at. */
  datatype Project = Project(selected: bool, stopped: bool, saved: bool)

  function NeedsSelection(name: string): string { "needs selection" }
  function NeedsStopped(name: string): string { "needs stopped transport" }

  /**
    C0: something is selected (cheap, priority 1, with a message);
    C1: the transport is stopped (priority 5, with a message);
    C2: the project is saved (no message, default message disabled).
   */
  function Specs(): seq<(Project -> bool, CommandFlagOptions)> {
    [ ((p: Project) => p.selected, Priority(QuickTest(WithMessage(NeedsSelection)), 1)),
      ((p: Project) => p.stopped, Priority(WithMessage(NeedsStopped), 5)),
      ((p: Project) => p.saved, DisableDefaultMessage(Default())) ]
  }

  function Conditions(): Registry<Project> {
    Registry(AsConditions(Specs()))
  }

  /** Registering the three conditions in order succeeds and hands out bits 0, 1 and 2. */
  lemma RegisterThree()
    ensures ReserveAll(Empty(), Specs()).Success?
    ensures ReserveAll(Empty(), Specs()).value.0 == Conditions()
    ensures ReserveAll(Empty(), Specs()).value.1 == [1, 2, 4]
  {
  }

  const AllThree: CommandFlag := 7

  /** Both messages apply; the higher priority one (C1) is shown, with the default title. */
  lemma PriorityPicksStoppedMessage(preferLater: (nat, nat) -> bool)
    ensures
      var reg := Conditions();
      var current := EvaluateAll(reg, Project(false, false, true));
      Resolve(reg, AllThree, current, "Play", preferLater) == CustomDialog(1, "needs stopped transport", None, "")
  {
    var reg := Conditions();
    var current := EvaluateAll(reg, Project(false, false, true));
    var missing := Missing(AllThree, current);
    assert PositionOf(0) == 0 && PositionOf(1) == 1 && PositionOf(2) == 2;
    assert Candidate(reg, missing, 0) && Candidate(reg, missing, 1);
    var d := Resolve(reg, AllThree, current, "Play", preferLater);
    assert d.CustomDialog?;
    assert !Candidate(reg, missing, 2);
  }

  /** Only the condition without a message and with the default disabled is missing: no dialog. */
  lemma SuppressedDefaultIsSilent(preferLater: (nat, nat) -> bool)
    ensures
      var reg := Conditions();
      var current := EvaluateAll(reg, Project(true, true, false));
      Resolve(reg, AllThree, current, "Play", preferLater) == NoDialog
  {
  }

  /** Selects everything, provided the transport is stopped (C1), to satisfy C0. */
  function SelectAll(): MenuItemEnabler<Project> {
    MenuItemEnabler(2, 1, (p: Project) => true, (p: Project, required: CommandFlag) => p.(selected := true))
  }

  /** With nothing selected and the transport stopped, C1 holds and C0 does not. */
  lemma StoppedWithoutSelection()
    ensures var flags := EvaluateAll(Conditions(), Project(false, true, true));
      Satisfies(flags, 2) && !Satisfies(flags, 1)
  {
    var flags := EvaluateAll(Conditions(), Project(false, true, true));
    assert PositionOf(0) == 0 && PositionOf(1) == 1;
    assert Has(flags, 1) && !Has(flags, 0);
    SatisfiesSingle(flags, 0);
    SatisfiesSingle(flags, 1);
    assert Single(0) == 1 && Single(1) == 2;
  }

  /** Once something is selected, C0 holds. */
  lemma SelectedSatisfiesC0()
    ensures Satisfies(EvaluateAll(Conditions(), Project(true, true, true)), 1)
  {
    assert PositionOf(0) == 0;
    assert Has(EvaluateAll(Conditions(), Project(true, true, true)), 0);
  }

  /**
    A command requiring a selection, checked with nothing selected and the
    transport stopped: the enabler makes the selection and the command is
    enabled.
   */
  lemma EnablerSatisfiesSelection(preferLater: (nat, nat) -> bool)
    ensures
      var reg := Conditions();
      var start := Project(false, true, true);
      CheckCommand(reg, [SelectAll()], start, 1, false, [0], "Cut", preferLater) == (Enabled, Project(true, true, true))
  {
    var reg := Conditions();
    var start := Project(false, true, true);
    StoppedWithoutSelection();
    SelectedSatisfiesC0();
    assert MayInvoke(SelectAll(), start, EvaluateAll(reg, start), 1, false);
    assert RunEnablers(reg, [SelectAll()], start, 1, false, [0]).0 == Project(true, true, true);
  }

  /** The same command built with strict flags stays disabled: no enabler runs. */
  lemma StrictSelectionStaysDisabled(preferLater: (nat, nat) -> bool)
    ensures
      var reg := Conditions();
      var start := Project(false, true, true);
      CheckCommand(reg, [SelectAll()], start, 1, true, [0], "Cut", preferLater).0.Disabled?
  {
    var reg := Conditions();
    var start := Project(false, true, true);
    assert PositionOf(0) == 0;
    assert !Has(EvaluateAll(reg, start), 0);
  }

  /**
    An enabler whose own precondition is the very condition it should make
    true is never invoked for that condition: its precondition fails.
   */
  lemma EnablerNeedsItsPrecondition(preferLater: (nat, nat) -> bool)
    ensures
      var reg := Conditions();
      var start := Project(false, true, true);
      var e := SelectAll().(actualFlags := 1);
      CheckCommand(reg, [e], start, 1, false, [0], "Cut", preferLater).0.Disabled?
  {
    var reg := Conditions();
    var start := Project(false, true, true);
    assert PositionOf(0) == 0;
    assert !Has(EvaluateAll(reg, start), 0);
  }
}

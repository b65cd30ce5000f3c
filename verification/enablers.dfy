/**
  Menu item enablers and the decision whether a command may run.

  An enabler describes a set of conditions (`actualFlags`), another set that
  might be made true given the first (`possibleFlags`), an applicability test
  and an action (`tryEnable`). When a menu item requires conditions of the
  second set while every condition of the first set holds, the action may be
  invoked with the item's full set of required flags, unless the item uses
  strict flags or the applicability test says no. Enablers are registered
  once and only ever appended.

  Which candidate enablers the program actually runs for one command, and in
  what order, is the caller's `plan`; what an action does to the project is
  the enabler's own function.
 */
module Enablers {
  import opened Wrappers
  import opened CommandFlags
  import opened FlagRegistry
  import opened FlagMessages

  datatype MenuItemEnabler<!Project> = MenuItemEnabler(
    actualFlags: CommandFlag,
    possibleFlags: CommandFlag,
    applicable: Project -> bool,
    tryEnable: (Project, CommandFlag) -> Project
  )

  /** `RegisteredMenuItemEnabler`: appends an enabler; earlier ones are untouched. */
  function RegisterEnabler<Project>(enablers: seq<MenuItemEnabler<Project>>, e: MenuItemEnabler<Project>)
    : (r: seq<MenuItemEnabler<Project>>)
    ensures |r| == |enablers| + 1
    ensures r[..|enablers|] == enablers
    ensures r[|enablers|] == e
  {
    enablers + [e]
  }

  /**
    Whether enabler `e` may be invoked for a menu item requiring `required`,
    in a project where the conditions `current` hold.
   */
  predicate MayInvoke<Project>(e: MenuItemEnabler<Project>, project: Project, current: CommandFlag,
                               required: CommandFlag, strict: bool) {
    && !strict
    && Satisfies(current, e.actualFlags)
    && required & e.possibleFlags != 0
    && e.applicable(project)
  }

  /** One invocation of an enabler's action, and the mask it was given. */
  datatype Invocation<!Project> = Invocation(enabler: nat, before: Project, passed: CommandFlag)

  /**
    Runs the enablers `plan` names, in that order, each only if it may be
    invoked in the project as the previous actions left it; the conditions are
    re-evaluated comprehensively before each test. Returns the final project
    and the invocations made.
   */
  function RunEnablers<Project>(reg: Registry<Project>, enablers: seq<MenuItemEnabler<Project>>, project: Project,
                                required: CommandFlag, strict: bool, plan: seq<nat>)
    : (res: (Project, seq<Invocation<Project>>))
    requires Valid(reg)
    ensures |res.1| <= |plan|
    ensures forall t :: t in res.1 ==>
      && t.enabler < |enablers|
      && t.passed == required
      && MayInvoke(enablers[t.enabler], t.before, EvaluateAll(reg, t.before), required, strict)
    ensures |res.1| == 0 ==> res.0 == project
    decreases |plan|
  {
    if |plan| == 0 then
      (project, [])
    else
      var i := plan[0];
      if i < |enablers| && MayInvoke(enablers[i], project, EvaluateAll(reg, project), required, strict) then
        var next := enablers[i].tryEnable(project, required);
        var rest := RunEnablers(reg, enablers, next, required, strict, plan[1..]);
        (rest.0, [Invocation(i, project, required)] + rest.1)
      else
        RunEnablers(reg, enablers, project, required, strict, plan[1..])
  }

  /** The first recorded action saw the project the run started from. */
  lemma {:induction false} RunEnablersStart<Project>(reg: Registry<Project>, enablers: seq<MenuItemEnabler<Project>>,
                                                    project: Project, required: CommandFlag, strict: bool, plan: seq<nat>)
    requires Valid(reg)
    ensures var trace := RunEnablers(reg, enablers, project, required, strict, plan).1;
      |trace| > 0 ==> trace[0].before == project
    decreases |plan|
  {
    if |plan| > 0 {
      var i := plan[0];
      if !(i < |enablers| && MayInvoke(enablers[i], project, EvaluateAll(reg, project), required, strict)) {
        RunEnablersStart(reg, enablers, project, required, strict, plan[1..]);
      }
    }
  }

  /** Each later recorded action saw the project the previous action returned. */
  lemma {:induction false} RunEnablersSteps<Project>(reg: Registry<Project>, enablers: seq<MenuItemEnabler<Project>>,
                                                    project: Project, required: CommandFlag, strict: bool, plan: seq<nat>)
    requires Valid(reg)
    ensures var trace := RunEnablers(reg, enablers, project, required, strict, plan).1;
      forall j :: 0 <= j < |trace| - 1 ==>
        trace[j].enabler < |enablers| &&
        trace[j + 1].before == enablers[trace[j].enabler].tryEnable(trace[j].before, required)
    decreases |plan|
  {
    if |plan| > 0 {
      var i := plan[0];
      if i < |enablers| && MayInvoke(enablers[i], project, EvaluateAll(reg, project), required, strict) {
        var next := enablers[i].tryEnable(project, required);
        RunEnablersSteps(reg, enablers, next, required, strict, plan[1..]);
        RunEnablersStart(reg, enablers, next, required, strict, plan[1..]);
        var rest := RunEnablers(reg, enablers, next, required, strict, plan[1..]).1;
        var trace := [Invocation(i, project, required)] + rest;
        assert RunEnablers(reg, enablers, project, required, strict, plan).1 == trace;
        forall j | 0 <= j < |trace| - 1
          ensures trace[j].enabler < |enablers|
          ensures trace[j + 1].before == enablers[trace[j].enabler].tryEnable(trace[j].before, required)
        {
          if j > 0 {
            assert trace[j] == rest[j - 1] && trace[j + 1] == rest[j];
          }
        }
      } else {
        RunEnablersSteps(reg, enablers, project, required, strict, plan[1..]);
        assert RunEnablers(reg, enablers, project, required, strict, plan) ==
          RunEnablers(reg, enablers, project, required, strict, plan[1..]);
      }
    }
  }

  /** When any action ran, the final project is what the last one returned. */
  lemma {:induction false} RunEnablersEnd<Project>(reg: Registry<Project>, enablers: seq<MenuItemEnabler<Project>>,
                                                  project: Project, required: CommandFlag, strict: bool, plan: seq<nat>)
    requires Valid(reg)
    ensures var (final, trace) := RunEnablers(reg, enablers, project, required, strict, plan);
      |trace| > 0 ==>
        trace[|trace| - 1].enabler < |enablers| &&
        final == enablers[trace[|trace| - 1].enabler].tryEnable(trace[|trace| - 1].before, required)
    decreases |plan|
  {
    if |plan| > 0 {
      var i := plan[0];
      if i < |enablers| && MayInvoke(enablers[i], project, EvaluateAll(reg, project), required, strict) {
        var next := enablers[i].tryEnable(project, required);
        RunEnablersEnd(reg, enablers, next, required, strict, plan[1..]);
        var rest := RunEnablers(reg, enablers, next, required, strict, plan[1..]);
        var trace := [Invocation(i, project, required)] + rest.1;
        assert RunEnablers(reg, enablers, project, required, strict, plan) == (rest.0, trace);
        if |rest.1| > 0 {
          assert trace[|trace| - 1] == rest.1[|rest.1| - 1];
        }
      } else {
        RunEnablersEnd(reg, enablers, project, required, strict, plan[1..]);
        assert RunEnablers(reg, enablers, project, required, strict, plan) ==
          RunEnablers(reg, enablers, project, required, strict, plan[1..]);
      }
    }
  }

  /** A menu item built with strict flags never invokes an enabler. */
  lemma StrictNeverInvokes<Project>(reg: Registry<Project>, enablers: seq<MenuItemEnabler<Project>>, project: Project,
                                    required: CommandFlag, strict: bool, plan: seq<nat>)
    requires Valid(reg)
    ensures strict ==> RunEnablers(reg, enablers, project, required, strict, plan) == (project, [])
  {
  }

  /**
    An enabler that can make true none of the conditions the item requires is
    never invoked, whatever the plan.
   */
  lemma NeverEligibleNeverInvoked<Project>(reg: Registry<Project>, enablers: seq<MenuItemEnabler<Project>>,
                                                             project: Project, required: CommandFlag, strict: bool,
                                                             plan: seq<nat>, i: nat)
    requires Valid(reg)
    requires i < |enablers|
    requires required & enablers[i].possibleFlags == 0
    ensures forall t :: t in RunEnablers(reg, enablers, project, required, strict, plan).1 ==> t.enabler != i
  {
  }

  /**
    An enabler the plan tries first is invoked exactly when its trigger holds,
    and then it receives the item's full required mask.
   */
  lemma FirstEligibleIsInvoked<Project>(reg: Registry<Project>, enablers: seq<MenuItemEnabler<Project>>,
                                        project: Project, required: CommandFlag, strict: bool, plan: seq<nat>)
    requires Valid(reg)
    requires |plan| > 0 && plan[0] < |enablers|
    ensures var trace := RunEnablers(reg, enablers, project, required, strict, plan).1;
      (|trace| > 0 && trace[0] == Invocation(plan[0], project, required))
      <== MayInvoke(enablers[plan[0]], project, EvaluateAll(reg, project), required, strict)
    ensures !MayInvoke(enablers[plan[0]], project, EvaluateAll(reg, project), required, strict) ==>
      RunEnablers(reg, enablers, project, required, strict, plan) ==
      RunEnablers(reg, enablers, project, required, strict, plan[1..])
  {
  }

  /** The decision for one menu item. */
  datatype Decision = Enabled | Disabled(dialog: Dialog)

  /**
    Checking a command: it is enabled when the conditions it requires hold;
    otherwise the enablers of `plan` get their chance, the conditions are
    evaluated again, and the command is enabled if they now hold, or else
    disabled with the dialog message resolution picks.
   */
  function CheckCommand<Project>(reg: Registry<Project>, enablers: seq<MenuItemEnabler<Project>>, project: Project,
                                 required: CommandFlag, strict: bool, plan: seq<nat>, name: string,
                                 preferLater: (nat, nat) -> bool)
    : (res: (Decision, Project))
    requires Valid(reg)
    ensures res.0.Enabled? <==> Satisfies(EvaluateAll(reg, res.1), required)
    ensures Satisfies(EvaluateAll(reg, project), required) ==> res == (Enabled, project)
    ensures strict ==> res.1 == project
    ensures !Satisfies(EvaluateAll(reg, project), required) ==>
      res.1 == RunEnablers(reg, enablers, project, required, strict, plan).0
    ensures res.0.Disabled? ==>
      res.0.dialog == Resolve(reg, required, EvaluateAll(reg, res.1), name, preferLater)
  {
    var flags := EvaluateAll(reg, project);
    if Satisfies(flags, required) then
      (Enabled, project)
    else
      StrictNeverInvokes(reg, enablers, project, required, strict, plan);
      var after := RunEnablers(reg, enablers, project, required, strict, plan).0;
      var flags' := EvaluateAll(reg, after);
      if Satisfies(flags', required) then
        (Enabled, after)
      else
        (Disabled(Resolve(reg, required, flags', name, preferLater)), after)
  }

  /**
    With strict flags the decision is the plain test of the current
    conditions: enabled exactly when they hold, the project unchanged.
   */
  lemma StrictIsPlainTest<Project>(reg: Registry<Project>, enablers: seq<MenuItemEnabler<Project>>, project: Project,
                                   required: CommandFlag, plan: seq<nat>, name: string, preferLater: (nat, nat) -> bool)
    requires Valid(reg)
    ensures var res := CheckCommand(reg, enablers, project, required, true, plan, name, preferLater);
      && res.1 == project
      && (res.0.Enabled? <==> Satisfies(EvaluateAll(reg, project), required))
  {
  }
}

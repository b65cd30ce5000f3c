/**
  The choice of the dialog shown when a command is disabled. Among the
  unsatisfied conditions of the command, those with a message formatter are
  candidates, and one of highest priority supplies the dialog's text, title
  and help page. When no unsatisfied condition has a message, a default
  dialog is shown, unless an unsatisfied condition disabled the default
  message, in which case no dialog is shown at all.
 */
module FlagMessages {
  import opened Wrappers
  import opened CommandFlags
  import opened FlagOptions
  import opened FlagRegistry

  /** The outcome of message resolution for a disabled command. */
  datatype Dialog =
    | CustomDialog(condition: nat, text: string, title: Option<string>, helpPage: string)
    | DefaultDialog
    | NoDialog

  /** Condition `k` is registered and its bit is among the `missing` ones. */
  predicate Unsatisfied<Project>(reg: Registry<Project>, missing: CommandFlag, k: nat) {
    k < |reg.conditions| && k < NCommandFlags && Has(missing, PositionOf(k))
  }

  /** Condition `k` is unsatisfied and can explain itself with a message. */
  predicate Candidate<Project>(reg: Registry<Project>, missing: CommandFlag, k: nat) {
    Unsatisfied(reg, missing, k) && reg.conditions[k].options.message.Some?
  }

  function PriorityOf<Project>(reg: Registry<Project>, k: nat): u32
    requires k < |reg.conditions|
  {
    reg.conditions[k].options.priority
  }

  /**
    The scan of indices `0 .. n - 1` for one that passes `isCandidate` with
    the highest `priority`. Between candidates of equal priority the order in
    which the program visits them decides; `preferLater(i, k)` says whether
    candidate `k`, met after the incumbent `i`, takes its place.
   */
  function BestCandidate(n: nat, isCandidate: nat -> bool, priority: nat -> u32, preferLater: (nat, nat) -> bool)
    : (best: Option<nat>)
    ensures best.None? <==> forall k :: 0 <= k < n ==> !isCandidate(k)
    ensures best.Some? ==> best.value < n && isCandidate(best.value)
    ensures best.Some? ==> forall k :: 0 <= k < n && isCandidate(k) ==> priority(k) <= priority(best.value)
  {
    if n == 0 then
      None
    else
      var k := n - 1;
      var incumbent := BestCandidate(k, isCandidate, priority, preferLater);
      if !isCandidate(k) then
        incumbent
      else if incumbent.None? then
        Some(k)
      else if priority(k) > priority(incumbent.value) then
        Some(k)
      else if priority(k) == priority(incumbent.value) && preferLater(incumbent.value, k) then
        Some(k)
      else
        incumbent
  }

  /** Some unsatisfied registered condition asks not to show the default message. */
  predicate DefaultSuppressed<Project>(reg: Registry<Project>, missing: CommandFlag) {
    exists k :: 0 <= k < |reg.conditions| && Unsatisfied(reg, missing, k)
      && !reg.conditions[k].options.enableDefaultMessage
  }

  /** An empty title means the dialog keeps its default title. */
  function TitleOf(o: CommandFlagOptions): (t: Option<string>)
    ensures t.Some? <==> o.title != ""
    ensures t.Some? ==> t.value == o.title
  {
    if o.title == "" then None else Some(o.title)
  }

  /**
    The dialog for a command named `name` that requires `required` while the
    conditions `current` hold.
   */
  function Resolve<Project>(reg: Registry<Project>, required: CommandFlag, current: CommandFlag, name: string,
                            preferLater: (nat, nat) -> bool): (d: Dialog)
    requires Valid(reg)
    ensures d.CustomDialog? <==> exists k :: 0 <= k < |reg.conditions| && Candidate(reg, Missing(required, current), k)
    ensures d.CustomDialog? ==>
      var k := d.condition;
      && k < |reg.conditions|
      && Candidate(reg, Missing(required, current), k)
      && (forall j :: 0 <= j < |reg.conditions| && Candidate(reg, Missing(required, current), j) ==>
            PriorityOf(reg, j) <= PriorityOf(reg, k))
      && d.text == reg.conditions[k].options.message.value(name)
      && d.title == TitleOf(reg.conditions[k].options)
      && d.helpPage == reg.conditions[k].options.helpPage
    ensures d.NoDialog? <==> !d.CustomDialog? && DefaultSuppressed(reg, Missing(required, current))
  {
    var missing := Missing(required, current);
    var isCandidate := (k: nat) => Candidate(reg, missing, k);
    var priority := (k: nat) => if k < |reg.conditions| then PriorityOf(reg, k) else 0;
    var best := BestCandidate(|reg.conditions|, isCandidate, priority, preferLater);
    assert forall k: nat :: isCandidate(k) == Candidate(reg, missing, k);
    assert forall k: nat :: k < |reg.conditions| ==> priority(k) == PriorityOf(reg, k);
    match best
    case Some(k) =>
      var o := reg.conditions[k].options;
      CustomDialog(k, o.message.value(name), TitleOf(o), o.helpPage)
    case None =>
      if DefaultSuppressed(reg, missing) then NoDialog else DefaultDialog
  }

  /** A condition of strictly higher priority with a message always beats one of lower priority. */
  lemma HigherPriorityWins<Project>(reg: Registry<Project>, required: CommandFlag, current: CommandFlag, name: string,
                                    preferLater: (nat, nat) -> bool, hi: nat, lo: nat)
    requires Valid(reg)
    requires hi < |reg.conditions| && lo < |reg.conditions|
    requires Candidate(reg, Missing(required, current), hi) && Candidate(reg, Missing(required, current), lo)
    requires PriorityOf(reg, lo) < PriorityOf(reg, hi)
    ensures var d := Resolve(reg, required, current, name, preferLater);
      d.CustomDialog? && d.condition != lo
  {
    var d := Resolve(reg, required, current, name, preferLater);
    assert d.CustomDialog?;
    assert PriorityOf(reg, hi) <= PriorityOf(reg, d.condition);
  }

  /**
    Only the conditions a command is missing take part: two states that miss
    the same conditions yield the same dialog.
   */
  lemma DependsOnlyOnMissing<Project>(reg: Registry<Project>, required: CommandFlag, current: CommandFlag,
                                      required': CommandFlag, current': CommandFlag, name: string,
                                      preferLater: (nat, nat) -> bool)
    requires Valid(reg)
    requires Missing(required, current) == Missing(required', current')
    ensures Resolve(reg, required, current, name, preferLater) == Resolve(reg, required', current', name, preferLater)
  {
  }

  /** With nothing missing there is no candidate and nothing suppresses the default. */
  lemma SatisfiedHasNoCandidates<Project>(reg: Registry<Project>, required: CommandFlag, current: CommandFlag, name: string,
                                          preferLater: (nat, nat) -> bool)
    requires Valid(reg)
    requires Satisfies(current, required)
    ensures Resolve(reg, required, current, name, preferLater) == DefaultDialog
  {
    SatisfiesIffNothingMissing(current, required);
    assert forall i: Position :: !Has(Missing(required, current), i);
  }
}

/**
  The registry of conditions. Constructing a reserved command flag appends
  a condition (a predicate over the project plus its options) and hands back
  the mask with the one bit reserved for it; the registry only ever grows,
  and never beyond `NCommandFlags` entries.

  Evaluation runs the registered predicates against a project and collects
  the results as a mask: a comprehensive evaluation tests every condition,
  a quick one tests only the `quickTest` conditions and keeps every other bit
  as the previous evaluation left it.
 */
module FlagRegistry {
  import opened Wrappers
  import opened CommandFlags
  import opened FlagOptions

  /** A registered condition over projects of type `Project`. */
  datatype Condition<!Project> = Condition(test: Project -> bool, options: CommandFlagOptions)

  /** The conditions in registration order: condition `k` owns bit `k`. */
  datatype Registry<!Project> = Registry(conditions: seq<Condition<Project>>)

  datatype RegistrationError = CapacityExceeded

  /** The registry before any registration. */
  function Empty<Project>(): (reg: Registry<Project>)
    ensures |reg.conditions| == 0
  {
    Registry([])
  }

  /** Never more conditions than bit positions. */
  predicate Valid<Project>(reg: Registry<Project>) {
    |reg.conditions| <= NCommandFlags
  }

  /** The mask of the `k`-th registered condition. */
  function FlagOf(k: nat): CommandFlag
    requires k < NCommandFlags
  {
    Single(PositionOf(k))
  }

  /** Whether position `i` belongs to a registered condition. */
  predicate Registered<Project>(reg: Registry<Project>, i: Position) {
    (i as int) < |reg.conditions|
  }

  /** Distinct registrations own disjoint single-bit masks. */
  lemma FlagsDisjoint(k: nat, j: nat)
    requires k < NCommandFlags && j < NCommandFlags && k != j
    ensures FlagOf(k) & FlagOf(j) == 0
  {
    SingleDisjoint(PositionOf(k), PositionOf(j));
  }

  /** Bit `i` of the `k`-th registration's mask is set exactly when `i` is position `k`. */
  lemma FlagOfHas(k: nat, i: Position)
    requires k < NCommandFlags
    ensures Has(FlagOf(k), i) <==> i as int == k
  {
    SingleHas(PositionOf(k), i);
    PositionRoundTrip(i);
  }

  /**
    Constructing a `ReservedCommandFlag`: appends the condition and reserves
    the next free bit position for it, or fails when all `NCommandFlags`
    positions are taken.
   */
  function Reserve<Project>(reg: Registry<Project>, test: Project -> bool, options: CommandFlagOptions := Default())
    : (res: Result<(Registry<Project>, CommandFlag), RegistrationError>)
    ensures res.Failure? <==> |reg.conditions| >= NCommandFlags
    ensures res.Success? ==>
      && res.value.0.conditions == reg.conditions + [Condition(test, options)]
      && res.value.1 == FlagOf(|reg.conditions|)
  {
    var n := |reg.conditions|;
    if n < NCommandFlags then
      Success((Registry(reg.conditions + [Condition(test, options)]), FlagOf(n)))
    else
      Failure(CapacityExceeded)
  }

  /**
    The flag a registration returns has exactly one bit set, that bit is not
    the bit of any earlier registration, and the registry stays within capacity.
   */
  lemma ReserveFresh<Project>(reg: Registry<Project>, test: Project -> bool, options: CommandFlagOptions)
    requires Valid(reg)
    requires Reserve(reg, test, options).Success?
    ensures var (reg', flag) := Reserve(reg, test, options).value;
      && Valid(reg')
      && BitsOf(flag) == {PositionOf(|reg.conditions|)}
      && |BitsOf(flag)| == 1
      && (forall k :: 0 <= k < |reg.conditions| ==> flag & FlagOf(k) == 0)
  {
    var n := |reg.conditions|;
    SingleBits(PositionOf(n));
    forall k | 0 <= k < n ensures FlagOf(n) & FlagOf(k) == 0 {
      FlagsDisjoint(n, k);
    }
  }

  /** The conditions described by `specs`, in order. */
  function AsConditions<Project>(specs: seq<(Project -> bool, CommandFlagOptions)>): (cs: seq<Condition<Project>>)
    ensures |cs| == |specs|
    ensures forall j :: 0 <= j < |specs| ==> cs[j] == Condition(specs[j].0, specs[j].1)
  {
    seq(|specs|, j requires 0 <= j < |specs| => Condition(specs[j].0, specs[j].1))
  }

  /**
    Registration of a sequence of conditions, one after another, as the static
    constructors of a program do. It fails exactly when the capacity would be
    exceeded; otherwise the registry grows by exactly those conditions and
    one flag is returned per condition.
   */
  function ReserveAll<Project>(reg: Registry<Project>, specs: seq<(Project -> bool, CommandFlagOptions)>)
    : (res: Result<(Registry<Project>, seq<CommandFlag>), RegistrationError>)
    ensures res.Failure? <==> |reg.conditions| + |specs| > NCommandFlags
    ensures res.Success? ==>
      && res.value.0.conditions == reg.conditions + AsConditions(specs)
      && |res.value.1| == |specs|
    decreases |specs|
  {
    if |specs| == 0 then
      if |reg.conditions| > NCommandFlags then Failure(CapacityExceeded)
      else
        assert reg.conditions + AsConditions(specs) == reg.conditions;
        Success((reg, []))
    else
      var init := specs[..|specs| - 1];
      var last := specs[|specs| - 1];
      var before := ReserveAll(reg, init);
      if before.Failure? then Failure(before.error)
      else
        var next := Reserve(before.value.0, last.0, last.1);
        if next.Failure? then Failure(next.error)
        else
          assert AsConditions(init) + [Condition(last.0, last.1)] == AsConditions(specs);
          Success((next.value.0, before.value.1 + [next.value.1]))
  }

  /** The `j`-th flag of a sequence of registrations is the mask of registration number `|reg.conditions| + j`. */
  lemma {:induction false} ReserveAllFlags<Project>(reg: Registry<Project>, specs: seq<(Project -> bool, CommandFlagOptions)>)
    requires ReserveAll(reg, specs).Success?
    ensures var flags := ReserveAll(reg, specs).value.1;
      forall j :: 0 <= j < |specs| ==> flags[j] == FlagOf(|reg.conditions| + j)
    decreases |specs|
  {
    if |specs| > 0 {
      var init := specs[..|specs| - 1];
      ReserveAllFlags(reg, init);
      var before := ReserveAll(reg, init).value;
      var flags := ReserveAll(reg, specs).value.1;
      assert |before.0.conditions| == |reg.conditions| + |init|;
      assert flags == before.1 + [FlagOf(|before.0.conditions|)];
      forall j | 0 <= j < |specs| ensures flags[j] == FlagOf(|reg.conditions| + j) {
        if j < |init| {
          assert flags[j] == before.1[j];
        } else {
          assert |before.0.conditions| == |reg.conditions| + j;
        }
      }
    }
  }

  /** Registration keeps the registry valid: it never holds more than `NCommandFlags` conditions. */
  lemma ReserveAllValid<Project>(reg: Registry<Project>, specs: seq<(Project -> bool, CommandFlagOptions)>)
    requires ReserveAll(reg, specs).Success?
    ensures Valid(ReserveAll(reg, specs).value.0)
    ensures reg.conditions <= ReserveAll(reg, specs).value.0.conditions
  {
  }

  /** Each mask of a run of consecutive registrations has exactly one bit. */
  lemma ConsecutiveFlagsSingle(flags: seq<CommandFlag>, n: nat)
    requires n + |flags| <= NCommandFlags
    requires forall j :: 0 <= j < |flags| ==> flags[j] == FlagOf(n + j)
    ensures forall j :: 0 <= j < |flags| ==> |BitsOf(flags[j])| == 1
  {
    forall j | 0 <= j < |flags| ensures |BitsOf(flags[j])| == 1 {
      SingleBits(PositionOf(n + j));
    }
  }

  /** The masks of a run of consecutive registrations are pairwise disjoint. */
  lemma ConsecutiveFlagsPairwise(flags: seq<CommandFlag>, n: nat)
    requires n + |flags| <= NCommandFlags
    requires forall j :: 0 <= j < |flags| ==> flags[j] == FlagOf(n + j)
    ensures forall j, l :: 0 <= j < l < |flags| ==> flags[j] & flags[l] == 0
  {
    forall j, l | 0 <= j < l < |flags| ensures flags[j] & flags[l] == 0 {
      FlagsDisjoint(n + j, n + l);
    }
  }

  /** A run of registrations starting at number `n` shares no bit with the registrations before `n`. */
  lemma ConsecutiveFlagsAfter(flags: seq<CommandFlag>, n: nat)
    requires n + |flags| <= NCommandFlags
    requires forall j :: 0 <= j < |flags| ==> flags[j] == FlagOf(n + j)
    ensures forall j, k :: 0 <= j < |flags| && 0 <= k < n ==> flags[j] & FlagOf(k) == 0
  {
    forall j, k | 0 <= j < |flags| && 0 <= k < n ensures flags[j] & FlagOf(k) == 0 {
      FlagsDisjoint(n + j, k);
    }
  }

  /** The three freshness facts about a run of consecutive registrations, together. */
  lemma ConsecutiveFlagsFresh(flags: seq<CommandFlag>, n: nat)
    requires n + |flags| <= NCommandFlags
    requires forall j :: 0 <= j < |flags| ==> flags[j] == FlagOf(n + j)
    ensures forall j :: 0 <= j < |flags| ==> |BitsOf(flags[j])| == 1
    ensures forall j, l :: 0 <= j < l < |flags| ==> flags[j] & flags[l] == 0
    ensures forall j, k :: 0 <= j < |flags| && 0 <= k < n ==> flags[j] & FlagOf(k) == 0
  {
    ConsecutiveFlagsSingle(flags, n);
    ConsecutiveFlagsPairwise(flags, n);
    ConsecutiveFlagsAfter(flags, n);
  }

  /**
    The flags handed out by a successful sequence of registrations are single
    bits, pairwise disjoint, and disjoint from every earlier registration.
   */
  lemma ReserveAllFresh<Project>(reg: Registry<Project>, specs: seq<(Project -> bool, CommandFlagOptions)>)
    requires ReserveAll(reg, specs).Success?
    ensures var flags := ReserveAll(reg, specs).value.1;
      && (forall j :: 0 <= j < |flags| ==> |BitsOf(flags[j])| == 1)
      && (forall j, l :: 0 <= j < l < |flags| ==> flags[j] & flags[l] == 0)
      && (forall j, k :: 0 <= j < |flags| && 0 <= k < |reg.conditions| ==> flags[j] & FlagOf(k) == 0)
  {
    var flags := ReserveAll(reg, specs).value.1;
    ReserveAllFlags(reg, specs);
    ConsecutiveFlagsFresh(flags, |reg.conditions|);
  }

  /** Adding registration `k`'s bit to a mask sets that one position and no other. */
  lemma AddFlagHas(rest: CommandFlag, k: nat, i: Position)
    requires k < NCommandFlags
    ensures Has(Union(rest, FlagOf(k)), i) <==> Has(rest, i) || i as int == k
  {
    FlagOfHas(k, i);
  }

  /** A step of `MaskWhere` that selects registration `k`: its bit joins the mask. */
  lemma MaskWhereKeep(rest: CommandFlag, k: nat, keep: nat -> bool)
    requires k < NCommandFlags && keep(k)
    requires forall i: Position :: Has(rest, i) <==> (i as int) < k && keep(i as int)
    ensures forall i: Position :: Has(Union(rest, FlagOf(k)), i) <==> (i as int) < k + 1 && keep(i as int)
  {
    forall i: Position ensures Has(Union(rest, FlagOf(k)), i) <==> Has(rest, i) || i as int == k {
      AddFlagHas(rest, k, i);
    }
  }

  /** A step of `MaskWhere` that skips registration `k`: the mask stays as it is. */
  lemma MaskWhereSkip(rest: CommandFlag, k: nat, keep: nat -> bool)
    requires k < NCommandFlags && !keep(k)
    requires forall i: Position :: Has(rest, i) <==> (i as int) < k && keep(i as int)
    ensures forall i: Position :: Has(rest, i) <==> (i as int) < k + 1 && keep(i as int)
  {
  }

  /** The mask of the positions below `n` whose index satisfies `keep`. */
  function MaskWhere(n: nat, keep: nat -> bool): (m: CommandFlag)
    requires n <= NCommandFlags
    ensures forall i: Position :: Has(m, i) <==> (i as int) < n && keep(i as int)
  {
    if n == 0 then
      AlwaysEnabledFlag
    else
      var rest := MaskWhere(n - 1, keep);
      if keep(n - 1) then
        MaskWhereKeep(rest, n - 1, keep);
        Union(rest, FlagOf(n - 1))
      else
        MaskWhereSkip(rest, n - 1, keep);
        rest
  }

  /** The conditions tested by a comprehensive or a quick evaluation. */
  predicate Tested<Project>(c: Condition<Project>, quickOnly: bool) {
    !quickOnly || c.options.quickTest
  }

  /** The mask of the registered conditions a quick evaluation tests. */
  function QuickMask<Project>(reg: Registry<Project>): (m: CommandFlag)
    requires Valid(reg)
    ensures forall i: Position :: Has(m, i) <==> Registered(reg, i) && reg.conditions[i as int].options.quickTest
  {
    MaskWhere(|reg.conditions|, (k: nat) => k < |reg.conditions| && reg.conditions[k].options.quickTest)
  }

  /** The mask of the registered conditions an evaluation tests and finds true. */
  function TestedMask<Project>(reg: Registry<Project>, project: Project, quickOnly: bool): (m: CommandFlag)
    requires Valid(reg)
    ensures forall i: Position :: Has(m, i) <==>
      Registered(reg, i) && Tested(reg.conditions[i as int], quickOnly) && reg.conditions[i as int].test(project)
  {
    var n := |reg.conditions|;
    MaskWhere(n, (k: nat) => k < n && Tested(reg.conditions[k], quickOnly) && reg.conditions[k].test(project))
  }

  /** One bit of a quick evaluation: the tested value for a quick condition, the previous value otherwise. */
  lemma QuickEvaluationBit<Project>(reg: Registry<Project>, project: Project, last: CommandFlag, i: Position)
    requires Valid(reg)
    ensures Has(Union(Missing(last, QuickMask(reg)), TestedMask(reg, project, true)), i) <==>
      (if Registered(reg, i) && Tested(reg.conditions[i as int], true)
       then reg.conditions[i as int].test(project)
       else Has(last, i))
  {
    MissingBit(last, QuickMask(reg), i);
  }

  /** Every bit of a quick evaluation, as `QuickEvaluationBit` gives it. */
  lemma QuickEvaluationBits<Project>(reg: Registry<Project>, project: Project, last: CommandFlag)
    requires Valid(reg)
    ensures forall i: Position :: Has(Union(Missing(last, QuickMask(reg)), TestedMask(reg, project, true)), i) <==>
      (if Registered(reg, i) && Tested(reg.conditions[i as int], true)
       then reg.conditions[i as int].test(project)
       else Has(last, i))
  {
    forall i: Position {
      QuickEvaluationBit(reg, project, last, i);
    }
  }

  /**
    Evaluation of the registered conditions against `project`. A
    comprehensive evaluation (`quickOnly == false`) tests every condition and
    leaves unregistered bits clear; a quick one tests only the `quickTest`
    conditions and keeps every other bit as it was in `last`.
   */
  function Evaluate<Project>(reg: Registry<Project>, project: Project, quickOnly: bool, last: CommandFlag)
    : (flags: CommandFlag)
    requires Valid(reg)
    ensures forall i: Position :: Has(flags, i) <==>
      (if Registered(reg, i) && Tested(reg.conditions[i as int], quickOnly)
       then reg.conditions[i as int].test(project)
       else quickOnly && Has(last, i))
  {
    if quickOnly then
      QuickEvaluationBits(reg, project, last);
      Union(Missing(last, QuickMask(reg)), TestedMask(reg, project, true))
    else
      TestedMask(reg, project, false)
  }

  /** A comprehensive evaluation. */
  function EvaluateAll<Project>(reg: Registry<Project>, project: Project): CommandFlag
    requires Valid(reg)
  {
    Evaluate(reg, project, false, AlwaysEnabledFlag)
  }

  /**
    A quick evaluation after a comprehensive one agrees with a fresh
    comprehensive evaluation whenever no condition outside the quick ones has
    changed in between.
   */
  lemma QuickAfterFullIsFull<Project>(reg: Registry<Project>, before: Project, after: Project)
    requires Valid(reg)
    requires forall k :: 0 <= k < |reg.conditions| && !reg.conditions[k].options.quickTest ==>
      reg.conditions[k].test(before) == reg.conditions[k].test(after)
    ensures Evaluate(reg, after, true, EvaluateAll(reg, before)) == EvaluateAll(reg, after)
  {
    var quick := Evaluate(reg, after, true, EvaluateAll(reg, before));
    var full := EvaluateAll(reg, after);
    forall i: Position ensures Has(quick, i) <==> Has(full, i) {
      QuickAfterFullBit(reg, before, after, i);
    }
    Extensionality(quick, full);
  }

  /** One bit of `QuickAfterFullIsFull`. */
  lemma QuickAfterFullBit<Project>(reg: Registry<Project>, before: Project, after: Project, i: Position)
    requires Valid(reg)
    requires forall k :: 0 <= k < |reg.conditions| && !reg.conditions[k].options.quickTest ==>
      reg.conditions[k].test(before) == reg.conditions[k].test(after)
    ensures Has(Evaluate(reg, after, true, EvaluateAll(reg, before)), i) <==> Has(EvaluateAll(reg, after), i)
  {
    if Registered(reg, i) {
      var k := i as int;
      assert !reg.conditions[k].options.quickTest ==>
        reg.conditions[k].test(before) == reg.conditions[k].test(after);
    }
  }

  /**
    Any number of quick evaluations after a comprehensive one leave the bits
    of the non-quick conditions as the comprehensive evaluation found them.
   */
  lemma {:induction false} QuickChainKeepsFullBits<Project>(reg: Registry<Project>, last: CommandFlag, projects: seq<Project>, i: Position)
    requires Valid(reg)
    requires !(Registered(reg, i) && reg.conditions[i as int].options.quickTest)
    ensures Has(QuickChain(reg, last, projects), i) == Has(last, i)
    decreases |projects|
  {
    if |projects| > 0 {
      QuickChainKeepsFullBits(reg, Evaluate(reg, projects[0], true, last), projects[1..], i);
    }
  }

  /** The flags after a quick evaluation against each of `projects` in turn. */
  function QuickChain<Project>(reg: Registry<Project>, last: CommandFlag, projects: seq<Project>): CommandFlag
    requires Valid(reg)
    decreases |projects|
  {
    if |projects| == 0 then last
    else QuickChain(reg, Evaluate(reg, projects[0], true, last), projects[1..])
  }

  /**
    The two special constants can never be mistaken for a registered
    condition's flag: that flag has exactly one bit, while the constants have
    none and all of them. The constants differ from each other as well.
   */
  lemma SpecialConstantsAreNotFlags(k: nat)
    requires k < NCommandFlags
    ensures FlagOf(k) != AlwaysEnabledFlag
    ensures FlagOf(k) != NoFlagsSpecified
    ensures AlwaysEnabledFlag != NoFlagsSpecified
  {
  }

  /**
    A command requiring `AlwaysEnabledFlag` is enabled by every evaluation,
    and a comprehensive evaluation of a registry with a free position is never
    the all-ones sentinel.
   */
  lemma EvaluationFacts<Project>(reg: Registry<Project>, project: Project, quickOnly: bool, last: CommandFlag)
    requires Valid(reg)
    ensures Satisfies(Evaluate(reg, project, quickOnly, last), AlwaysEnabledFlag)
    ensures |reg.conditions| < NCommandFlags ==> EvaluateAll(reg, project) != NoFlagsSpecified
  {
    AlwaysEnabledIsEmpty(Evaluate(reg, project, quickOnly, last));
    if |reg.conditions| < NCommandFlags {
      var free := PositionOf(|reg.conditions|);
      NoFlagsSpecifiedIsFull();
      assert !Has(EvaluateAll(reg, project), free);
    }
  }
}

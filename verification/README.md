# Command flags of Audacity's command manager, in Dafny

This project models the command-enablement rules that Audacity declares in
`src/commands/CommandFlag.h`:

- **Command flags.** A `CommandFlag` is a bit set of `NCommandFlags = 64`
  positions, modelled as `bv64`. Each position stands for one registered
  condition. There are two special values. `AlwaysEnabledFlag` has no bits
  set. `NoFlagsSpecified` has all bits set and is built from the all-ones
  `unsigned long long`. A menu item is enabled when its required bits are a
  subset of the bits that currently hold (`CommandFlags`).
- **Condition options.** `CommandFlagOptions` is an immutable record. It
  holds an optional message formatter, a help page, a title, an `unsigned`
  priority, `enableDefaultMessage` and `quickTest`. The builder setters
  `QuickTest`, `DisableDefaultMessage` and `Priority` each return a copy
  with one field changed (`FlagOptions`).
- **Reserved flags.** Constructing a `ReservedCommandFlag` appends a
  condition (a predicate over the project, plus its options) to an
  append-only registry. It returns the mask of the next free position, and
  fails once all 64 positions are taken. Evaluation runs the predicates
  against a project. A comprehensive evaluation tests every condition. A
  quick evaluation tests only the `quickTest` conditions and keeps every
  other bit from the previous evaluation (`FlagRegistry`).
- **Messages.** For a disabled command, the unsatisfied conditions that
  have a message formatter are the candidates. One of highest priority
  supplies the dialog's text, title and help page. When no candidate
  exists, a default dialog is shown, unless some unsatisfied condition
  disabled the default message; then no dialog is shown
  (`FlagMessages`).
- **Enablers.** A `MenuItemEnabler` may be invoked when four things hold:
  its `actualFlags` hold, the item requires some of its `possibleFlags`,
  its applicability test passes, and the item is not strict. It is then
  given the item's full required mask. `CheckCommand` composes the
  evaluation, the enablers and message resolution (`Enablers`).
- **Worked configurations.** Three conditions and a select-all enabler
  (`Scenarios`).

The project (`AudacityProject`) is a type parameter `Project`. Predicates,
applicability tests and enabler actions are functions over it: an action is
a function from a project and a mask to the changed project.

## Model

| member | source | states |
|---|---|---|
| CommandFlags.NoFlagsSpecifiedIsFull | src/commands/CommandFlag.h:21-34 | The mask is no wider than the 64-bit word, so the mask built from `~0ULL` has every one of the `NCommandFlags` positions set: its bit set is all positions, and it has exactly 64 of them. |
| CommandFlags.AlwaysEnabledIsEmpty | src/commands/CommandFlag.h:31-33 | `AlwaysEnabledFlag` has no bits, so every state satisfies a command that requires only it. |
| CommandFlags.SatisfiesSingle | src/commands/CommandFlag.h:28-29 | A requirement of one condition is satisfied exactly when that condition holds. |
| CommandFlags.SatisfiesIffSubset | src/commands/CommandFlag.h:28-29 | A command is enabled exactly when its required conditions are a subset of the current ones, in both directions. |
| CommandFlags.SatisfiesIffNothingMissing | src/commands/CommandFlag.h:28-29 | A command is enabled exactly when the mask of missing required conditions is empty. |
| CommandFlags.Union | src/commands/CommandFlag.h:105-107 | The bitwise OR of two flags requires exactly the conditions that either flag requires. |
| CommandFlags.Missing | src/commands/CommandFlag.h:56-57 | The unsatisfied conditions of a command are exactly those it requires that do not currently hold. |
| CommandFlags.BitsOfInjective | src/commands/CommandFlag.h:28-29 | Two flags are equal exactly when they have the same set of conditions. |
| CommandFlags.SingleBits | src/commands/CommandFlag.h:82-83 | The mask of one reserved position has exactly one bit set, at that position. |
| FlagRegistry.SpecialConstantsAreNotFlags | src/commands/CommandFlag.h:31-34 | Neither special constant equals the flag of any registered condition, and the two constants differ from each other. |
| FlagOptions.Default | src/commands/CommandFlag.h:56-79 | Default options have no message formatter, an empty help page and title, priority 0, the default message enabled and no quick test. |
| FlagOptions.WithMessage | src/commands/CommandFlag.h:42-47 | The message constructor stores the formatter, the help page and the title, each defaulting to empty. The other fields keep their defaults. |
| FlagOptions.QuickTest | src/commands/CommandFlag.h:49-50 | `QuickTest()` sets `quickTest` and leaves every other field unchanged. |
| FlagOptions.DisableDefaultMessage | src/commands/CommandFlag.h:51-52 | `DisableDefaultMessage()` clears `enableDefaultMessage` and leaves every other field unchanged. |
| FlagOptions.Priority | src/commands/CommandFlag.h:53-54 | `Priority(p)` sets the priority to `p` and leaves every other field unchanged. |
| FlagOptions.SettersCommute | src/commands/CommandFlag.h:49-54 | Setters of different fields can be chained in either order with the same result. |
| FlagOptions.SettersIdempotent | src/commands/CommandFlag.h:49-54 | Repeating a boolean setter changes nothing more. Of two priority settings, the last one wins. |
| FlagOptions.SettersFixDefaults | src/commands/CommandFlag.h:49-54 | A setter whose field already has the target value returns the options unchanged. |
| FlagRegistry.Reserve | src/commands/CommandFlag.h:82-91 | Registration fails exactly when all `NCommandFlags` positions are taken. Otherwise it appends the condition and returns the mask of the position numbered by the old registry size. |
| FlagRegistry.ReserveFresh | src/commands/CommandFlag.h:82-91 | A registered flag has exactly one bit. That bit is not the bit of any earlier registration, and the registry stays within capacity. |
| FlagRegistry.FlagsDisjoint | src/commands/CommandFlag.h:82-83 | Different registrations own disjoint bits. |
| FlagRegistry.ReserveAll | src/commands/CommandFlag.h:93-95 | Registering a sequence of conditions fails exactly when capacity would be exceeded. Otherwise the registry grows by exactly those conditions, in order, with one flag per condition. |
| FlagRegistry.ReserveAllFlags | src/commands/CommandFlag.h:82-83 | The j-th flag of a sequence of registrations is the mask of position (old registry size + j). |
| FlagRegistry.ReserveAllFresh | src/commands/CommandFlag.h:82-83 | The flags handed out are single bits. They are pairwise disjoint and disjoint from all earlier registrations. |
| FlagRegistry.ReserveAllValid | src/commands/CommandFlag.h:21-22 | After successful registrations the registry still holds at most `NCommandFlags` conditions and extends the old one. |
| FlagRegistry.QuickMask | src/commands/CommandFlag.h:76-79 | A bit of the quick mask is set exactly for the registered conditions that have `quickTest`. |
| FlagRegistry.Evaluate | src/commands/CommandFlag.h:76-84 | A bit of the evaluation is set exactly when its condition is tested and its predicate holds for the project. Untested bits come from the previous flags in a quick evaluation, and are clear in a comprehensive one. |
| FlagRegistry.QuickAfterFullIsFull | src/commands/CommandFlag.h:76-79 | A quick evaluation after a comprehensive one equals a fresh comprehensive evaluation when no non-quick condition has changed. |
| FlagRegistry.QuickChainKeepsFullBits | src/commands/CommandFlag.h:76-79 | Any number of quick evaluations leave every non-quick bit as the last comprehensive evaluation set it. |
| FlagRegistry.EvaluationFacts | src/commands/CommandFlag.h:31-34 | Every evaluation satisfies `AlwaysEnabledFlag`. While a position is free, a comprehensive evaluation is never the all-ones `NoFlagsSpecified`. |
| FlagMessages.BestCandidate | src/commands/CommandFlag.h:68-70 | The scan over condition indices finds nothing exactly when no index is a candidate. Otherwise it finds a candidate whose priority is at least that of every other candidate. `Resolve` runs it with the candidates being the unsatisfied conditions that have a message. |
| FlagMessages.TitleOf | src/commands/CommandFlag.h:63-66 | An empty title means the default title; any other title replaces it. |
| FlagMessages.Resolve | src/commands/CommandFlag.h:56-74 | A custom dialog is shown exactly when some unsatisfied condition has a message. Its text, title and help page come from a highest-priority such condition. Otherwise no dialog is shown exactly when an unsatisfied condition disabled the default message, and the default dialog is shown in the remaining case. |
| FlagMessages.HigherPriorityWins | src/commands/CommandFlag.h:68-70 | Of two unsatisfied conditions with messages, the one of lower priority never supplies the dialog. |
| FlagMessages.DependsOnlyOnMissing | src/commands/CommandFlag.h:56-57 | The dialog depends only on which required conditions are unsatisfied. |
| FlagMessages.SatisfiedHasNoCandidates | src/commands/CommandFlag.h:56-57 | When nothing is missing, no condition supplies or suppresses a message. |
| Enablers.RegisterEnabler | src/commands/CommandFlag.h:119-122 | Registering an enabler appends it and leaves the earlier enablers untouched. |
| Enablers.RunEnablers | src/commands/CommandFlag.h:97-103 | Every recorded invocation belongs to an enabler whose trigger held in the project that invocation saw, and it receives the item's full required mask. Without an invocation the project is unchanged. |
| Enablers.RunEnablersStart | src/commands/CommandFlag.h:97-103 | The first invocation saw the project the run started from. |
| Enablers.RunEnablersSteps | src/commands/CommandFlag.h:97-103 | Each later invocation saw the project the previous action returned, so every recorded trigger test was made on the project as it really was at that moment. |
| Enablers.RunEnablersEnd | src/commands/CommandFlag.h:97-103 | When any action ran, the final project is what the last recorded action returned. |
| Enablers.FirstEligibleIsInvoked | src/commands/CommandFlag.h:100-103 | An enabler tried first is invoked with the full required mask exactly when its trigger holds; otherwise the run, both its final project and its trace, is the run of the rest of the plan. |
| Enablers.StrictNeverInvokes | src/commands/CommandFlag.h:100-102 | A menu item built with strict flags never invokes an enabler. |
| Enablers.NeverEligibleNeverInvoked | src/commands/CommandFlag.h:100-101 | An enabler that can make none of the required conditions true is never invoked. |
| Enablers.CheckCommand | src/commands/CommandFlag.h:97-103 | A command is enabled exactly when its required conditions hold in the final project. It is enabled without running any action when they already hold. Strict items never change the project. When the conditions do not already hold, the final project is the one the run of the enablers produces. A disabled command carries the dialog that message resolution chooses. |
| Enablers.StrictIsPlainTest | src/commands/CommandFlag.h:100-102 | With strict flags the decision is the plain test of the current conditions, and the project is unchanged. |
| Scenarios.RegisterThree | src/commands/CommandFlag.h:82-91 | Registering three conditions in order hands out bits 0, 1 and 2. |
| Scenarios.PriorityPicksStoppedMessage | src/commands/CommandFlag.h:68-70 | With messages of priority 1 and 5 both applicable, the priority-5 message is shown with the default title. |
| Scenarios.SuppressedDefaultIsSilent | src/commands/CommandFlag.h:72-74 | When only a condition without a message and with the default message disabled is unsatisfied, no dialog is shown. |
| Scenarios.EnablerSatisfiesSelection | src/commands/CommandFlag.h:97-103 | A select-all enabler whose precondition holds enables a command that needs a selection, and the final project has the selection made. |
| Scenarios.StrictSelectionStaysDisabled | src/commands/CommandFlag.h:100-102 | The same command built with strict flags stays disabled, because no enabler runs for it. |
| Scenarios.EnablerNeedsItsPrecondition | src/commands/CommandFlag.h:100-102 | An enabler whose `actualFlags` include the missing condition is not invoked for it, and the command stays disabled. |

## Readings of the header

- **Default message.** The comment on `enableDefaultMessage` (lines 72-73)
  says that a condition with the flag cleared shows no dialog when it is
  unsatisfied, provided no other unsatisfied condition has a message. One
  such condition is therefore enough to silence the default dialog
  (`FlagMessages.DefaultSuppressed`).
- **Enabler trigger.** The comment before `MenuItemEnabler` (lines 97-102)
  invokes the enabler when the item requires the second set while the
  first set (`actualFlags`) is true. A missing required condition alone is
  not enough. An enabler whose `actualFlags` contain the missing condition
  therefore never fires for it (`Scenarios.EnablerNeedsItsPrecondition`).
- **All-ones sentinel.** A comprehensive evaluation can equal
  `NoFlagsSpecified` only when all 64 positions are registered and every
  predicate holds. `FlagRegistry.EvaluationFacts` proves that the value is
  never produced while a position is free.

## Left out

- `src/LyricsWindow.h`: a GUI frame with close, timer and style handlers and an event table. It has no behaviour relevant to command flags.
- The bodies of the `ReservedCommandFlag` constructor, of `RegisteredMenuItemEnabler`, of flag evaluation and of the message dialog are not part of this model. They are modelled only as far as the declarations and comments in `CommandFlag.h` commit.
- Message text and localisation: a formatter is a function from the command name to a string. `wxString` translation, dialog display and help lookup are not modelled.
- The `std::function` thunks for `actualFlags` and `possibleFlags` become plain masks, read when the rule is tested. The thunks only defer static initialisation.
- Running out of bit positions is a registration failure (`Result`), not a process abort.
- Enabler order and count: which eligible enablers run for one command, and in what order, is the `plan` parameter. What happens to the project after `tryEnable` is the enabler's own function.
- FlagMessages.BestCandidate: the choice between candidates of equal priority is the `preferLater` parameter, because the header does not fix it. The contract promises only the highest priority.
- Predicates that throw, static-initialisation order and process lifetime are not modelled. Evaluation is synchronous, with no concurrency.
- The C++ move semantics of the `&&`-qualified setters are not modelled. Each setter is a function on values.

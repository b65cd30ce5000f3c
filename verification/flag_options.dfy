/**
  The options attached to a condition when it is registered: how to explain
  the condition to the user when it blocks a command, how it ranks against
  other blocking conditions, and whether it is cheap enough to test always.
  The record is an immutable value; each builder setter returns a copy with
  one field changed.
 */
module FlagOptions {
  import opened Wrappers

  /** The C++ `unsigned` type of `priority`: 32 bits. */
  newtype u32 = x: int | 0 <= x < 0x1_0000_0000

  /**
    Given the (translated) name of the command, produces the (translated)
    text of the dialog box explaining why the command is disabled.
   */
  type MessageFormatter = string -> string

  datatype CommandFlagOptions = CommandFlagOptions(
    /** None, or the formatter of a non-default message. */
    message: Option<MessageFormatter>,
    /** Help page of the dialog; used only when `message` is given. */
    helpPage: string,
    /** Empty, or a non-default dialog title; used only when `message` is given. */
    title: string,
    /** Higher priority is preferred when choosing which message to show. */
    priority: u32,
    /** When false, and no unsatisfied condition has a message, no dialog is shown. */
    enableDefaultMessage: bool,
    /** When true, the condition is cheap and tested on every evaluation. */
    quickTest: bool
  )

  /** The default-constructed options. */
  function Default(): (o: CommandFlagOptions)
    ensures o.message.None?
    ensures o.helpPage == "" && o.title == ""
    ensures o.priority == 0
    ensures o.enableDefaultMessage
    ensures !o.quickTest
  {
    CommandFlagOptions(None, "", "", 0, true, false)
  }

  /**
    The options built from a message formatter and an optional help page and
    title; every other field keeps its default.
   */
  function WithMessage(message: MessageFormatter, helpPage: string := "", title: string := ""): (o: CommandFlagOptions)
    ensures o.message == Some(message)
    ensures o.helpPage == helpPage && o.title == title
    ensures o.priority == Default().priority
    ensures o.enableDefaultMessage == Default().enableDefaultMessage
    ensures o.quickTest == Default().quickTest
  {
    Default().(message := Some(message), helpPage := helpPage, title := title)
  }

  /** `o.QuickTest()`: marks the condition as cheap; nothing else changes. */
  function QuickTest(o: CommandFlagOptions): (r: CommandFlagOptions)
    ensures r.quickTest
    ensures r.message == o.message && r.helpPage == o.helpPage && r.title == o.title
    ensures r.priority == o.priority && r.enableDefaultMessage == o.enableDefaultMessage
  {
    o.(quickTest := true)
  }

  /** `o.DisableDefaultMessage()`: suppresses the default dialog; nothing else changes. */
  function DisableDefaultMessage(o: CommandFlagOptions): (r: CommandFlagOptions)
    ensures !r.enableDefaultMessage
    ensures r.message == o.message && r.helpPage == o.helpPage && r.title == o.title
    ensures r.priority == o.priority && r.quickTest == o.quickTest
  {
    o.(enableDefaultMessage := false)
  }

  /** `o.Priority(p)`: sets the priority; nothing else changes. */
  function Priority(o: CommandFlagOptions, p: u32): (r: CommandFlagOptions)
    ensures r.priority == p
    ensures r.message == o.message && r.helpPage == o.helpPage && r.title == o.title
    ensures r.enableDefaultMessage == o.enableDefaultMessage && r.quickTest == o.quickTest
  {
    o.(priority := p)
  }

  /** Setters of different fields commute. */
  lemma SettersCommute(o: CommandFlagOptions, p: u32)
    ensures QuickTest(DisableDefaultMessage(o)) == DisableDefaultMessage(QuickTest(o))
    ensures QuickTest(Priority(o, p)) == Priority(QuickTest(o), p)
    ensures DisableDefaultMessage(Priority(o, p)) == Priority(DisableDefaultMessage(o), p)
  {
  }

  /** The two boolean setters are idempotent, and the last priority set wins. */
  lemma SettersIdempotent(o: CommandFlagOptions, p: u32, q: u32)
    ensures QuickTest(QuickTest(o)) == QuickTest(o)
    ensures DisableDefaultMessage(DisableDefaultMessage(o)) == DisableDefaultMessage(o)
    ensures Priority(Priority(o, p), q) == Priority(o, q)
  {
  }

  /** A setter whose field already has the target value changes nothing. */
  lemma SettersFixDefaults(o: CommandFlagOptions)
    ensures o.quickTest ==> QuickTest(o) == o
    ensures !o.enableDefaultMessage ==> DisableDefaultMessage(o) == o
    ensures Priority(o, o.priority) == o
  {
  }
}

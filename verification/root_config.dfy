/** The root policy configuration: a default mode, the forced command, the six
    category sections and the session cap, and its validation, which checks the
    default mode and then the sections in a fixed order and reports only the
    first failure. */
module RootConfig {
  import opened Errors
  import ExecutionPolicy
  import opened Categories

  /** An already-populated configuration. `maxSessions` models Go's `uint`
      field as an unbounded natural. */
  datatype Config = Config(
    defaultMode: string,
    forceCommand: string,
    env: EnvConfig,
    command: CommandConfig,
    shell: ShellConfig,
    subsystem: SubsystemConfig,
    tty: TTYConfig,
    signal: SignalConfig,
    maxSessions: nat)

  /** The order in which `Validate` visits the category sections. */
  const CategoryOrder: seq<Category> := [Env, Command, Shell, Subsystem, TTY, Signal]

  /** The position of a category in `CategoryOrder`. */
  function Rank(cat: Category): (k: nat)
    ensures k < |CategoryOrder| && CategoryOrder[k] == cat
  {
    match cat
    case Env => 0
    case Command => 1
    case Shell => 2
    case Subsystem => 3
    case TTY => 4
    case Signal => 5
  }

  /** The stored mode string of a category's section. */
  function ModeOf(c: Config, cat: Category): string
  {
    match cat
    case Env => c.env.mode
    case Command => c.command.mode
    case Shell => c.shell.mode
    case Subsystem => c.subsystem.mode
    case TTY => c.tty.mode
    case Signal => c.signal.mode
  }

  /** A category's allow list; Shell and TTY have none, which is the empty list. */
  function AllowOf(c: Config, cat: Category): (l: seq<string>)
    ensures !HasAllowList(cat) ==> l == []
  {
    match cat
    case Env => c.env.allow
    case Command => c.command.allow
    case Shell => []
    case Subsystem => c.subsystem.allow
    case TTY => []
    case Signal => c.signal.allow
  }

  /** A category's deny list; Command, Shell and TTY have none. */
  function DenyOf(c: Config, cat: Category): (l: seq<string>)
    ensures !HasDenyList(cat) ==> l == []
  {
    match cat
    case Env => c.env.deny
    case Command => []
    case Shell => []
    case Subsystem => c.subsystem.deny
    case TTY => []
    case Signal => c.signal.deny
  }

  /** Every mode of the configuration is one of the four accepted strings. */
  predicate ModesValid(c: Config)
  {
    && c.defaultMode in ExecutionPolicy.Accepted
    && forall cat :: ModeOf(c, cat) in ExecutionPolicy.Accepted
  }

  /** `ModesValid` spelled out section by section, in checking order. */
  lemma ModesValidSectionBySection(c: Config)
    ensures ModesValid(c) <==>
      && c.defaultMode in ExecutionPolicy.Accepted
      && c.env.mode in ExecutionPolicy.Accepted
      && c.command.mode in ExecutionPolicy.Accepted
      && c.shell.mode in ExecutionPolicy.Accepted
      && c.subsystem.mode in ExecutionPolicy.Accepted
      && c.tty.mode in ExecutionPolicy.Accepted
      && c.signal.mode in ExecutionPolicy.Accepted
  {
    if ModesValid(c) {
      assert ModeOf(c, Env) == c.env.mode && ModeOf(c, Command) == c.command.mode;
      assert ModeOf(c, Shell) == c.shell.mode && ModeOf(c, Subsystem) == c.subsystem.mode;
      assert ModeOf(c, TTY) == c.tty.mode && ModeOf(c, Signal) == c.signal.mode;
    } else if c.defaultMode in ExecutionPolicy.Accepted {
      var cat :| ModeOf(c, cat) !in ExecutionPolicy.Accepted;
      match cat
      case Env =>
      case Command =>
      case Shell =>
      case Subsystem =>
      case TTY =>
      case Signal =>
    }
  }

  /** `cat` holds an invalid mode and every section checked before it is valid. */
  predicate FirstInvalid(c: Config, cat: Category)
  {
    && ModeOf(c, cat) !in ExecutionPolicy.Accepted
    && forall other :: Rank(other) < Rank(cat) ==> ModeOf(c, other) in ExecutionPolicy.Accepted
  }

  /** Validates the whole configuration. It passes exactly when every mode is
      accepted, and an invalid default mode is reported before any section. */
  function Validate(c: Config): (r: Outcome)
    ensures r.Pass? <==> ModesValid(c)
    ensures c.defaultMode !in ExecutionPolicy.Accepted ==>
      r == Fail(Wrapped(DefaultModeField, InvalidMode(c.defaultMode)))
  {
    ModesValidSectionBySection(c);
    Then(Wrap(DefaultModeField, ExecutionPolicy.Validate(c.defaultMode)),
    Then(Wrap(EnvField, ValidateEnv(c.env)),
    Then(Wrap(CommandField, ValidateCommand(c.command)),
    Then(Wrap(ShellField, ValidateShell(c.shell)),
    Then(Wrap(SubsystemField, ValidateSubsystem(c.subsystem)),
    Then(Wrap(TTYField, ValidateTTY(c.tty)),
         Wrap(SignalField, ValidateSignal(c.signal))))))))
  }

  /** With a valid default mode, the first invalid section in `CategoryOrder`
      is the one reported: its mode error wrapped under "invalid mode" and then
      under the section's own label. */
  lemma ValidateReportsFirstInvalid(c: Config, cat: Category)
    requires c.defaultMode in ExecutionPolicy.Accepted
    requires FirstInvalid(c, cat)
    ensures Validate(c) == Fail(Wrapped(SectionField(cat), Wrapped(ModeField, InvalidMode(ModeOf(c, cat)))))
  {
    assert Rank(Env) == 0 && Rank(Command) == 1 && Rank(Shell) == 2;
    assert Rank(Subsystem) == 3 && Rank(TTY) == 4 && Rank(Signal) == 5;
    assert ModeOf(c, Env) == c.env.mode && ModeOf(c, Command) == c.command.mode;
    assert ModeOf(c, Shell) == c.shell.mode && ModeOf(c, Subsystem) == c.subsystem.mode;
    assert ModeOf(c, TTY) == c.tty.mode && ModeOf(c, Signal) == c.signal.mode;
  }

  /** When some section is invalid, one of them is the first, so together with
      `ValidateReportsFirstInvalid` the error of `Validate` is fixed completely. */
  lemma FirstInvalidExists(c: Config)
    requires c.defaultMode in ExecutionPolicy.Accepted
    requires !ModesValid(c)
    ensures exists cat :: FirstInvalid(c, cat)
  {
    var k := 0;
    while k < |CategoryOrder| && ModeOf(c, CategoryOrder[k]) in ExecutionPolicy.Accepted
      invariant k <= |CategoryOrder|
      invariant forall j :: 0 <= j < k ==> ModeOf(c, CategoryOrder[j]) in ExecutionPolicy.Accepted
    {
      k := k + 1;
    }
    if k == |CategoryOrder| {
      forall cat
        ensures ModeOf(c, cat) in ExecutionPolicy.Accepted
      {
        assert CategoryOrder[Rank(cat)] == cat;
      }
      assert false;
    } else {
      var cat := CategoryOrder[k];
      assert Rank(cat) == k;
      forall other | Rank(other) < Rank(cat)
        ensures ModeOf(c, other) in ExecutionPolicy.Accepted
      {
        assert CategoryOrder[Rank(other)] == other;
      }
      assert FirstInvalid(c, cat);
    }
  }

  /** Short-circuit order: with both the command and the shell section invalid,
      the command section is the one reported. */
  lemma CommandReportedBeforeShell(c: Config)
    requires c.defaultMode in ExecutionPolicy.Accepted && c.env.mode in ExecutionPolicy.Accepted
    requires c.command.mode !in ExecutionPolicy.Accepted
    requires c.shell.mode !in ExecutionPolicy.Accepted
    ensures Validate(c) == Fail(Wrapped(CommandField, Wrapped(ModeField, InvalidMode(c.command.mode))))
  {
  }

  /** Validation depends on the modes alone: the lists, the forced command and
      the session cap never change its result. */
  lemma ValidateDependsOnlyOnModes(c: Config, d: Config)
    requires c.defaultMode == d.defaultMode
    requires forall cat :: ModeOf(c, cat) == ModeOf(d, cat)
    ensures Validate(c) == Validate(d)
  {
    assert ModeOf(c, Env) == ModeOf(d, Env);
    assert ModeOf(c, Command) == ModeOf(d, Command);
    assert ModeOf(c, Shell) == ModeOf(d, Shell);
    assert ModeOf(c, Subsystem) == ModeOf(d, Subsystem);
    assert ModeOf(c, TTY) == ModeOf(d, TTY);
    assert ModeOf(c, Signal) == ModeOf(d, Signal);
  }

  /** A configuration that passed validation still passes after any edit that
      leaves the modes alone: new lists, forced command or session cap. */
  lemma ValidStaysValid(c: Config, d: Config)
    requires Validate(c).Pass?
    requires d.defaultMode == c.defaultMode
    requires forall cat :: ModeOf(d, cat) == ModeOf(c, cat)
    ensures Validate(d).Pass?
  {
    ValidateDependsOnlyOnModes(c, d);
  }

  /** The error a failing section is reported with: its mode error, wrapped
      under "invalid mode" and then under the section's own label. */
  function SectionError(cat: Category, mode: string): Err
  {
    Wrapped(SectionField(cat), Wrapped(ModeField, InvalidMode(mode)))
  }

  /** Distinct section failures print distinct messages: the text names the
      section and the offending mode string. */
  lemma SectionMessagesDiffer(a: Category, b: Category, va: string, vb: string)
    ensures Render(SectionError(a, va)) == Render(SectionError(b, vb)) ==> a == b && va == vb
  {
    if Render(SectionError(a, va)) == Render(SectionError(b, vb)) {
      RenderIdentifiesError(SectionError(a, va), SectionError(b, vb));
      SectionFieldInjective(a, b);
    }
  }

  /** The message of a section failure names the section: two configurations
      whose validation messages are the same text failed in the same section. */
  lemma MessageNamesFailingSection(c: Config, d: Config, a: Category, b: Category)
    requires c.defaultMode in ExecutionPolicy.Accepted && d.defaultMode in ExecutionPolicy.Accepted
    requires FirstInvalid(c, a) && FirstInvalid(d, b)
    ensures Validate(c).Fail? && Validate(d).Fail?
    ensures Render(Validate(c).error) == Render(Validate(d).error) ==> a == b && ModeOf(c, a) == ModeOf(d, b)
  {
    ValidateReportsFirstInvalid(c, a);
    ValidateReportsFirstInvalid(d, b);
    SectionMessagesDiffer(a, b, ModeOf(c, a), ModeOf(d, b));
  }

  /** Unwrapping the error of an invalid default mode reaches that mode string. */
  lemma RootCauseOfInvalidDefault(c: Config)
    requires c.defaultMode !in ExecutionPolicy.Accepted
    ensures Validate(c).Fail?
    ensures RootCause(Validate(c).error) == InvalidMode(c.defaultMode)
  {
  }

  /** Unwrapping the error of a failing section reaches that section's mode string. */
  lemma RootCauseOfFirstInvalid(c: Config, cat: Category)
    requires c.defaultMode in ExecutionPolicy.Accepted
    requires FirstInvalid(c, cat)
    ensures Validate(c).Fail?
    ensures RootCause(Validate(c).error) == InvalidMode(ModeOf(c, cat))
  {
    ValidateReportsFirstInvalid(c, cat);
  }

  /** Whatever fails, the root cause of the error is an offending mode of the
      configuration: the default mode or some section's mode, and not accepted. */
  lemma RootCauseIsOffendingMode(c: Config)
    requires Validate(c).Fail?
    ensures RootCause(Validate(c).error).value !in ExecutionPolicy.Accepted
    ensures RootCause(Validate(c).error).value == c.defaultMode
         || exists cat :: RootCause(Validate(c).error).value == ModeOf(c, cat)
  {
    if c.defaultMode !in ExecutionPolicy.Accepted {
      RootCauseOfInvalidDefault(c);
    } else {
      FirstInvalidExists(c);
      var cat :| FirstInvalid(c, cat);
      RootCauseOfFirstInvalid(c, cat);
    }
  }
}

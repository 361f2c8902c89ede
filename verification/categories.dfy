/** The six per-category policy sections. Each pairs a mode string with the
    exact-match lists its category supports: Env, Subsystem and Signal have
    Allow and Deny, Command has only Allow, Shell and TTY have neither. A nil
    and an empty list are the same empty sequence here. */
module Categories {
  import opened Errors
  import ExecutionPolicy

  /** The six kinds of SSH request that carry their own policy section. */
  datatype Category = Env | Command | Shell | Subsystem | TTY | Signal

  /** The section a label names, if it names one: the default-mode and the
      "invalid mode" labels name none. */
  function LabelledSection(l: Label): ExecutionPolicy.Option<Category>
  {
    match l
    case EnvField => ExecutionPolicy.Some(Env)
    case CommandField => ExecutionPolicy.Some(Command)
    case ShellField => ExecutionPolicy.Some(Shell)
    case SubsystemField => ExecutionPolicy.Some(Subsystem)
    case TTYField => ExecutionPolicy.Some(TTY)
    case SignalField => ExecutionPolicy.Some(Signal)
    case DefaultModeField => ExecutionPolicy.None
    case ModeField => ExecutionPolicy.None
  }

  /** The label the root configuration puts on a failing section (config.go:43-59).
      Each section has a label of its own, so the label names the section. */
  function SectionField(cat: Category): (l: Label)
    ensures l != DefaultModeField && l != ModeField
    ensures LabelledSection(l) == ExecutionPolicy.Some(cat)
  {
    match cat
    case Env => EnvField
    case Command => CommandField
    case Shell => ShellField
    case Subsystem => SubsystemField
    case TTY => TTYField
    case Signal => SignalField
  }

  /** Distinct sections are reported under distinct labels. */
  lemma SectionFieldInjective(a: Category, b: Category)
    requires SectionField(a) == SectionField(b)
    ensures a == b
  {
    assert LabelledSection(SectionField(a)) == LabelledSection(SectionField(b));
  }

  /** Whether a category's section has an `Allow` field. */
  predicate HasAllowList(cat: Category)
  {
    cat != Shell && cat != TTY
  }

  /** Whether a category's section has a `Deny` field. */
  predicate HasDenyList(cat: Category)
  {
    cat != Command && cat != Shell && cat != TTY
  }

  datatype EnvConfig = EnvConfig(mode: string, allow: seq<string>, deny: seq<string>)
  datatype CommandConfig = CommandConfig(mode: string, allow: seq<string>)
  datatype ShellConfig = ShellConfig(mode: string)
  datatype SubsystemConfig = SubsystemConfig(mode: string, allow: seq<string>, deny: seq<string>)
  datatype TTYConfig = TTYConfig(mode: string)
  datatype SignalConfig = SignalConfig(mode: string, allow: seq<string>, deny: seq<string>)

  /** The check every section runs: validate the mode and wrap its error under
      the "invalid mode" label. */
  function CheckMode(mode: string): (r: Outcome)
    ensures r.Pass? <==> mode in ExecutionPolicy.Accepted
    ensures r.Fail? ==> r.error == Wrapped(ModeField, InvalidMode(mode))
  {
    Wrap(ModeField, ExecutionPolicy.Validate(mode))
  }

  function ValidateEnv(e: EnvConfig): (r: Outcome)
    ensures r.Pass? <==> e.mode in ExecutionPolicy.Accepted
    ensures r.Fail? ==> r.error == Wrapped(ModeField, InvalidMode(e.mode))
  {
    CheckMode(e.mode)
  }

  function ValidateCommand(c: CommandConfig): (r: Outcome)
    ensures r.Pass? <==> c.mode in ExecutionPolicy.Accepted
    ensures r.Fail? ==> r.error == Wrapped(ModeField, InvalidMode(c.mode))
  {
    CheckMode(c.mode)
  }

  function ValidateShell(s: ShellConfig): (r: Outcome)
    ensures r.Pass? <==> s.mode in ExecutionPolicy.Accepted
    ensures r.Fail? ==> r.error == Wrapped(ModeField, InvalidMode(s.mode))
  {
    CheckMode(s.mode)
  }

  function ValidateSubsystem(s: SubsystemConfig): (r: Outcome)
    ensures r.Pass? <==> s.mode in ExecutionPolicy.Accepted
    ensures r.Fail? ==> r.error == Wrapped(ModeField, InvalidMode(s.mode))
  {
    CheckMode(s.mode)
  }

  function ValidateTTY(t: TTYConfig): (r: Outcome)
    ensures r.Pass? <==> t.mode in ExecutionPolicy.Accepted
    ensures r.Fail? ==> r.error == Wrapped(ModeField, InvalidMode(t.mode))
  {
    CheckMode(t.mode)
  }

  function ValidateSignal(s: SignalConfig): (r: Outcome)
    ensures r.Pass? <==> s.mode in ExecutionPolicy.Accepted
    ensures r.Fail? ==> r.error == Wrapped(ModeField, InvalidMode(s.mode))
  {
    CheckMode(s.mode)
  }

  /** The lists are not validated: any contents, with any mode, give the same
      outcome as the mode alone. */
  lemma ListsNeverAffectValidation(e: EnvConfig, allow: seq<string>, deny: seq<string>)
    ensures ValidateEnv(e.(allow := allow, deny := deny)) == ValidateEnv(e)
    ensures ValidateSubsystem(SubsystemConfig(e.mode, allow, deny)) == ValidateEnv(e)
    ensures ValidateSignal(SignalConfig(e.mode, allow, deny)) == ValidateEnv(e)
    ensures ValidateCommand(CommandConfig(e.mode, allow)) == ValidateEnv(e)
  {
  }
}

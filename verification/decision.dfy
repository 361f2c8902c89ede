/** Admission decisions. The configuration layer has no admission function of
    its own; the rules here are the ones its doc comments state for the mode
    constants (config.go:170-183) and the list fields (config.go:68-73, 88-89,
    119-123, 152-155):
    - an unconfigured mode falls back to the default mode, and an unconfigured
      default mode to "enable" (the documented "allow");
    - enable admits whatever the deny list does not name;
    - filter admits only what the allow list names, so an empty or missing
      allow list behaves like disable;
    - disable admits nothing and ignores both lists;
    - a deny list takes effect whenever the mode is not disable;
    - list entries match by exact string equality. */
module Decision {
  import opened Errors
  import opened ExecutionPolicy
  import opened Categories
  import RootConfig

  datatype Verdict = Admit | Deny

  /** The mode that governs a request: the section's own mode, else the
      default mode, else enable. */
  function EffectiveMode(own: Mode, fallback: Mode): (r: Mode)
    ensures r != Unconfigured
    ensures own != Unconfigured ==> r == own
    ensures own == Unconfigured && fallback != Unconfigured ==> r == fallback
    ensures own == Unconfigured && fallback == Unconfigured ==> r == Enable
  {
    if own != Unconfigured then own
    else if fallback != Unconfigured then fallback
    else Enable
  }

  /** Resolution is idempotent: an effective mode resolves to itself whatever
      the fallback. */
  lemma EffectiveModeIdempotent(own: Mode, fallback: Mode, other: Mode)
    ensures EffectiveMode(EffectiveMode(own, fallback), other) == EffectiveMode(own, fallback)
  {
  }

  /** The admission rule for one candidate under an already resolved mode. */
  function Decide(mode: Mode, allow: seq<string>, deny: seq<string>, candidate: string): (r: Verdict)
    requires mode != Unconfigured
    ensures r == Admit ==> mode != Disable
    ensures r == Admit ==> candidate !in deny
    ensures r == Admit && mode == Filter ==> candidate in allow
    ensures mode == Enable && candidate !in deny ==> r == Admit
    ensures mode == Filter && candidate in allow && candidate !in deny ==> r == Admit
  {
    match mode
    case Enable => if candidate in deny then Deny else Admit
    case Filter => if candidate in allow && candidate !in deny then Admit else Deny
    case Disable => Deny
  }

  /** Whether `candidate` is literally one of the entries of `list`. */
  method Listed(list: seq<string>, candidate: string) returns (found: bool)
    ensures found <==> candidate in list
  {
    found := false;
    var i := 0;
    while i < |list|
      invariant i <= |list|
      invariant candidate !in list[..i]
    {
      if list[i] == candidate {
        found := true;
        return;
      }
      i := i + 1;
    }
    assert list[..i] == list;
  }

  /** Decides a request by scanning the lists, consulting the deny list first
      and the allow list only under filter. */
  method Admits(mode: Mode, allow: seq<string>, deny: seq<string>, candidate: string) returns (v: Verdict)
    requires mode != Unconfigured
    ensures v == Decide(mode, allow, deny, candidate)
  {
    if mode == Disable {
      return Deny;
    }
    var denied := Listed(deny, candidate);
    if denied {
      return Deny;
    }
    if mode == Enable {
      return Admit;
    }
    var allowed := Listed(allow, candidate);
    v := if allowed then Admit else Deny;
  }

  /** Disable denies every candidate, whatever the lists hold. */
  lemma DisableIgnoresLists(allow: seq<string>, deny: seq<string>, candidate: string)
    ensures Decide(Disable, allow, deny, candidate) == Deny
  {
  }

  /** Filter with an empty allow list behaves exactly like disable. */
  lemma FilterWithoutAllowIsDisable(allow: seq<string>, deny: seq<string>, candidate: string)
    ensures Decide(Filter, [], deny, candidate) == Decide(Disable, allow, deny, candidate)
  {
  }

  /** Enable never consults the allow list. */
  lemma EnableIgnoresAllow(allow: seq<string>, allow': seq<string>, deny: seq<string>, candidate: string)
    ensures Decide(Enable, allow, deny, candidate) == Decide(Enable, allow', deny, candidate)
  {
  }

  /** Exact matching: the verdict depends on the lists only through whether
      the candidate itself is an entry, so no other entry (a prefix, a case
      variant, a pattern) can change it. */
  lemma OnlyExactEntriesMatter(mode: Mode, allow: seq<string>, deny: seq<string>,
                               allow': seq<string>, deny': seq<string>, candidate: string)
    requires mode != Unconfigured
    requires candidate in allow <==> candidate in allow'
    requires candidate in deny <==> candidate in deny'
    ensures Decide(mode, allow, deny, candidate) == Decide(mode, allow', deny', candidate)
  {
  }

  /** Growing the deny list can only turn admissions into denials. */
  lemma DenyListMonotone(mode: Mode, allow: seq<string>, deny: seq<string>, deny': seq<string>, candidate: string)
    requires mode != Unconfigured
    requires forall x :: x in deny ==> x in deny'
    ensures Decide(mode, allow, deny', candidate) == Admit ==> Decide(mode, allow, deny, candidate) == Admit
  {
  }

  /** Growing the allow list can only turn denials into admissions. */
  lemma AllowListMonotone(mode: Mode, allow: seq<string>, allow': seq<string>, deny: seq<string>, candidate: string)
    requires mode != Unconfigured
    requires forall x :: x in allow ==> x in allow'
    ensures Decide(mode, allow, deny, candidate) == Admit ==> Decide(mode, allow', deny, candidate) == Admit
  {
  }

  /** How restrictive a resolved mode is: enable, then filter, then disable.
      Unconfigured is never a resolved mode, and every caller excludes it;
      its rank 0 is arbitrary. */
  function Strictness(mode: Mode): nat
  {
    match mode
    case Unconfigured => 0
    case Enable => 0
    case Filter => 1
    case Disable => 2
  }

  /** A stricter mode never admits what a laxer one denies, for the same lists. */
  lemma StricterModeAdmitsLess(lax: Mode, strict: Mode, allow: seq<string>, deny: seq<string>, candidate: string)
    requires lax != Unconfigured && strict != Unconfigured
    requires Strictness(lax) <= Strictness(strict)
    ensures Decide(strict, allow, deny, candidate) == Admit ==> Decide(lax, allow, deny, candidate) == Admit
  {
  }

  /** The documented examples of exact, case-sensitive matching. */
  lemma ExactMatchExamples()
    ensures Decide(Filter, ["ls"], [], "ls") == Admit
    ensures Decide(Filter, ["ls"], [], "ls -la") == Deny
    ensures Decide(Filter, ["ls"], [], "LS") == Deny
    ensures Decide(Enable, [], ["FOO"], "FOO") == Deny
    ensures Decide(Enable, [], ["FOO"], "foo") == Admit
  {
    assert "ls -la" != "ls";
    assert "LS" != "ls";
    assert "foo" != "FOO";
  }

  /** The mode governing category `cat` of a validated configuration. */
  function Resolve(c: RootConfig.Config, cat: Category): (m: Mode)
    requires RootConfig.Validate(c).Pass?
    ensures m != Unconfigured
    ensures RootConfig.ModeOf(c, cat) != UnconfiguredText ==> Text(m) == RootConfig.ModeOf(c, cat)
    ensures RootConfig.ModeOf(c, cat) == UnconfiguredText && c.defaultMode != UnconfiguredText ==>
      Text(m) == c.defaultMode
    ensures RootConfig.ModeOf(c, cat) == UnconfiguredText && c.defaultMode == UnconfiguredText ==>
      m == Enable
  {
    assert RootConfig.ModeOf(c, cat) in Accepted;
    EffectiveMode(ParseMode(RootConfig.ModeOf(c, cat)).value, ParseMode(c.defaultMode).value)
  }

  /** The verdict on a request of category `cat` naming `candidate` (a variable
      name, a command line, a subsystem or signal name), under a validated
      configuration. */
  function DecideRequest(c: RootConfig.Config, cat: Category, candidate: string): (r: Verdict)
    requires RootConfig.Validate(c).Pass?
    ensures r == Admit ==> Resolve(c, cat) != Disable
    ensures r == Admit ==> candidate !in RootConfig.DenyOf(c, cat)
    ensures r == Admit && Resolve(c, cat) == Filter ==> candidate in RootConfig.AllowOf(c, cat)
    ensures Resolve(c, cat) == Enable && candidate !in RootConfig.DenyOf(c, cat) ==> r == Admit
    ensures (Resolve(c, cat) == Filter && candidate in RootConfig.AllowOf(c, cat)
             && candidate !in RootConfig.DenyOf(c, cat)) ==> r == Admit
  {
    Decide(Resolve(c, cat), RootConfig.AllowOf(c, cat), RootConfig.DenyOf(c, cat), candidate)
  }

  /** Shell and TTY sections have no allow list, so filter denies them all. */
  lemma FilterDeniesListlessCategories(c: RootConfig.Config, cat: Category, candidate: string)
    requires RootConfig.Validate(c).Pass?
    requires !HasAllowList(cat)
    requires Resolve(c, cat) == Filter
    ensures DecideRequest(c, cat, candidate) == Deny
  {
  }

  /** Command, Shell and TTY sections have no deny list, so enable admits them all. */
  lemma EnableAdmitsDenylessCategories(c: RootConfig.Config, cat: Category, candidate: string)
    requires RootConfig.Validate(c).Pass?
    requires !HasDenyList(cat)
    requires Resolve(c, cat) == Enable
    ensures DecideRequest(c, cat, candidate) == Admit
  {
  }

  /** With nothing configured, a request is admitted exactly when the deny list
      does not name it. */
  lemma UnconfiguredAdmitsUnlessDenied(c: RootConfig.Config, cat: Category, candidate: string)
    requires c.defaultMode == UnconfiguredText && RootConfig.ModeOf(c, cat) == UnconfiguredText
    requires RootConfig.Validate(c).Pass?
    ensures DecideRequest(c, cat, candidate) == Admit <==> candidate !in RootConfig.DenyOf(c, cat)
  {
  }

  /** A "disable" default closes every section left unconfigured. */
  lemma DisabledDefaultDeniesUnconfigured(c: RootConfig.Config, cat: Category, candidate: string)
    requires c.defaultMode == DisableText && RootConfig.ModeOf(c, cat) == UnconfiguredText
    requires RootConfig.Validate(c).Pass?
    ensures DecideRequest(c, cat, candidate) == Deny
  {
    TextInjective(Resolve(c, cat), Disable);
  }
}

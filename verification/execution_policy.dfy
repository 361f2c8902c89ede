/** The execution policy of one request kind: a mode string drawn from a closed
    set of four, and the validator that rejects every other string. */
module ExecutionPolicy {
  import opened Errors

  /** The four modes. The configuration stores them as strings; `Mode` is the
      parsed form the decision rules work on. */
  datatype Mode = Unconfigured | Enable | Filter | Disable

  const UnconfiguredText: string := ""
  const EnableText: string := "enable"
  const FilterText: string := "filter"
  const DisableText: string := "disable"

  /** The closed set of mode strings the configuration may hold. */
  const Accepted: set<string> := {UnconfiguredText, EnableText, FilterText, DisableText}

  /** The configuration spelling of each mode. */
  function Text(m: Mode): (s: string)
    ensures s in Accepted
  {
    match m
    case Unconfigured => UnconfiguredText
    case Enable => EnableText
    case Filter => FilterText
    case Disable => DisableText
  }

  /** Checks a stored mode string: one of the four spellings passes, anything
      else fails with an error carrying the string verbatim. Comparison is by
      exact string equality, so case variants are rejected. */
  function Validate(s: string): (r: Outcome)
    ensures r.Pass? <==> s in Accepted
    ensures r.Fail? ==> r.error == InvalidMode(s)
  {
    if s == UnconfiguredText || s == EnableText || s == FilterText || s == DisableText
    then Pass
    else Fail(InvalidMode(s))
  }

  datatype Option<T> = None | Some(value: T)

  /** Reads a stored mode string back as a `Mode`; defined exactly on the
      strings `Validate` accepts. */
  function ParseMode(s: string): (r: Option<Mode>)
    ensures r.Some? <==> Validate(s).Pass?
    ensures r.Some? ==> Text(r.value) == s
  {
    if s == UnconfiguredText then Some(Unconfigured)
    else if s == EnableText then Some(Enable)
    else if s == FilterText then Some(Filter)
    else if s == DisableText then Some(Disable)
    else None
  }

  /** Parsing the spelling of a mode gives the mode back. */
  lemma ParseText(m: Mode)
    ensures ParseMode(Text(m)) == Some(m)
  {
  }

  /** `Text` is one-to-one: distinct modes have distinct spellings. */
  lemma TextInjective(m: Mode, n: Mode)
    ensures Text(m) == Text(n) ==> m == n
  {
    ParseText(m);
    ParseText(n);
  }

  /** The `default:"allow"` tag on the root default mode (config.go:10) names a
      string outside the accepted set: applied literally, validation rejects it. */
  lemma DefaultTagRejected()
    ensures Validate("allow") == Fail(InvalidMode("allow"))
  {
  }

  /** Matching is case-sensitive: a capitalised spelling is not a mode. */
  lemma CaseVariantsRejected()
    ensures Validate("Enable").Fail? && Validate("FILTER").Fail? && Validate("Disable").Fail?
  {
  }
}

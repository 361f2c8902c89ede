# SSH request policy configuration, modelled in Dafny

This project models the policy configuration of an SSH server's per-request
authorisation (`config.go`, package `security`). The configuration decides, for
six kinds of request (environment variable assignment, command execution, shell,
subsystem, TTY allocation and signal forwarding), whether a client may go ahead.

The model has three layers, as the source does:

- **Execution policy** (`execution_policy.dfy`). A mode is stored as a string,
  and only `""` (unconfigured), `"enable"`, `"filter"` and `"disable"` are
  accepted. `Validate` fails on any other string with an `InvalidMode` error
  that carries the string verbatim. `ParseMode` and `Text` convert between the
  stored string and the closed `Mode` datatype, and they round-trip.
- **Category sections** (`categories.dfy`). There is one record per category,
  with the lists that category has: Env, Subsystem and Signal have `allow` and
  `deny`, Command has only `allow`, and Shell and TTY have neither. Each
  section's validation checks its mode and wraps the failure under "invalid
  mode". The lists are never validated.
- **Root configuration** (`root_config.dfy`). It holds the default mode, the
  forced command, the six sections and the session cap. `Validate` checks the
  default mode first. It then checks Env, Command, Shell, Subsystem, TTY and
  Signal in that order, stops at the first failure and wraps it under that
  section's label.

Errors (`errors.dfy`) are a chain of data, not formatted text. An `InvalidMode`
leaf is wrapped by one `Wrapped(field, cause)` node per `%w`. `Render` rebuilds
the text that `fmt.Errorf` would produce from the chain. `RenderShowsRootValue`
shows that the offending mode string appears verbatim in that text, however
deeply it is wrapped. `RenderIdentifiesError` shows that the text determines
the whole chain. `RootCause` unwraps to the leaf, and for a failed validation
the leaf is the offending mode of the configuration.

The source has no admission function. Its doc comments state the rules, and
`decision.dfy` turns them into pure functions:

- `EffectiveMode`: a section's own mode, else the default mode, else enable.
- `Decide`: enable admits whatever the deny list does not name. Filter admits
  only what the allow list names, so an empty or missing allow list behaves
  like disable. Disable admits nothing and ignores both lists.
- `Listed` and `Admits`: an executable list scan, proved to agree with `Decide`.
- `DecideRequest`: applies `Decide` to one category of a validated
  configuration.

The comments on the `Deny` fields (config.go:71-73, 122, 154) say the deny list
takes effect whenever the mode is not disable. So under filter, a candidate on
both lists is denied. A reading in which filter consults the allow list alone
is not followed. Those three comments begin "Allow takes effect", but they
document the `Deny` fields, and the model reads them that way.

The struct tag `default:"allow"` on `DefaultMode` (config.go:10) names a
string outside the accepted set. If the tag were applied literally, validation
would reject the configuration (`ExecutionPolicy.DefaultTagRejected`). The
comment on the unconfigured mode (config.go:170-171) says the global default is
"allow", and the model reads this as enable.

## Model

| member | source | states |
|---|---|---|
| `Errors.Wrap` | config.go:78-80 | wrapping keeps pass/fail unchanged and puts the cause under the given label unchanged |
| `Errors.Then` | config.go:39-61 | a chain of checks passes only if both steps pass. A failing first step is returned unchanged, and after a passing first step the next step's outcome is returned unchanged |
| `Errors.RootCause` | config.go:194 | unwrapping any validation error always ends at an `InvalidMode` leaf |
| `Errors.Prefix` | config.go:41-79 | every label's message prefix begins with "invalid ": the seven root labels at lines 41-59 and the "invalid mode" wrapper at line 79 (repeated at 95, 109, 128, 142, 160) |
| `Errors.Render` | config.go:41-194 | a rendered message opens with the outermost layer's text (the leaf's "invalid mode: " or the label's prefix and "("), so the failing field is named first, and a wrapped message ends with ")" |
| `Errors.RenderIdentifiesError` | config.go:41-59 | two errors with the same rendered message are the same error: the message fixes every label in the chain and the offending value |
| `Errors.RenderShowsRootValue` | config.go:41-59 | the rendered message of any wrapped error contains the offending mode string verbatim |
| `Errors.RenderClosesEveryLayer` | config.go:41-59 | each layer of `%w` wrapping adds one closing parenthesis at the end of the message |
| `Categories.SectionField` | config.go:43-59 | a category section is reported under its own section label, never the default-mode or "invalid mode" label: the label reads back as exactly that section |
| `Categories.SectionFieldInjective` | config.go:43-59 | distinct sections are reported under distinct labels |
| `ExecutionPolicy.Text` | config.go:169-184 | every mode's configuration spelling is in the accepted set |
| `ExecutionPolicy.Validate` | config.go:187-197 | a mode string passes exactly when it is one of the four accepted strings, and otherwise fails with `InvalidMode` carrying the string verbatim |
| `ExecutionPolicy.ParseMode` | config.go:169-197 | parsing succeeds exactly when validation passes, and what it returns is spelled back as the input |
| `ExecutionPolicy.ParseText` | config.go:169-184 | parsing a mode's spelling returns that mode |
| `ExecutionPolicy.TextInjective` | config.go:169-184 | distinct modes have distinct spellings |
| `ExecutionPolicy.DefaultTagRejected` | config.go:10 | the default-tag value "allow" fails validation |
| `ExecutionPolicy.CaseVariantsRejected` | config.go:188-194 | capitalised spellings such as "Enable" fail validation |
| `Categories.CheckMode` | config.go:78-81 | a section's mode check fails exactly on a non-accepted mode, with the mode error wrapped under "invalid mode" |
| `Categories.ValidateEnv` | config.go:77-82 | the Env section fails if and only if its mode fails, and the error is the wrapped mode error |
| `Categories.ValidateCommand` | config.go:94-99 | the Command section fails if and only if its mode fails, and the error is the wrapped mode error |
| `Categories.ValidateShell` | config.go:108-113 | the Shell section fails if and only if its mode fails, and the error is the wrapped mode error |
| `Categories.ValidateSubsystem` | config.go:127-132 | the Subsystem section fails if and only if its mode fails, and the error is the wrapped mode error |
| `Categories.ValidateTTY` | config.go:141-146 | the TTY section fails if and only if its mode fails, and the error is the wrapped mode error |
| `Categories.ValidateSignal` | config.go:159-164 | the Signal section fails if and only if its mode fails, and the error is the wrapped mode error |
| `Categories.ListsNeverAffectValidation` | config.go:65-82 | replacing a section's allow and deny lists never changes its validation result |
| `RootConfig.Rank` | config.go:43-60 | each category has a position in the fixed order in which the sections are checked |
| `RootConfig.ModesValidSectionBySection` | config.go:39-62 | "every mode is accepted" is the same as the seven per-field checks that `Validate` performs |
| `RootConfig.Validate` | config.go:39-62 | the configuration passes exactly when the default mode and all six section modes are accepted, and an invalid default mode is reported before any section |
| `RootConfig.ValidateReportsFirstInvalid` | config.go:43-60 | with a valid default mode, the first invalid section in the fixed order is reported, its mode error wrapped under "invalid mode" and then under the section's label |
| `RootConfig.FirstInvalidExists` | config.go:43-60 | when the default mode is valid and some section mode is not, there is a first invalid section in the order |
| `RootConfig.CommandReportedBeforeShell` | config.go:46-51 | when both the command and shell modes are invalid, the command label is reported |
| `RootConfig.SectionMessagesDiffer` | config.go:43-59 | two section failures print the same message only when they are the same section with the same offending mode string |
| `RootConfig.MessageNamesFailingSection` | config.go:43-59 | when a section fails, the validation message names it: two configurations whose messages are the same text failed in the same section, with the same offending mode string |
| `RootConfig.ValidateDependsOnlyOnModes` | config.go:39-62 | two configurations with the same modes have the same validation result, whatever their lists, forced command or session cap |
| `RootConfig.ValidStaysValid` | config.go:7-62 | a valid configuration stays valid after any edit that keeps its seven modes. Lists, the forced command and the session cap may change arbitrarily |
| `RootConfig.RootCauseOfInvalidDefault` | config.go:40-42 | with an invalid default mode, unwrapping the validation error reaches `InvalidMode` of that mode string |
| `RootConfig.RootCauseOfFirstInvalid` | config.go:43-60 | with a valid default mode, unwrapping the validation error reaches `InvalidMode` of the first invalid section's mode string |
| `RootConfig.RootCauseIsOffendingMode` | config.go:39-62 | whenever validation fails, the root cause carries a mode string of the configuration that is not accepted, either the default mode or some section's mode |
| `Decision.EffectiveMode` | config.go:170-172 | the effective mode is never unconfigured. It is the section's own mode when that is set, else the default mode, else enable |
| `Decision.EffectiveModeIdempotent` | config.go:170-172 | resolving an effective mode again leaves it unchanged |
| `Decision.Decide` | config.go:174-183 | disable never admits, and a deny-listed candidate is never admitted. Filter admits only allow-listed candidates. Enable admits every candidate the deny list does not name, and filter admits every allow-listed candidate the deny list does not name |
| `Decision.Listed` | config.go:88-89 | a list scan reports a match exactly when the candidate is equal to one of the entries |
| `Decision.Admits` | config.go:174-183 | deciding by scanning the lists gives the same verdict as `Decide` |
| `Decision.DisableIgnoresLists` | config.go:182-183 | disable denies every candidate, whatever the lists hold |
| `Decision.FilterWithoutAllowIsDisable` | config.go:178-180 | filter with an empty allow list gives the same verdict as disable |
| `Decision.EnableIgnoresAllow` | config.go:174-176 | under enable, the allow list has no effect |
| `Decision.OnlyExactEntriesMatter` | config.go:88-89 | the verdict depends on the lists only through whether the candidate itself is an entry |
| `Decision.DenyListMonotone` | config.go:71-73 | adding deny entries never turns a denial into an admission |
| `Decision.AllowListMonotone` | config.go:68-70 | adding allow entries never turns an admission into a denial |
| `Decision.StricterModeAdmitsLess` | config.go:174-183 | with the same lists, whatever disable admits filter admits, and whatever filter admits enable admits |
| `Decision.ExactMatchExamples` | config.go:88-89 | with allow ["ls"], "ls" is admitted but "ls -la" and "LS" are not. With deny ["FOO"], "FOO" is denied and "foo" is admitted |
| `Decision.Resolve` | config.go:8-10 | in a validated configuration, a section's effective mode is its own mode string if set, else the default mode string, else enable |
| `Decision.DecideRequest` | config.go:19-32 | a request is admitted only if its category's effective mode is not disable, the category's deny list does not name it, and under filter its allow list does. Conversely, enable admits every candidate the deny list does not name, and filter admits every allow-listed candidate the deny list does not name |
| `Decision.FilterDeniesListlessCategories` | config.go:101-105 | a category without an `Allow` field (Shell, TTY) denies every request under filter |
| `Decision.EnableAdmitsDenylessCategories` | config.go:84-91 | a category without a `Deny` field (Command, Shell, TTY) admits every request under enable |
| `Decision.UnconfiguredAdmitsUnlessDenied` | config.go:170-172 | with both the section and default modes unconfigured, a request is admitted exactly when the deny list does not name it |
| `Decision.DisabledDefaultDeniesUnconfigured` | config.go:8-10 | a "disable" default denies every request in a section whose mode is unconfigured |

## Left out

- ForceCommand substitution: the source has only the field and a comment about
  `SSH_ORIGINAL_COMMAND` and about turning subsystem requests into exec
  requests (config.go:12-17). The substitution happens in backend code that is
  not part of this model. The field is kept but has no operation.
- MaxSessions enforcement: the source has only the field (config.go:34-35).
  The per-connection session counter is transport state with concurrency. The
  field is kept as a `nat`, so Go's `uint` width is not modelled.
- JSON/YAML struct tags and deserialisation: a configuration is modelled as an
  already-populated value. Only the oddity of the `default:"allow"` tag is
  recorded.
- nil versus empty `[]string`: both are the empty sequence, and the source
  treats them the same.
- Concurrent reads of the configuration: everything here is an immutable value.
- Byte strings: Go's `string` is a sequence of bytes, and both the mode switch
  (config.go:188-192) and list matching (config.go:88-89) compare bytes. Here a
  string is a sequence of Unicode characters. The two agree on valid UTF-8, but a
  Go string holding invalid UTF-8 has no counterpart in the model.

/** The error values produced by policy validation.

    Validation errors in the source are built with `fmt.Errorf` and `%w`, so each
    layer wraps the error of the layer below it. The chain is kept here as data:
    an `InvalidMode` leaf carrying the offending mode string verbatim, wrapped by
    one `Wrapped` node per layer, each naming the configuration field that failed.
 */
module Errors {

  /** The field named by one layer of wrapping. `ModeField` is the "invalid mode"
      wrapper a category section puts around its mode error; the others are the
      labels the root configuration puts around a failing field or section. */
  datatype Label =
    | DefaultModeField | EnvField | CommandField | ShellField
    | SubsystemField | TTYField | SignalField | ModeField

  datatype Err = InvalidMode(value: string) | Wrapped(field: Label, cause: Err)

  /** The outcome of a validation: Go's `nil` error is `Pass`. */
  datatype Outcome = Pass | Fail(error: Err)

  /** Wraps the failure of `o`, if any, under `field`; a pass stays a pass. */
  function Wrap(field: Label, o: Outcome): (r: Outcome)
    ensures r.Pass? <==> o.Pass?
    ensures o.Fail? ==> r.error.Wrapped? && r.error.field == field && r.error.cause == o.error
  {
    match o
    case Pass => Pass
    case Fail(e) => Fail(Wrapped(field, e))
  }

  /** Runs `first`, and only when it passes, `next`: the early return of a chain
      of `if err := ...; err != nil { return ... }` checks. */
  function Then(first: Outcome, next: Outcome): (r: Outcome)
    ensures r.Pass? <==> first.Pass? && next.Pass?
    ensures first.Fail? ==> r == first
    ensures first.Pass? ==> r == next
  {
    if first.Fail? then first else next
  }

  /** The innermost error of a chain, what `errors.Unwrap` reaches when applied
      until it returns nil. */
  function RootCause(e: Err): (r: Err)
    ensures r.InvalidMode?
    ensures e.InvalidMode? ==> r == e
  {
    match e
    case InvalidMode(_) => e
    case Wrapped(_, cause) => RootCause(cause)
  }

  /** The number of wrapping layers above the root cause. */
  function Depth(e: Err): nat
  {
    match e
    case InvalidMode(_) => 0
    case Wrapped(_, cause) => 1 + Depth(cause)
  }

  /** The text `fmt.Errorf` puts before each wrapped cause (config.go:41-59, 79). */
  function Prefix(field: Label): (p: string)
    ensures |p| >= 12 && p[..8] == "invalid "
  {
    match field
    case DefaultModeField => "invalid defaultMode configuration"
    case EnvField => "invalid env configuration"
    case CommandField => "invalid command configuration"
    case ShellField => "invalid shell configuration"
    case SubsystemField => "invalid subsystem configuration"
    case TTYField => "invalid TTY configuration"
    case SignalField => "invalid signal configuration"
    case ModeField => "invalid mode"
  }

  /** The text before the offending value in the innermost message (config.go:194). */
  const InvalidModeText: string := "invalid mode: "

  /** The text a message opens with: the leaf's fixed text, or the outermost
      layer's prefix and its opening parenthesis. */
  function Opening(e: Err): (o: string)
    ensures |o| >= 14
  {
    match e
    case InvalidMode(_) => InvalidModeText
    case Wrapped(field, _) => Prefix(field) + " ("
  }

  /** The message `Error()` returns: `%w` inserts the cause's message in
      parentheses after the field's prefix. The message opens with the
      outermost layer's text, so the failing field is named first. */
  function Render(e: Err): (r: string)
    ensures |Opening(e)| <= |r| && r[..|Opening(e)|] == Opening(e)
    ensures e.Wrapped? ==> r[|r| - 1] == ')'
  {
    match e
    case InvalidMode(v) => InvalidModeText + v
    case Wrapped(field, cause) => Prefix(field) + " (" + Render(cause) + ")"
  }

  /** Characters 9 and 12 of each opening: a distinct pair for the leaf and
      for every label. The nine opening texts all begin "invalid ", and these
      two positions are enough to tell them apart, so `RenderIdentifiesError`
      can decide which layer it is looking at from the message alone. */
  function Key(e: Err): (char, char)
  {
    match e
    case InvalidMode(_) => ('o', ':')
    case Wrapped(DefaultModeField, _) => ('e', 'u')
    case Wrapped(EnvField, _) => ('n', 'c')
    case Wrapped(CommandField, _) => ('o', 'a')
    case Wrapped(ShellField, _) => ('h', 'l')
    case Wrapped(SubsystemField, _) => ('u', 'y')
    case Wrapped(TTYField, _) => ('T', 'c')
    case Wrapped(SignalField, _) => ('i', 'a')
    case Wrapped(ModeField, _) => ('o', ' ')
  }

  lemma OpeningKey(e: Err)
    ensures (Opening(e)[9], Opening(e)[12]) == Key(e)
  {
    match e
    case InvalidMode(_) =>
    case Wrapped(field, _) =>
      match field
      case DefaultModeField =>
      case EnvField =>
      case CommandField =>
      case ShellField =>
      case SubsystemField =>
      case TTYField =>
      case SignalField =>
      case ModeField =>
  }

  /** Characters 9 and 12 of a message's opening tell the leaf and every
      label apart. */
  lemma OpeningsDiffer(a: Err, b: Err)
    requires Opening(a)[9] == Opening(b)[9] && Opening(a)[12] == Opening(b)[12]
    ensures a.InvalidMode? <==> b.InvalidMode?
    ensures a.Wrapped? && b.Wrapped? ==> a.field == b.field
  {
    OpeningKey(a);
    OpeningKey(b);
  }

  /** A rendered message determines the whole error chain: distinct errors
      never print the same text, so an operator can read back which field
      failed, through which layers, and with which value. The outermost layer
      is read off characters 9 and 12 of the message (see `Key`), its cause
      from between the parentheses. */
  lemma {:induction false} RenderIdentifiesError(e1: Err, e2: Err)
    requires Render(e1) == Render(e2)
    ensures e1 == e2
  {
    var r := Render(e1);
    assert r[9] == Opening(e1)[9] == Opening(e2)[9];
    assert r[12] == Opening(e1)[12] == Opening(e2)[12];
    OpeningsDiffer(e1, e2);
    match e1
    case InvalidMode(v1) =>
      assert r[|InvalidModeText|..] == v1 == e2.value;
    case Wrapped(field, c1) =>
      var head := Prefix(field) + " (";
      assert r == head + Render(c1) + ")";
      assert r == head + Render(e2.cause) + ")";
      assert Render(c1) == r[|head|..|r| - 1] == Render(e2.cause);
      RenderIdentifiesError(c1, e2.cause);
  }

  /** `v` occurs verbatim inside `msg`, starting at position `k`. */
  predicate OccursAt(msg: string, v: string, k: nat)
  {
    k + |v| <= |msg| && msg[k..k + |v|] == v
  }

  /** `v` occurs verbatim somewhere inside `msg`. */
  predicate Shows(msg: string, v: string)
  {
    exists k :: 0 <= k <= |msg| && OccursAt(msg, v, k)
  }

  /** An occurrence inside the middle part of a concatenation is an occurrence
      in the whole, shifted by the length of the head. */
  lemma OccursInMiddle(head: string, middle: string, tail: string, v: string, k: nat)
    requires OccursAt(middle, v, k)
    ensures OccursAt(head + middle + tail, v, |head| + k)
  {
    var s := head + middle + tail;
    forall i | k <= i < k + |v|
      ensures s[|head| + i] == middle[i]
    {
    }
    assert s[|head| + k..|head| + k + |v|] == middle[k..k + |v|];
  }

  /** However deeply an error is wrapped, its rendered message shows the
      offending mode string verbatim. */
  lemma {:induction false} RenderShowsRootValue(e: Err)
    ensures Shows(Render(e), RootCause(e).value)
  {
    match e
    case InvalidMode(v) =>
      assert OccursAt(v, v, 0);
      OccursInMiddle(InvalidModeText, v, "", v, 0);
      assert InvalidModeText + v + "" == Render(e);
    case Wrapped(field, cause) =>
      RenderShowsRootValue(cause);
      var v := RootCause(cause).value;
      var k: nat :| OccursAt(Render(cause), v, k);
      OccursInMiddle(Prefix(field) + " (", Render(cause), ")", v, k);
  }

  /** Every rendered message ends with one closing parenthesis per layer. */
  lemma {:induction false} RenderClosesEveryLayer(e: Err)
    ensures Depth(e) <= |Render(e)|
    ensures forall i :: |Render(e)| - Depth(e) <= i < |Render(e)| ==> Render(e)[i] == ')'
  {
    match e
    case InvalidMode(_) =>
    case Wrapped(field, cause) =>
      RenderClosesEveryLayer(cause);
      var head := Prefix(field) + " (";
      assert Render(e) == head + Render(cause) + ")";
  }
}

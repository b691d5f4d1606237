/**
 A declarative model of the argparse grammar pybugz builds: flag tables,
 positional tables and sub-commands as data, and a pure resolver that turns
 an invocation into a namespace as the declared actions promise. Like
 argparse, it sets aside option strings no parser declares and reports
 them only once the parse is over.

 An invocation is already split into its parts: the flag occurrences before
 the sub-command name, the sub-command name, the flag occurrences after it,
 and the sub-command's positional tokens.
 */
module Grammar {
  import opened Values
  import opened ArgText

  /** The argparse actions pybugz uses. */
  datatype Action =
    | Store       // the default action: keep the (last) argument
    | StoreTrue   // `store_true`
    | StoreFalse  // `store_false`
    | Append      // `append`: collect every argument, in order
    | Version     // `version`: print the version and exit

  /** The `type = ...` conversion applied to a flag's argument. */
  datatype ArgType = Text | Integer

  /** The configuration vocabularies a choice set may be drawn from (`config.choices[...]`). */
  datatype ConfigField = PriorityValues | ResolutionValues | StatusValues | SeverityList | OrderKeys

  /** The `choices = ...` constraint of a flag. */
  datatype ChoiceSet =
    | AnyValue
    | OneOf(values: set<string>)
    | FromConfig(field: ConfigField)

  /**
   The externally supplied vocabularies: the values of the priority,
   resolution and status tables, the severity list and the keys of the
   order table.
   */
  datatype Vocabularies = Vocabularies(
    priority: set<string>,
    resolution: set<string>,
    status: set<string>,
    severity: set<string>,
    order: set<string>)

  /** One `add_argument` call for an optional flag. */
  datatype FlagSpec = Flag(
    options: seq<OptionString>,  // never empty in a well-formed table
    dest: Option<string>,     // the `dest = ...` override, if any
    action: Action,
    argType: ArgType,
    default: Option<Value>,   // the `default = ...` keyword, if given
    choices: ChoiceSet)

  datatype Nargs = ExactlyOne | ZeroOrMore

  /** One `add_argument` call for a positional argument. */
  datatype PosSpec = Positional(dest: string, nargs: Nargs)

  /** One `add_parser` call with everything added to that parser. */
  datatype CommandSpec = Command(
    name: string,
    positionals: seq<PosSpec>,
    flags: seq<FlagSpec>,
    handler: Handler)

  /** The top-level parser: global flags and the sub-commands. */
  datatype Grammar = Grammar(globals: seq<FlagSpec>, commands: seq<CommandSpec>)

  /** One occurrence of an option string on the command line, with its explicit argument if any. */
  datatype Occurrence = Occurrence(option: OptionString, arg: Option<string>)

  datatype Invocation = Invocation(
    globalFlags: seq<Occurrence>,
    command: Option<string>,
    commandFlags: seq<Occurrence>,
    tokens: seq<string>)

  /** The ways argparse rejects a command line (it then prints usage and exits non-zero). */
  datatype UsageError =
    | MissingCommand
    | UnknownCommand(name: string)
    | ExpectedArgument(option: OptionString)
    | IgnoredArgument(option: OptionString)
    | InvalidInt(option: OptionString, token: string)
    | InvalidChoice(option: OptionString, token: string)
    | TooFewArguments
    | UnrecognizedArguments(options: seq<OptionString>, tokens: seq<string>)  // reported only after the whole parse

  /** A parse either yields a namespace, stops at `--version`, or fails with a usage error. */
  datatype Outcome = Parsed(ns: Namespace) | ShowVersion | Usage(error: UsageError)

  function Allowed(v: Vocabularies, c: ChoiceSet): set<string>
    requires !c.AnyValue?
  {
    match c
    case OneOf(vs) => vs
    case FromConfig(PriorityValues) => v.priority
    case FromConfig(ResolutionValues) => v.resolution
    case FromConfig(StatusValues) => v.status
    case FromConfig(SeverityList) => v.severity
    case FromConfig(OrderKeys) => v.order
  }

  /** The index of the first long option at or after `i`, or `|os|` when there is none. */
  function FirstLong(os: seq<OptionString>, i: nat): (r: nat)
    requires i <= |os|
    ensures i <= r <= |os|
    ensures r < |os| ==> os[r].Long?
    ensures forall j :: i <= j < r ==> os[j].Short?
    decreases |os| - i
  {
    if i == |os| || os[i].Long? then i else FirstLong(os, i + 1)
  }

  /**
   The attribute a flag stores into: its `dest` override, or else the name
   of its first long option (of its first option when it has no long one).
   A flag without option strings is a positional to argparse; pybugz
   declares none, and it is given the empty name here.
   */
  function DestOf(f: FlagSpec): (r: string)
    ensures f.dest.Some? ==> r == f.dest.value
  {
    match f.dest
    case Some(d) => d
    case None =>
      var k := FirstLong(f.options, 0);
      if k < |f.options| then OptionName(f.options[k])
      else if |f.options| > 0 then OptionName(f.options[0])
      else ""
  }

  /** The index of the first text at or after `i` that argparse counts as a long option, or `|texts|`. */
  function FirstLongText(texts: seq<string>, i: nat): (r: nat)
    requires i <= |texts|
    ensures i <= r <= |texts|
    ensures r < |texts| ==> IsLong(texts[r])
    ensures forall j :: i <= j < r ==> !IsLong(texts[j])
    decreases |texts| - i
  {
    if i == |texts| || IsLong(texts[i]) then i else FirstLongText(texts, i + 1)
  }

  /**
   argparse's rule on the option texts of a flag without `dest`: take the
   first long option text, or the first text when there is none, strip its
   leading dashes and turn the remaining dashes into underscores.
   */
  function ArgparseDest(texts: seq<string>): string
    requires |texts| > 0
  {
    var k := FirstLongText(texts, 0);
    NameOfOption(if k < |texts| then texts[k] else texts[0])
  }

  function Texts(os: seq<OptionString>): (r: seq<string>)
    ensures |r| == |os|
    ensures forall i :: 0 <= i < |os| ==> r[i] == OptionText(os[i])
  {
    seq(|os|, i requires 0 <= i < |os| => OptionText(os[i]))
  }

  lemma {:induction false} FirstLongAgrees(os: seq<OptionString>, i: nat)
    requires i <= |os|
    requires forall j :: 0 <= j < |os| ==> ValidOption(os[j])
    ensures FirstLongText(Texts(os), i) == FirstLong(os, i)
    decreases |os| - i
  {
    if i < |os| {
      LongText(os[i]);
      FirstLongAgrees(os, i + 1);
    }
  }

  /** For a flag without `dest` and with valid option strings, `DestOf` is the name argparse derives from the option texts. */
  lemma DestFollowsArgparse(f: FlagSpec)
    requires f.dest.None? && |f.options| > 0
    requires forall j :: 0 <= j < |f.options| ==> ValidOption(f.options[j])
    ensures DestOf(f) == ArgparseDest(Texts(f.options))
  {
    FirstLongAgrees(f.options, 0);
    var k := FirstLong(f.options, 0);
    NameOfOptionText(if k < |f.options| then f.options[k] else f.options[0]);
  }

  /** The attribute of every flag of a table, in table order. */
  function DestList(t: seq<FlagSpec>): (r: seq<string>)
    ensures |r| == |t|
    ensures forall i {:trigger r[i]} :: 0 <= i < |t| ==> r[i] == DestOf(t[i])
  {
    seq(|t|, i requires 0 <= i < |t| => DestOf(t[i]))
  }

  /** The elements of a list of names. */
  function Elems(xs: seq<string>): set<string>
  {
    set i | 0 <= i < |xs| :: xs[i]
  }

  /** Flag `i` of `t` stores into `names[i]` and is not `--version`. */
  predicate NameAt(t: seq<FlagSpec>, names: seq<string>, i: int)
  {
    0 <= i < |t| && i < |names| && DestOf(t[i]) == names[i] && t[i].action != Version
  }

  /** `names` lists the attribute of every flag of `t`, in table order. */
  predicate NamesAre(t: seq<FlagSpec>, names: seq<string>)
  {
    |t| == |names| && forall i :: 0 <= i < |t| ==> NameAt(t, names, i)
  }

  /** A table whose attribute list is known has exactly those attributes, unique when the list is. */
  lemma NamedTable(t: seq<FlagSpec>, names: seq<string>)
    requires NamesAre(t, names)
    ensures DestList(t) == names
    ensures Dests(t) == Elems(names)
    ensures Distinct(names) ==> UniqueDests(t)
  {
    forall i | 0 <= i < |t| ensures DestList(t)[i] == names[i] {
      assert NameAt(t, names, i);
    }
    forall d | d in Elems(names) ensures d in Dests(t) {
      var i :| 0 <= i < |names| && names[i] == d;
      assert NameAt(t, names, i);
    }
    forall d | d in Dests(t) ensures d in Elems(names) {
      var i :| 0 <= i < |t| && t[i].action != Version && DestOf(t[i]) == d;
      if i < |names| {
        assert NameAt(t, names, i);
      }
    }
  }

  /** The same for a table that ends with a `--version` flag, which stores nothing. */
  lemma NamedTableWithVersion(t: seq<FlagSpec>, names: seq<string>)
    requires |t| == |names| + 1 && t[|names|].action == Version
    requires forall i :: 0 <= i < |names| ==> NameAt(t, names, i)
    ensures DestList(t) == names + [DestOf(t[|names|])]
    ensures Dests(t) == Elems(names)
    ensures Distinct(names) && DestOf(t[|names|]) !in Elems(names) ==> UniqueDests(t)
  {
    forall i | 0 <= i < |t| ensures DestList(t)[i] == (names + [DestOf(t[|names|])])[i] {
      if i < |names| {
        assert NameAt(t, names, i);
      }
    }
    forall d | d in Elems(names) ensures d in Dests(t) {
      var i :| 0 <= i < |names| && names[i] == d;
      assert NameAt(t, names, i);
    }
    forall d | d in Dests(t) ensures d in Elems(names) {
      var i :| 0 <= i < |t| && t[i].action != Version && DestOf(t[i]) == d;
      if i < |names| {
        assert NameAt(t, names, i);
      }
    }
    if Distinct(names) && DestOf(t[|names|]) !in Elems(names) {
      var l := DestList(t);
      forall i, j | 0 <= i < j < |l| ensures l[i] != l[j] {
        if j == |names| {
          assert l[i] == names[i];
        }
      }
    }
  }

  /** The attributes a flag table puts into the namespace (`version` is suppressed). */
  function Dests(t: seq<FlagSpec>): set<string>
  {
    set i | 0 <= i < |t| && t[i].action != Version :: DestOf(t[i])
  }

  function PosDests(ps: seq<PosSpec>): set<string>
  {
    set i | 0 <= i < |ps| :: ps[i].dest
  }

  /** The value a flag has when it is never given: its declared default, or argparse's default for its action. */
  function EffectiveDefault(f: FlagSpec): (r: Value)
    ensures f.default.Some? ==> r == f.default.value
    ensures f.default.None? && f.action == StoreTrue ==> r == Bool(false)
    ensures f.default.None? && f.action == StoreFalse ==> r == Bool(true)
    ensures f.default.None? && f.action in {Store, Append} ==> r == Absent
  {
    match f.default
    case Some(v) => v
    case None =>
      match f.action
      case StoreTrue => Bool(false)
      case StoreFalse => Bool(true)
      case _ => Absent
  }

  predicate Distinct(xs: seq<string>)
  {
    forall i, j :: 0 <= i < j < |xs| ==> xs[i] != xs[j]
  }

  /** No entry of `xs` after position `i` repeats `xs[i]`. */
  predicate FreshAt(xs: seq<string>, i: int)
  {
    0 <= i < |xs| && forall j :: i < j < |xs| ==> xs[i] != xs[j]
  }

  /** A list is distinct when each entry differs from every later one. */
  lemma DistinctByRows(xs: seq<string>)
    requires forall i :: 0 <= i < |xs| ==> FreshAt(xs, i)
    ensures Distinct(xs)
  {
    forall i, j | 0 <= i < j < |xs| ensures xs[i] != xs[j] {
      assert FreshAt(xs, i);
    }
  }

  /** No two flags of the table store into the same attribute. */
  predicate UniqueDests(t: seq<FlagSpec>)
  {
    Distinct(DestList(t))
  }

  /** Dropping the first flag keeps the attributes distinct, and no later flag shares the first one's attribute. */
  lemma UniqueTail(t: seq<FlagSpec>)
    requires |t| > 0
    ensures UniqueDests(t) ==> UniqueDests(t[1..])
    ensures UniqueDests(t) ==> forall i :: 1 <= i < |t| ==> DestOf(t[i]) != DestOf(t[0])
  {
    if UniqueDests(t) {
      var xs, ys := DestList(t), DestList(t[1..]);
      forall i | 1 <= i < |t| ensures DestOf(t[i]) != DestOf(t[0]) {
        assert xs[0] != xs[i];
      }
      forall i, j | 0 <= i < j < |ys| ensures ys[i] != ys[j] {
        assert t[1..][i] == t[i + 1] && t[1..][j] == t[j + 1];
        assert xs[i + 1] != xs[j + 1];
      }
    }
  }

  /**
   The namespace before any flag is applied: every non-suppressed flag's
   effective default. When two flags share an attribute the first one's
   default is kept, as argparse only sets a default not already present.
   */
  function Defaults(t: seq<FlagSpec>): (r: Namespace)
    ensures r.Keys == Dests(t)
    decreases |t|
  {
    if |t| == 0 then map[]
    else
      var rest := Defaults(t[1..]);
      assert forall i :: 1 <= i < |t| ==> t[1..][i - 1] == t[i];
      assert Dests(t[1..]) + (if t[0].action == Version then {} else {DestOf(t[0])}) == Dests(t) by {
        forall d | d in Dests(t) ensures d in Dests(t[1..]) || (t[0].action != Version && d == DestOf(t[0])) {
          var i :| 0 <= i < |t| && t[i].action != Version && DestOf(t[i]) == d;
          if i > 0 {
            assert t[1..][i - 1] == t[i];
          }
        }
      }
      if t[0].action == Version then rest else rest[DestOf(t[0]) := EffectiveDefault(t[0])]
  }

  /** When no two flags share an attribute, the namespace before any flag holds each flag's effective default. */
  lemma {:induction false} DefaultValues(t: seq<FlagSpec>)
    requires UniqueDests(t)
    ensures forall i :: 0 <= i < |t| && t[i].action != Version ==>
      DestOf(t[i]) in Defaults(t) && Defaults(t)[DestOf(t[i])] == EffectiveDefault(t[i])
    decreases |t|
  {
    if |t| > 0 {
      UniqueTail(t);
      DefaultValues(t[1..]);
      var rest := Defaults(t[1..]);
      assert Defaults(t) == if t[0].action == Version then rest else rest[DestOf(t[0]) := EffectiveDefault(t[0])];
      forall i | 1 <= i < |t| && t[i].action != Version
        ensures DestOf(t[i]) in rest && rest[DestOf(t[i])] == EffectiveDefault(t[i])
      {
        assert t[1..][i - 1] == t[i];
      }
    }
  }

  /** The index of the first flag at or after `i` that declares option string `o`, or `|t|`. */
  function FindFlag(t: seq<FlagSpec>, o: OptionString, i: nat): (r: nat)
    requires i <= |t|
    ensures i <= r <= |t|
    ensures r < |t| ==> o in t[r].options
    ensures forall j :: i <= j < r ==> o !in t[j].options
    decreases |t| - i
  {
    if i == |t| || o in t[i].options then i else FindFlag(t, o, i + 1)
  }

  /** Whether a converted argument passes the choice check (a non-string never equals a choice). */
  predicate ChoiceOk(v: Vocabularies, c: ChoiceSet, x: Value)
  {
    c.AnyValue? || (x.Str? && x.s in Allowed(v, c))
  }

  /** Converts an argument with the flag's type, then checks it against the flag's choices. */
  function ArgValue(v: Vocabularies, f: FlagSpec, option: OptionString, tok: string): (r: Result<Value, UsageError>)
    ensures r.Ok? ==> ChoiceOk(v, f.choices, r.value)
    ensures f.argType == Text && r.Ok? ==> r.value == Str(tok)
    ensures f.argType == Text && f.choices.AnyValue? ==> r.Ok?
    ensures f.argType == Text && !f.choices.AnyValue? ==> (r.Ok? <==> tok in Allowed(v, f.choices))
    ensures f.argType == Integer ==> (r.Ok? ==> ParseInt(tok).Some? && r.value == Int(ParseInt(tok).value))
  {
    var converted :=
      match f.argType
      case Text => Ok(Str(tok))
      case Integer =>
        match ParseInt(tok)
        case Some(n) => Ok(Int(n))
        case None => Err(InvalidInt(option, tok));
    match converted
    case Err(e) => Err(e)
    case Ok(x) => if ChoiceOk(v, f.choices, x) then Ok(x) else Err(InvalidChoice(option, tok))
  }

  /** The value of an attribute, with a missing attribute read as None (argparse's `_ensure_value`). */
  function Lookup(ns: Namespace, d: string): Value
  {
    if d in ns then ns[d] else Absent
  }

  /**
   Applies one flag occurrence to the namespace. An option string no flag
   declares is set aside, as argparse's `consume_optional` puts it among
   the extras: the namespace is unchanged and `Unrecognized` reports it
   once the whole parse is over.
   */
  function ApplyOccurrence(v: Vocabularies, t: seq<FlagSpec>, ns: Namespace, occ: Occurrence): (r: Outcome)
    ensures r.Parsed? ==> ns.Keys <= r.ns.Keys <= ns.Keys + Dests(t)
    ensures FindFlag(t, occ.option, 0) == |t| ==> r == Parsed(ns)
    ensures r.Usage? ==> !r.error.UnrecognizedArguments?
  {
    var k := FindFlag(t, occ.option, 0);
    if k == |t| then Parsed(ns)
    else
      var f := t[k];
      var d := DestOf(f);
      assert f.action != Version ==> d in Dests(t);
      match f.action
      case Version =>
        if occ.arg.Some? then Usage(IgnoredArgument(occ.option)) else ShowVersion
      case StoreTrue =>
        if occ.arg.Some? then Usage(IgnoredArgument(occ.option)) else Parsed(ns[d := Bool(true)])
      case StoreFalse =>
        if occ.arg.Some? then Usage(IgnoredArgument(occ.option)) else Parsed(ns[d := Bool(false)])
      case Store =>
        if occ.arg.None? then Usage(ExpectedArgument(occ.option))
        else
          (match ArgValue(v, f, occ.option, occ.arg.value)
           case Err(e) => Usage(e)
           case Ok(x) => Parsed(ns[d := x]))
      case Append =>
        if occ.arg.None? then Usage(ExpectedArgument(occ.option))
        else
          match ArgValue(v, f, occ.option, occ.arg.value)
          case Err(e) => Usage(e)
          case Ok(x) => Parsed(ns[d := List(Items(Lookup(ns, d)) + [x])])
  }

  /**
   Applies flag occurrences left to right. The first error or `--version`
   stops the parse; an occurrence only ever writes its own flag's attribute.
   */
  function ApplyFlags(v: Vocabularies, t: seq<FlagSpec>, ns: Namespace, occs: seq<Occurrence>): (r: Outcome)
    ensures r.Parsed? ==> ns.Keys <= r.ns.Keys <= ns.Keys + Dests(t)
    ensures r.Parsed? ==> forall d :: d in ns && d !in Dests(t) ==> r.ns[d] == ns[d]
    ensures r.Usage? ==> !r.error.UnrecognizedArguments?
    decreases |occs|
  {
    if |occs| == 0 then Parsed(ns)
    else
      match ApplyOccurrence(v, t, ns, occs[0])
      case Parsed(ns1) =>
        assert forall d :: d in ns && d !in Dests(t) ==> ns1[d] == ns[d] by {
          var k := FindFlag(t, occs[0].option, 0);
          if k < |t| {
            assert t[k].action != Version ==> DestOf(t[k]) in Dests(t);
          }
        }
        ApplyFlags(v, t, ns1, occs[1..])
      case other => other
  }

  /** The option strings of the occurrences no flag of the table declares, in the order they occur. */
  function Unrecognized(t: seq<FlagSpec>, occs: seq<Occurrence>): seq<OptionString>
    decreases |occs|
  {
    if |occs| == 0 then []
    else (if FindFlag(t, occs[0].option, 0) == |t| then [occs[0].option] else []) + Unrecognized(t, occs[1..])
  }

  predicate AllExactlyOne(ps: seq<PosSpec>)
  {
    forall i :: 0 <= i < |ps| ==> ps[i].nargs == ExactlyOne
  }

  function StrValues(toks: seq<string>): (r: seq<Value>)
    ensures |r| == |toks|
    ensures forall i :: 0 <= i < |toks| ==> r[i] == Str(toks[i])
  {
    seq(|toks|, i requires 0 <= i < |toks| => Str(toks[i]))
  }

  /**
   Binds positional tokens: an `ExactlyOne` positional takes one token, a
   `nargs='*'` positional takes all remaining tokens. Too few tokens or
   tokens left over are usage errors.
   */
  function BindPositionals(ps: seq<PosSpec>, toks: seq<string>): (r: Result<Namespace, UsageError>)
    ensures r.Ok? ==> r.value.Keys == PosDests(ps)
    ensures AllExactlyOne(ps) ==> (r.Ok? <==> |toks| == |ps|)
    ensures AllExactlyOne(ps) && |toks| < |ps| ==> r == Err(TooFewArguments)
    ensures AllExactlyOne(ps) && |toks| > |ps| ==> r == Err(UnrecognizedArguments([], toks[|ps|..]))
    ensures r.Err? && r.error.UnrecognizedArguments? ==> r.error.options == []
    ensures r.Ok? && |ps| > 0 && ps[0].nargs == ExactlyOne ==> |toks| > 0 && r.value[ps[0].dest] == Str(toks[0])
    ensures r.Ok? && |ps| > 0 && ps[0].nargs == ZeroOrMore ==> r.value[ps[0].dest] == List(StrValues(toks))
    decreases |ps|
  {
    assert forall i :: 1 <= i < |ps| ==> ps[1..][i - 1] == ps[i];
    assert PosDests(ps) == if |ps| == 0 then {} else PosDests(ps[1..]) + {ps[0].dest} by {
      if |ps| > 0 {
        forall d | d in PosDests(ps) ensures d in PosDests(ps[1..]) + {ps[0].dest} {
          var i :| 0 <= i < |ps| && ps[i].dest == d;
          if i > 0 {
            assert ps[1..][i - 1] == ps[i];
          }
        }
      }
    }
    if |ps| == 0 then
      if |toks| == 0 then Ok(map[]) else Err(UnrecognizedArguments([], toks))
    else
      match ps[0].nargs
      case ExactlyOne =>
        if |toks| == 0 then Err(TooFewArguments)
        else
          (match BindPositionals(ps[1..], toks[1..])
           case Ok(m) => Ok(m[ps[0].dest := Str(toks[0])])
           case Err(e) =>
             assert AllExactlyOne(ps) && |toks| > |ps| ==> toks[1..][|ps[1..]|..] == toks[|ps|..];
             Err(e))
      case ZeroOrMore =>
        match BindPositionals(ps[1..], [])
        case Ok(m) => Ok(m[ps[0].dest := List(StrValues(toks))])
        case Err(e) => Err(e)
  }

  /** The index of the sub-command called `name`, or `|cs|`. */
  function FindCommand(cs: seq<CommandSpec>, name: string, i: nat): (r: nat)
    requires i <= |cs|
    ensures i <= r <= |cs|
    ensures r < |cs| ==> cs[r].name == name
    ensures forall j :: i <= j < r ==> cs[j].name != name
    decreases |cs| - i
  {
    if i == |cs| || cs[i].name == name then i else FindCommand(cs, name, i + 1)
  }

  /** The attributes a sub-command's own parser adds: its flags' and its positionals'. */
  function CommandAttrs(c: CommandSpec): set<string>
  {
    Dests(c.flags) + PosDests(c.positionals)
  }

  /** The namespace a sub-command starts from: the global result, its flags' defaults and its handler. */
  function CommandStart(c: CommandSpec, top: Namespace): Namespace
  {
    top + Defaults(c.flags) + map["func" := Func(c.handler)]
  }

  /** What a sub-command's namespace is made of, once its flags and positionals are in. */
  lemma CommandNamespace(c: CommandSpec, top: Namespace, ns: Namespace, pos: Namespace)
    requires CommandStart(c, top).Keys <= ns.Keys <= CommandStart(c, top).Keys + Dests(c.flags)
    requires forall d :: d in CommandStart(c, top) && d !in Dests(c.flags) ==> ns[d] == CommandStart(c, top)[d]
    requires pos.Keys == PosDests(c.positionals)
    ensures (ns + pos).Keys == top.Keys + CommandAttrs(c) + {"func"}
    ensures forall d :: d in top && d !in CommandAttrs(c) + {"func"} ==> (ns + pos)[d] == top[d]
    ensures (ns + pos)["func"] == Func(c.handler) || "func" in CommandAttrs(c)
  {
    var start := CommandStart(c, top);
    assert start.Keys == top.Keys + Dests(c.flags) + {"func"};
    forall d | d in top && d !in CommandAttrs(c) + {"func"} ensures (ns + pos)[d] == top[d] {
      assert start[d] == top[d];
    }
  }

  /** Runs a sub-command's parser on its flags and positional tokens. */
  function RunCommand(v: Vocabularies, c: CommandSpec, top: Namespace, occs: seq<Occurrence>, toks: seq<string>): (r: Outcome)
    ensures r.Parsed? ==> r.ns.Keys == top.Keys + CommandAttrs(c) + {"func"}
    ensures r.Parsed? ==> forall d :: d in top && d !in CommandAttrs(c) + {"func"} ==> r.ns[d] == top[d]
    ensures r.Parsed? ==> r.ns["func"] == Func(c.handler) || "func" in CommandAttrs(c)
  {
    match ApplyFlags(v, c.flags, CommandStart(c, top), occs)
    case Parsed(ns) =>
      (match BindPositionals(c.positionals, toks)
       case Ok(pos) =>
         CommandNamespace(c, top, ns, pos);
         Parsed(ns + pos)
       case Err(e) => Usage(e))
    case other => other
  }

  /** The top-level pass of an invocation: its global flags applied over the top-level defaults. */
  function TopPass(g: Grammar, v: Vocabularies, inv: Invocation): (r: Outcome)
    ensures r.Parsed? ==> r.ns.Keys == Dests(g.globals)
  {
    ApplyFlags(v, g.globals, Defaults(g.globals), inv.globalFlags)
  }

  /** The sub-command an invocation names. */
  function Chosen(g: Grammar, inv: Invocation): (c: CommandSpec)
    requires inv.command.Some? && FindCommand(g.commands, inv.command.value, 0) < |g.commands|
    ensures c in g.commands && c.name == inv.command.value
  {
    g.commands[FindCommand(g.commands, inv.command.value, 0)]
  }

  /** Nothing is unrecognised exactly when every occurrence names a flag of the table. */
  lemma {:induction false} UnrecognizedNone(t: seq<FlagSpec>, occs: seq<Occurrence>)
    ensures Unrecognized(t, occs) == [] <==> forall i :: 0 <= i < |occs| ==> FindFlag(t, occs[i].option, 0) < |t|
    decreases |occs|
  {
    if |occs| > 0 {
      UnrecognizedNone(t, occs[1..]);
      assert forall i :: 1 <= i < |occs| ==> occs[1..][i - 1] == occs[i];
    }
  }

  /**
   What `parse_args` makes of a parse that set `unknown` aside: the
   unrecognised arguments are an error once the parse itself succeeded, and
   join any positional tokens left over; an earlier error stands.
   */
  function Report(unknown: seq<OptionString>, out: Outcome): (r: Outcome)
    ensures r.Parsed? <==> out.Parsed? && |unknown| == 0
    ensures r.Parsed? ==> r == out
    ensures out.Parsed? && |unknown| > 0 ==> r == Usage(UnrecognizedArguments(unknown, []))
    ensures out.Usage? && !out.error.UnrecognizedArguments? ==> r == out
    ensures out.Usage? && out.error.UnrecognizedArguments? ==>
      r == Usage(UnrecognizedArguments(unknown + out.error.options, out.error.tokens))
    ensures out.ShowVersion? ==> r == out
  {
    match out
    case Parsed(_) => if |unknown| == 0 then out else Usage(UnrecognizedArguments(unknown, []))
    case Usage(UnrecognizedArguments(os, toks)) => Usage(UnrecognizedArguments(unknown + os, toks))
    case _ => out
  }

  /** The options of an invocation neither the top-level parser nor sub-command `c` declares. */
  function Unknown(g: Grammar, c: CommandSpec, inv: Invocation): seq<OptionString>
  {
    Unrecognized(g.globals, inv.globalFlags) + Unrecognized(c.flags, inv.commandFlags)
  }

  /**
   Parses a whole invocation: global flags, then the sub-command, then the
   report of the options nobody declared.
   */
  function Resolve(g: Grammar, v: Vocabularies, inv: Invocation): (r: Outcome)
    ensures r.Parsed? ==> inv.command.Some? && FindCommand(g.commands, inv.command.value, 0) < |g.commands|
    ensures r.Parsed? ==> TopPass(g, v, inv).Parsed?
    ensures r.Parsed? ==> r.ns.Keys == Dests(g.globals) + CommandAttrs(Chosen(g, inv)) + {"func"}
    ensures r.Parsed? ==> forall d :: d in Dests(g.globals) && d !in CommandAttrs(Chosen(g, inv)) + {"func"} ==>
      r.ns[d] == TopPass(g, v, inv).ns[d]
    ensures r.Parsed? && "func" !in CommandAttrs(Chosen(g, inv)) ==> r.ns["func"] == Func(Chosen(g, inv).handler)
    ensures inv.command.None? ==> !r.Parsed?
  {
    match TopPass(g, v, inv)
    case Parsed(top) =>
      (match inv.command
       case None => Usage(MissingCommand)
       case Some(name) =>
         var k := FindCommand(g.commands, name, 0);
         if k == |g.commands| then Usage(UnknownCommand(name))
         else Report(Unknown(g, g.commands[k], inv), RunCommand(v, g.commands[k], top, inv.commandFlags, inv.tokens)))
    case other => other
  }

  /** The pass of the chosen sub-command's flags over the namespace it starts from. */
  function CommandPass(g: Grammar, v: Vocabularies, inv: Invocation): Outcome
    requires inv.command.Some? && FindCommand(g.commands, inv.command.value, 0) < |g.commands|
    requires TopPass(g, v, inv).Parsed?
  {
    var c := Chosen(g, inv);
    ApplyFlags(v, c.flags, CommandStart(c, TopPass(g, v, inv).ns), inv.commandFlags)
  }

  /** A successful parse is the sub-command's flag pass with its positionals bound on top. */
  lemma ResolveCommand(g: Grammar, v: Vocabularies, inv: Invocation)
    requires Resolve(g, v, inv).Parsed?
    ensures CommandPass(g, v, inv).Parsed?
    ensures BindPositionals(Chosen(g, inv).positionals, inv.tokens).Ok?
    ensures Resolve(g, v, inv).ns ==
      CommandPass(g, v, inv).ns + BindPositionals(Chosen(g, inv).positionals, inv.tokens).value
    ensures Unknown(g, Chosen(g, inv), inv) == []
  {
  }

  /** A sub-command flag starts from its effective default. */
  lemma StartValue(c: CommandSpec, top: Namespace, k: nat)
    requires UniqueDests(c.flags) && k < |c.flags| && c.flags[k].action != Version && DestOf(c.flags[k]) != "func"
    ensures DestOf(c.flags[k]) in CommandStart(c, top)
    ensures CommandStart(c, top)[DestOf(c.flags[k])] == EffectiveDefault(c.flags[k])
  {
    DefaultValues(c.flags);
  }

  /** Sub-command `name` is command `k` when `k` is the first command of that name. */
  lemma FindCommandAt(cs: seq<CommandSpec>, name: string, k: nat)
    requires k < |cs| && cs[k].name == name
    requires forall j :: 0 <= j < k ==> cs[j].name != name
    ensures FindCommand(cs, name, 0) == k
  {
  }

  /** With no global flags the top level holds its defaults. */
  lemma TopPassEmpty(g: Grammar, v: Vocabularies, inv: Invocation)
    requires inv.globalFlags == []
    ensures TopPass(g, v, inv) == Parsed(Defaults(g.globals))
  {
  }

  /** A sub-command flag pass that fails decides the whole parse. */
  lemma CommandPassFails(g: Grammar, v: Vocabularies, inv: Invocation)
    requires inv.command.Some? && FindCommand(g.commands, inv.command.value, 0) < |g.commands|
    requires TopPass(g, v, inv).Parsed? && !CommandPass(g, v, inv).Parsed?
    ensures Resolve(g, v, inv) == CommandPass(g, v, inv)
  {
  }

  /** The converse of `ResolveCommand`: both passes succeeding and the positionals binding make the whole parse succeed. */
  lemma ResolveParses(g: Grammar, v: Vocabularies, inv: Invocation)
    requires inv.command.Some? && FindCommand(g.commands, inv.command.value, 0) < |g.commands|
    requires TopPass(g, v, inv).Parsed? && CommandPass(g, v, inv).Parsed?
    requires BindPositionals(Chosen(g, inv).positionals, inv.tokens).Ok?
    requires Unknown(g, Chosen(g, inv), inv) == []
    ensures Resolve(g, v, inv).Parsed?
  {
  }

  /**
   Options nobody declared do not stop the parse: when everything else
   parses they are reported together, top-level ones first, followed by
   any positional tokens left over.
   */
  lemma UnknownReported(g: Grammar, v: Vocabularies, inv: Invocation)
    requires inv.command.Some? && FindCommand(g.commands, inv.command.value, 0) < |g.commands|
    requires TopPass(g, v, inv).Parsed? && CommandPass(g, v, inv).Parsed?
    ensures var unknown := Unknown(g, Chosen(g, inv), inv); var bound := BindPositionals(Chosen(g, inv).positionals, inv.tokens);
      && (bound.Ok? && |unknown| > 0 ==> Resolve(g, v, inv) == Usage(UnrecognizedArguments(unknown, [])))
      && (bound.Err? && bound.error.UnrecognizedArguments? ==>
            Resolve(g, v, inv) == Usage(UnrecognizedArguments(unknown, bound.error.tokens)))
  {
    var c := Chosen(g, inv);
    var bound := BindPositionals(c.positionals, inv.tokens);
    if bound.Err? {
      assert RunCommand(v, c, TopPass(g, v, inv).ns, inv.commandFlags, inv.tokens) == Usage(bound.error);
      assert Unknown(g, c, inv) + [] == Unknown(g, c, inv);
    }
  }
}

/**
 What each declared argparse action promises about the attribute it owns,
 stated over a whole sequence of flag occurrences: `store_true` and
 `store_false` record whether the flag was given, `store` keeps the last
 argument, `append` keeps every argument in order, and `choices` rejects
 arguments outside the allowed set.
 */
module Actions {
  import opened Values
  import opened ArgText
  import opened Grammar

  /** argparse routes the occurrence to flag `k` of the table. */
  predicate Selects(t: seq<FlagSpec>, k: nat, occ: Occurrence)
  {
    FindFlag(t, occ.option, 0) == k
  }

  /** Some occurrence is routed to flag `k`. */
  predicate Given(t: seq<FlagSpec>, k: nat, occs: seq<Occurrence>)
  {
    exists i :: 0 <= i < |occs| && Selects(t, k, occs[i])
  }

  /** The converted arguments of the occurrences routed to flag `k`, in the order they occur. */
  function Collected(v: Vocabularies, t: seq<FlagSpec>, k: nat, occs: seq<Occurrence>): seq<Value>
    decreases |occs|
  {
    if |occs| == 0 then []
    else
      var occ := occs[0];
      var rest := Collected(v, t, k, occs[1..]);
      if k < |t| && Selects(t, k, occ) && occ.arg.Some? && ArgValue(v, t[k], occ.option, occ.arg.value).Ok?
      then [ArgValue(v, t[k], occ.option, occ.arg.value).value] + rest
      else rest
  }

  function Last(xs: seq<Value>): Value
    requires |xs| > 0
  {
    xs[|xs| - 1]
  }

  /** The arguments of occurrences that all carry one, as text values. */
  function Args(occs: seq<Occurrence>): (r: seq<Value>)
    requires forall i :: 0 <= i < |occs| ==> occs[i].arg.Some?
    ensures |r| == |occs|
    ensures forall i :: 0 <= i < |occs| ==> r[i] == Str(occs[i].arg.value)
  {
    seq(|occs|, i requires 0 <= i < |occs| && occs[i].arg.Some? => Str(occs[i].arg.value))
  }

  /** A parse that succeeds as a whole succeeded on its first occurrence. */
  lemma FirstStepParsed(v: Vocabularies, t: seq<FlagSpec>, ns: Namespace, occs: seq<Occurrence>)
    requires |occs| > 0 && ApplyFlags(v, t, ns, occs).Parsed?
    ensures ApplyOccurrence(v, t, ns, occs[0]).Parsed?
    ensures ApplyFlags(v, t, ns, occs) == ApplyFlags(v, t, ApplyOccurrence(v, t, ns, occs[0]).ns, occs[1..])
  {
  }

  /** An occurrence routed to another flag leaves flag `k`'s attribute unchanged. */
  lemma OtherFlagUntouched(v: Vocabularies, t: seq<FlagSpec>, ns: Namespace, occ: Occurrence, k: nat)
    requires UniqueDests(t) && k < |t| && DestOf(t[k]) in ns
    requires ApplyOccurrence(v, t, ns, occ).Parsed? && !Selects(t, k, occ)
    ensures DestOf(t[k]) in ApplyOccurrence(v, t, ns, occ).ns
    ensures ApplyOccurrence(v, t, ns, occ).ns[DestOf(t[k])] == ns[DestOf(t[k])]
  {
    var j := FindFlag(t, occ.option, 0);
    if j < |t| {
      assert DestList(t)[j] != DestList(t)[k] by {
        assert Distinct(DestList(t));
      }
    }
  }

  /** An occurrence routed to flag `k` sets its attribute as the flag's action says. */
  lemma SelectedFlagSet(v: Vocabularies, t: seq<FlagSpec>, ns: Namespace, occ: Occurrence, k: nat)
    requires k < |t| && Selects(t, k, occ)
    requires ApplyOccurrence(v, t, ns, occ).Parsed?
    ensures var d := DestOf(t[k]); var out := ApplyOccurrence(v, t, ns, occ).ns;
      && t[k].action != Version && d in out
      && (t[k].action == StoreTrue ==> out[d] == Bool(true))
      && (t[k].action == StoreFalse ==> out[d] == Bool(false))
      && (t[k].action in {Store, Append} ==> occ.arg.Some? && ArgValue(v, t[k], occ.option, occ.arg.value).Ok?)
      && (t[k].action == Store ==> out[d] == ArgValue(v, t[k], occ.option, occ.arg.value).value)
      && (t[k].action == Append ==>
            out[d] == List(Items(Lookup(ns, d)) + [ArgValue(v, t[k], occ.option, occ.arg.value).value]))
  {
  }

  lemma GivenStep(t: seq<FlagSpec>, k: nat, occs: seq<Occurrence>)
    requires |occs| > 0
    ensures Given(t, k, occs) <==> Selects(t, k, occs[0]) || Given(t, k, occs[1..])
  {
    if Given(t, k, occs[1..]) {
      var i :| 0 <= i < |occs[1..]| && Selects(t, k, occs[1..][i]);
      assert Selects(t, k, occs[i + 1]);
    }
    if Given(t, k, occs) && !Selects(t, k, occs[0]) {
      var i :| 0 <= i < |occs| && Selects(t, k, occs[i]);
      assert i > 0 && occs[1..][i - 1] == occs[i];
    }
  }

  /**
   After a successful parse, a `store_true` (`store_false`) flag's attribute
   is true (false) when the flag was given at all, and keeps its starting
   value otherwise.
   */
  lemma {:induction false} SwitchValue(v: Vocabularies, t: seq<FlagSpec>, ns: Namespace, occs: seq<Occurrence>, k: nat)
    requires UniqueDests(t) && k < |t| && DestOf(t[k]) in ns
    requires t[k].action in {StoreTrue, StoreFalse}
    requires ApplyFlags(v, t, ns, occs).Parsed?
    ensures DestOf(t[k]) in ApplyFlags(v, t, ns, occs).ns
    ensures ApplyFlags(v, t, ns, occs).ns[DestOf(t[k])] ==
      if Given(t, k, occs) then Bool(t[k].action == StoreTrue) else ns[DestOf(t[k])]
    decreases |occs|
  {
    if |occs| > 0 {
      FirstStepParsed(v, t, ns, occs);
      GivenStep(t, k, occs);
      var ns1 := ApplyOccurrence(v, t, ns, occs[0]).ns;
      if Selects(t, k, occs[0]) {
        SelectedFlagSet(v, t, ns, occs[0], k);
      } else {
        OtherFlagUntouched(v, t, ns, occs[0], k);
      }
      SwitchValue(v, t, ns1, occs[1..], k);
    }
  }

  /** One step of `Collected`: the first occurrence contributes its converted argument when routed to flag `k`. */
  lemma CollectedStep(v: Vocabularies, t: seq<FlagSpec>, ns: Namespace, occs: seq<Occurrence>, k: nat)
    requires k < |t| && |occs| > 0 && t[k].action in {Store, Append}
    requires ApplyOccurrence(v, t, ns, occs[0]).Parsed?
    ensures Selects(t, k, occs[0]) ==>
      Collected(v, t, k, occs) == [ArgValue(v, t[k], occs[0].option, occs[0].arg.value).value] + Collected(v, t, k, occs[1..])
    ensures !Selects(t, k, occs[0]) ==> Collected(v, t, k, occs) == Collected(v, t, k, occs[1..])
  {
    if Selects(t, k, occs[0]) {
      SelectedFlagSet(v, t, ns, occs[0], k);
    }
  }

  /**
   After a successful parse, a `store` flag's attribute holds the argument
   of its last occurrence, or its starting value when it was never given.
   */
  lemma {:induction false} StoreValue(v: Vocabularies, t: seq<FlagSpec>, ns: Namespace, occs: seq<Occurrence>, k: nat)
    requires UniqueDests(t) && k < |t| && DestOf(t[k]) in ns
    requires t[k].action == Store
    requires ApplyFlags(v, t, ns, occs).Parsed?
    ensures Given(t, k, occs) <==> |Collected(v, t, k, occs)| > 0
    ensures DestOf(t[k]) in ApplyFlags(v, t, ns, occs).ns
    ensures ApplyFlags(v, t, ns, occs).ns[DestOf(t[k])] ==
      if Given(t, k, occs) then Last(Collected(v, t, k, occs)) else ns[DestOf(t[k])]
    decreases |occs|
  {
    if |occs| > 0 {
      FirstStepParsed(v, t, ns, occs);
      GivenStep(t, k, occs);
      CollectedStep(v, t, ns, occs, k);
      var ns1 := ApplyOccurrence(v, t, ns, occs[0]).ns;
      if Selects(t, k, occs[0]) {
        SelectedFlagSet(v, t, ns, occs[0], k);
      } else {
        OtherFlagUntouched(v, t, ns, occs[0], k);
      }
      StoreValue(v, t, ns1, occs[1..], k);
    }
  }

  lemma AppendCombine(before: Value, x: Value, rest: seq<Value>, out: Value, restGiven: bool)
    requires restGiven <==> |rest| > 0
    requires out == if restGiven then List(Items(List(Items(before) + [x])) + rest) else List(Items(before) + [x])
    ensures out == List(Items(before) + ([x] + rest))
  {
    if restGiven {
      assert Items(before) + [x] + rest == Items(before) + ([x] + rest);
    } else {
      assert [x] + rest == [x];
    }
  }

  /**
   After a successful parse, an `append` flag's attribute is its starting
   list (None counting as empty) extended by the arguments of all its
   occurrences in the order given; it keeps its starting value, None for
   every pybugz append flag, when the flag was never given.
   */
  lemma {:induction false} AppendValue(v: Vocabularies, t: seq<FlagSpec>, ns: Namespace, occs: seq<Occurrence>, k: nat)
    requires UniqueDests(t) && k < |t| && DestOf(t[k]) in ns
    requires t[k].action == Append
    requires ApplyFlags(v, t, ns, occs).Parsed?
    ensures Given(t, k, occs) <==> |Collected(v, t, k, occs)| > 0
    ensures DestOf(t[k]) in ApplyFlags(v, t, ns, occs).ns
    ensures ApplyFlags(v, t, ns, occs).ns[DestOf(t[k])] ==
      if Given(t, k, occs) then List(Items(ns[DestOf(t[k])]) + Collected(v, t, k, occs)) else ns[DestOf(t[k])]
    decreases |occs|
  {
    if |occs| > 0 {
      var d := DestOf(t[k]);
      FirstStepParsed(v, t, ns, occs);
      GivenStep(t, k, occs);
      CollectedStep(v, t, ns, occs, k);
      var ns1 := ApplyOccurrence(v, t, ns, occs[0]).ns;
      var c1 := Collected(v, t, k, occs[1..]);
      if Selects(t, k, occs[0]) {
        SelectedFlagSet(v, t, ns, occs[0], k);
        AppendValue(v, t, ns1, occs[1..], k);
        var x := ArgValue(v, t[k], occs[0].option, occs[0].arg.value).value;
        AppendCombine(ns[d], x, c1, ApplyFlags(v, t, ns1, occs[1..]).ns[d], Given(t, k, occs[1..]));
      } else {
        OtherFlagUntouched(v, t, ns, occs[0], k);
        AppendValue(v, t, ns1, occs[1..], k);
      }
    }
  }

  /**
   A successful parse only accepted arguments inside the choice set of the
   flag they were routed to: a value outside the set makes the parse fail.
   */
  lemma {:induction false} ChoicesRespected(v: Vocabularies, t: seq<FlagSpec>, ns: Namespace, occs: seq<Occurrence>, k: nat)
    requires k < |t| && t[k].action in {Store, Append} && t[k].argType == Text && !t[k].choices.AnyValue?
    requires ApplyFlags(v, t, ns, occs).Parsed?
    ensures forall i :: 0 <= i < |occs| && Selects(t, k, occs[i]) ==>
      occs[i].arg.Some? && occs[i].arg.value in Allowed(v, t[k].choices)
    decreases |occs|
  {
    if |occs| > 0 {
      FirstStepParsed(v, t, ns, occs);
      ChoicesRespected(v, t, ApplyOccurrence(v, t, ns, occs[0]).ns, occs[1..], k);
      forall i | 0 <= i < |occs| && Selects(t, k, occs[i])
        ensures occs[i].arg.Some? && occs[i].arg.value in Allowed(v, t[k].choices)
      {
        if i > 0 {
          assert occs[1..][i - 1] == occs[i];
        }
      }
    }
  }

  /**
   For one occurrence of a choice-constrained text flag with an argument:
   it is accepted exactly when the argument is in the allowed set, and
   otherwise rejected with an invalid-choice error naming the option and the
   argument.
   */
  lemma ChoiceDecides(v: Vocabularies, t: seq<FlagSpec>, ns: Namespace, occ: Occurrence, k: nat)
    requires k < |t| && Selects(t, k, occ) && occ.arg.Some?
    requires t[k].action in {Store, Append} && t[k].argType == Text && !t[k].choices.AnyValue?
    ensures ApplyOccurrence(v, t, ns, occ).Parsed? <==> occ.arg.value in Allowed(v, t[k].choices)
    ensures occ.arg.value !in Allowed(v, t[k].choices) ==>
      ApplyOccurrence(v, t, ns, occ) == Usage(InvalidChoice(occ.option, occ.arg.value))
  {
  }

  /**
   Parsing a concatenation is parsing the first part and, if that
   succeeded, continuing with the second from its namespace; so the first
   failure or `--version` decides the outcome.
   */
  lemma {:induction false} ApplyFlagsAppend(v: Vocabularies, t: seq<FlagSpec>, ns: Namespace, a: seq<Occurrence>, b: seq<Occurrence>)
    ensures ApplyFlags(v, t, ns, a + b) ==
      match ApplyFlags(v, t, ns, a)
      case Parsed(ns1) => ApplyFlags(v, t, ns1, b)
      case other => other
    decreases |a|
  {
    if |a| > 0 {
      assert (a + b)[0] == a[0];
      assert (a + b)[1..] == a[1..] + b;
      match ApplyOccurrence(v, t, ns, a[0])
      case Parsed(ns1) => ApplyFlagsAppend(v, t, ns1, a[1..], b);
      case _ =>
    } else {
      assert a + b == b;
    }
  }

  /**
   An option no flag declares is set aside: dropping it from the command
   line changes nothing about the pass.
   */
  lemma UnknownSetAside(v: Vocabularies, t: seq<FlagSpec>, ns: Namespace, a: seq<Occurrence>, occ: Occurrence, b: seq<Occurrence>)
    requires FindFlag(t, occ.option, 0) == |t|
    ensures ApplyFlags(v, t, ns, a + [occ] + b) == ApplyFlags(v, t, ns, a + b)
  {
    assert a + [occ] + b == a + ([occ] + b);
    ApplyFlagsAppend(v, t, ns, a, [occ] + b);
    ApplyFlagsAppend(v, t, ns, a, b);
    match ApplyFlags(v, t, ns, a)
    case Parsed(ns1) =>
      assert ([occ] + b)[0] == occ && ([occ] + b)[1..] == b;
    case _ =>
  }

  /** A version flag ends the pass once the occurrences before it have parsed, whatever follows it. */
  lemma VersionStops(v: Vocabularies, t: seq<FlagSpec>, ns: Namespace, before: seq<Occurrence>, occ: Occurrence, after: seq<Occurrence>)
    requires FindFlag(t, occ.option, 0) < |t| && t[FindFlag(t, occ.option, 0)].action == Version && occ.arg.None?
    requires ApplyFlags(v, t, ns, before).Parsed?
    ensures ApplyFlags(v, t, ns, before + [occ] + after) == ShowVersion
  {
    assert before + [occ] + after == before + ([occ] + after);
    ApplyFlagsAppend(v, t, ns, before, [occ] + after);
    assert ([occ] + after)[0] == occ;
  }

  /** A lone option no flag declares leaves the namespace as it was, and is the one unrecognised option. */
  lemma UnknownAlone(v: Vocabularies, t: seq<FlagSpec>, ns: Namespace, occ: Occurrence)
    requires FindFlag(t, occ.option, 0) == |t|
    ensures ApplyFlags(v, t, ns, [occ]) == Parsed(ns)
    ensures Unrecognized(t, [occ]) == [occ.option]
  {
    assert [occ][1..] == [];
  }

  /** Every argument collected for a flag with choices is one of its allowed words. */
  lemma {:induction false} CollectedAllowed(v: Vocabularies, t: seq<FlagSpec>, k: nat, occs: seq<Occurrence>)
    requires k < |t| && t[k].argType == Text && !t[k].choices.AnyValue?
    ensures forall i :: 0 <= i < |Collected(v, t, k, occs)| ==>
      Collected(v, t, k, occs)[i].Str? && Collected(v, t, k, occs)[i].s in Allowed(v, t[k].choices)
    decreases |occs|
  {
    if |occs| > 0 {
      CollectedAllowed(v, t, k, occs[1..]);
    }
  }

  /** A stored attribute of a flag with choices, once given, is one of its allowed words. */
  lemma StoredChoice(v: Vocabularies, t: seq<FlagSpec>, k: nat, occs: seq<Occurrence>, out: Value, dflt: Value)
    requires k < |t| && t[k].argType == Text && !t[k].choices.AnyValue?
    requires var xs := Collected(v, t, k, occs); out == if |xs| > 0 then Last(xs) else dflt
    ensures |Collected(v, t, k, occs)| > 0 ==> out.Str? && out.s in Allowed(v, t[k].choices)
  {
    CollectedAllowed(v, t, k, occs);
  }

  /** An appended attribute of a flag with choices, once given, is a non-empty list of allowed words. */
  lemma AppendedChoices(v: Vocabularies, t: seq<FlagSpec>, k: nat, occs: seq<Occurrence>, out: Value)
    requires k < |t| && t[k].argType == Text && !t[k].choices.AnyValue?
    requires var xs := Collected(v, t, k, occs); out == if |xs| > 0 then List(xs) else Absent
    ensures |Collected(v, t, k, occs)| > 0 ==>
      && out.List? && |out.items| > 0
      && forall i :: 0 <= i < |out.items| ==> out.items[i].Str? && out.items[i].s in Allowed(v, t[k].choices)
  {
    CollectedAllowed(v, t, k, occs);
  }

  /** Every argument collected for an integer flag is an integer. */
  lemma {:induction false} CollectedInts(v: Vocabularies, t: seq<FlagSpec>, k: nat, occs: seq<Occurrence>)
    requires k < |t| && t[k].argType == Integer
    ensures forall i :: 0 <= i < |Collected(v, t, k, occs)| ==> Collected(v, t, k, occs)[i].Int?
    decreases |occs|
  {
    if |occs| > 0 {
      CollectedInts(v, t, k, occs[1..]);
    }
  }

  /** A stored attribute of an integer flag, once given, is an integer. */
  lemma StoredInt(v: Vocabularies, t: seq<FlagSpec>, k: nat, occs: seq<Occurrence>, out: Value, dflt: Value)
    requires k < |t| && t[k].argType == Integer
    requires var xs := Collected(v, t, k, occs); out == if |xs| > 0 then Last(xs) else dflt
    ensures |Collected(v, t, k, occs)| > 0 ==> out.Int?
  {
    CollectedInts(v, t, k, occs);
  }

  /** Flag `k` of `c` stores into an attribute of its own: no other flag, no positional and not the handler uses it. */
  predicate OwnFlag(c: CommandSpec, k: nat)
  {
    && UniqueDests(c.flags) && k < |c.flags| && c.flags[k].action != Version
    && DestOf(c.flags[k]) !in PosDests(c.positionals) && DestOf(c.flags[k]) != "func"
  }

  /** The same for the sub-command a parse chose. */
  predicate OwnAttribute(g: Grammar, v: Vocabularies, inv: Invocation, k: nat)
    requires Resolve(g, v, inv).Parsed?
  {
    OwnFlag(Chosen(g, inv), k)
  }

  /** The sub-command's flag pass decides the attribute of such a flag, starting from its effective default. */
  lemma OwnAttributeValue(g: Grammar, v: Vocabularies, inv: Invocation, k: nat)
    requires Resolve(g, v, inv).Parsed? && OwnAttribute(g, v, inv, k)
    ensures var c := Chosen(g, inv); var d := DestOf(c.flags[k]);
      && CommandPass(g, v, inv).Parsed?
      && d in CommandStart(c, TopPass(g, v, inv).ns)
      && CommandStart(c, TopPass(g, v, inv).ns)[d] == EffectiveDefault(c.flags[k])
      && d in CommandPass(g, v, inv).ns && d in Resolve(g, v, inv).ns
      && Resolve(g, v, inv).ns[d] == CommandPass(g, v, inv).ns[d]
  {
    var c := Chosen(g, inv);
    ResolveCommand(g, v, inv);
    StartValue(c, TopPass(g, v, inv).ns, k);
  }

  /** In a whole parse, a `store_true`/`store_false` flag of the sub-command is set exactly when given. */
  lemma SwitchOutcome(g: Grammar, v: Vocabularies, inv: Invocation, k: nat)
    requires Resolve(g, v, inv).Parsed? && OwnAttribute(g, v, inv, k)
    requires Chosen(g, inv).flags[k].action in {StoreTrue, StoreFalse}
    ensures var c := Chosen(g, inv); var d := DestOf(c.flags[k]);
      && d in Resolve(g, v, inv).ns
      && Resolve(g, v, inv).ns[d] ==
        if Given(c.flags, k, inv.commandFlags) then Bool(c.flags[k].action == StoreTrue) else EffectiveDefault(c.flags[k])
  {
    var c := Chosen(g, inv);
    OwnAttributeValue(g, v, inv, k);
    SwitchValue(v, c.flags, CommandStart(c, TopPass(g, v, inv).ns), inv.commandFlags, k);
  }

  /** In a whole parse, a storing flag of the sub-command holds its last converted argument, or its default. */
  lemma StoreOutcome(g: Grammar, v: Vocabularies, inv: Invocation, k: nat)
    requires Resolve(g, v, inv).Parsed? && OwnAttribute(g, v, inv, k)
    requires Chosen(g, inv).flags[k].action == Store
    ensures var c := Chosen(g, inv); var d := DestOf(c.flags[k]); var xs := Collected(v, c.flags, k, inv.commandFlags);
      && (Given(c.flags, k, inv.commandFlags) <==> |xs| > 0)
      && d in Resolve(g, v, inv).ns
      && Resolve(g, v, inv).ns[d] == if |xs| > 0 then Last(xs) else EffectiveDefault(c.flags[k])
  {
    var c := Chosen(g, inv);
    OwnAttributeValue(g, v, inv, k);
    StoreValue(v, c.flags, CommandStart(c, TopPass(g, v, inv).ns), inv.commandFlags, k);
  }

  /** In a whole parse, an appending flag of the sub-command holds its converted arguments in order, or its default. */
  lemma AppendOutcome(g: Grammar, v: Vocabularies, inv: Invocation, k: nat)
    requires Resolve(g, v, inv).Parsed? && OwnAttribute(g, v, inv, k)
    requires Chosen(g, inv).flags[k].action == Append
    ensures var c := Chosen(g, inv); var d := DestOf(c.flags[k]); var xs := Collected(v, c.flags, k, inv.commandFlags);
      && (Given(c.flags, k, inv.commandFlags) <==> |xs| > 0)
      && d in Resolve(g, v, inv).ns
      && Resolve(g, v, inv).ns[d] ==
        if |xs| > 0 then List(Items(EffectiveDefault(c.flags[k])) + xs) else EffectiveDefault(c.flags[k])
  {
    var c := Chosen(g, inv);
    OwnAttributeValue(g, v, inv, k);
    AppendValue(v, c.flags, CommandStart(c, TopPass(g, v, inv).ns), inv.commandFlags, k);
  }

  /** Appending to an attribute that starts as None gives exactly the arguments, or None when there are none. */
  lemma AppendFromNone(out: Value, xs: seq<Value>)
    requires out == if |xs| > 0 then List(Items(Absent) + xs) else Absent
    ensures out == if |xs| > 0 then List(xs) else Absent
  {
    assert Items(Absent) + xs == xs;
  }

  /** In a whole parse, every argument routed to a choice-constrained flag of the sub-command is an allowed word. */
  lemma ChoiceOutcome(g: Grammar, v: Vocabularies, inv: Invocation, k: nat)
    requires Resolve(g, v, inv).Parsed?
    requires var c := Chosen(g, inv);
      k < |c.flags| && c.flags[k].action in {Store, Append} && c.flags[k].argType == Text && !c.flags[k].choices.AnyValue?
    ensures var c := Chosen(g, inv); var occs := inv.commandFlags;
      forall i :: 0 <= i < |occs| && Selects(c.flags, k, occs[i]) ==>
        occs[i].arg.Some? && occs[i].arg.value in Allowed(v, c.flags[k].choices)
  {
    var c := Chosen(g, inv);
    ResolveCommand(g, v, inv);
    ChoicesRespected(v, c.flags, CommandStart(c, TopPass(g, v, inv).ns), inv.commandFlags, k);
  }

  /**
   A choice flag given a word outside its choices ends the pass with that
   invalid choice, once the occurrences before it have parsed, whatever
   follows it.
   */
  lemma ChoiceStops(v: Vocabularies, t: seq<FlagSpec>, ns: Namespace, before: seq<Occurrence>, occ: Occurrence, after: seq<Occurrence>, k: nat)
    requires k < |t| && Selects(t, k, occ) && occ.arg.Some?
    requires t[k].action in {Store, Append} && t[k].argType == Text && !t[k].choices.AnyValue?
    requires occ.arg.value !in Allowed(v, t[k].choices)
    requires ApplyFlags(v, t, ns, before).Parsed?
    ensures ApplyFlags(v, t, ns, before + [occ] + after) == Usage(InvalidChoice(occ.option, occ.arg.value))
  {
    assert before + [occ] + after == before + ([occ] + after);
    ApplyFlagsAppend(v, t, ns, before, [occ] + after);
    assert ([occ] + after)[0] == occ;
    ChoiceDecides(v, t, ApplyFlags(v, t, ns, before).ns, occ, k);
  }

  /**
   A sub-command occurrence that gives a choice flag a word outside its
   choices makes the whole parse fail with that invalid choice, provided
   the sub-command occurrences before it parse.
   */
  lemma ChoiceRejected(g: Grammar, v: Vocabularies, inv: Invocation, c: CommandSpec, k: nat, before: seq<Occurrence>, occ: Occurrence, after: seq<Occurrence>)
    requires inv.command.Some? && FindCommand(g.commands, inv.command.value, 0) < |g.commands|
    requires Chosen(g, inv) == c && TopPass(g, v, inv).Parsed?
    requires inv.commandFlags == before + [occ] + after
    requires ApplyFlags(v, c.flags, CommandStart(c, TopPass(g, v, inv).ns), before).Parsed?
    requires k < |c.flags| && Selects(c.flags, k, occ) && occ.arg.Some?
    requires c.flags[k].action in {Store, Append} && c.flags[k].argType == Text && !c.flags[k].choices.AnyValue?
    requires occ.arg.value !in Allowed(v, c.flags[k].choices)
    ensures Resolve(g, v, inv) == Usage(InvalidChoice(occ.option, occ.arg.value))
  {
    ChoiceStops(v, c.flags, CommandStart(c, TopPass(g, v, inv).ns), before, occ, after, k);
    CommandPassFails(g, v, inv);
  }

  /** A single switch occurrence without an argument sets its attribute. */
  lemma OneSwitch(v: Vocabularies, t: seq<FlagSpec>, ns: Namespace, occ: Occurrence, k: nat)
    requires k < |t| && Selects(t, k, occ) && t[k].action in {StoreTrue, StoreFalse} && occ.arg.None?
    ensures ApplyFlags(v, t, ns, [occ]) == Parsed(ns[DestOf(t[k]) := Bool(t[k].action == StoreTrue)])
  {
    assert [occ][1..] == [];
  }

  /** Occurrences that are all routed to one flag leave nothing unrecognised. */
  lemma {:induction false} RoutedRecognized(t: seq<FlagSpec>, k: nat, occs: seq<Occurrence>)
    requires k < |t| && forall i :: 0 <= i < |occs| ==> Selects(t, k, occs[i])
    ensures Unrecognized(t, occs) == []
    decreases |occs|
  {
    if |occs| > 0 {
      assert Selects(t, k, occs[0]);
      RoutedRecognized(t, k, occs[1..]);
    }
  }

  /** Occurrences that all give an argument to one free-text flag always parse. */
  lemma {:induction false} FreeTextParses(v: Vocabularies, t: seq<FlagSpec>, ns: Namespace, occs: seq<Occurrence>, k: nat)
    requires k < |t| && t[k].action in {Store, Append} && t[k].argType == Text && t[k].choices.AnyValue?
    requires forall i :: 0 <= i < |occs| ==> Selects(t, k, occs[i]) && occs[i].arg.Some?
    ensures ApplyFlags(v, t, ns, occs).Parsed?
    ensures Collected(v, t, k, occs) == Args(occs)
    decreases |occs|
  {
    if |occs| > 0 {
      assert Selects(t, k, occs[0]);
      var ns1 := ApplyOccurrence(v, t, ns, occs[0]);
      assert ns1.Parsed?;
      FreeTextParses(v, t, ns1.ns, occs[1..], k);
      assert Args(occs) == [Str(occs[0].arg.value)] + Args(occs[1..]);
    }
  }
}

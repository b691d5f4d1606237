/**
 What each pybugz sub-command's parser leaves in the namespace: the values
 of its flags after any sequence of occurrences, the defaults the handlers
 rely on, and a few invocations worked through end to end.
 */
module Subcommands {
  import opened Values
  import opened ArgText
  import opened Grammar
  import opened Tables
  import opened TableFacts
  import opened Actions

  /** A command line without global flags whose sub-command flags all reach flag `k` of `c` leaves nothing unrecognised. */
  lemma RecognizedIn(c: CommandSpec, inv: Invocation, k: nat)
    requires inv.globalFlags == []
    requires k < |c.flags| && forall i :: 0 <= i < |inv.commandFlags| ==> Selects(c.flags, k, inv.commandFlags[i])
    ensures Unknown(Bugz, c, inv) == []
  {
    RoutedRecognized(c.flags, k, inv.commandFlags);
  }

  /** `get` names the third sub-command. */
  lemma ChosenGet(inv: Invocation)
    requires inv.command == Some("get")
    ensures FindCommand(Bugz.commands, "get", 0) == 2 && Chosen(Bugz, inv) == GetCommand
  {
    CommandNames();
    FindCommandAt(Bugz.commands, "get", 2);
  }

  /** The options that reach the two `get` flags. */
  lemma GetOptions(o: OptionString, arg: Option<string>)
    ensures Selects(GetFlags, 0, Occurrence(o, arg)) <==> o == Short('a') || o == Long(["no", "attachments"])
    ensures Selects(GetFlags, 1, Occurrence(o, arg)) <==> o == Short('n') || o == Long(["no", "comments"])
  {
    assert GetFlags[0] == GetNoAttachments && GetFlags[1] == GetNoComments;
  }

  /** What the `get` handler finds in its two flags' attributes. */
  lemma GetFlagFacts()
    ensures OwnFlag(GetCommand, 0) && OwnFlag(GetCommand, 1)
    ensures DestOf(GetFlags[0]) == "attachments" && GetFlags[0].action == StoreFalse
    ensures DestOf(GetFlags[1]) == "comments" && GetFlags[1].action == StoreFalse
    ensures EffectiveDefault(GetFlags[0]) == Bool(true) && EffectiveDefault(GetFlags[1]) == Bool(true)
    ensures AllExactlyOne(GetCommand.positionals) && GetCommand.positionals[0].dest == "bugid"
  {
    GetLayout();
    GetNamed();
    assert NameAt(GetFlags, GetDests, 0) && NameAt(GetFlags, GetDests, 1);
    assert GetFlags[0] == GetNoAttachments && GetFlags[1] == GetNoComments;
    assert PosDests(GetCommand.positionals) == {"bugid"} by {
      assert GetCommand.positionals[0].dest == "bugid";
    }
  }

  /** The `get` values in any grammar whose chosen command is pybugz's `get`. */
  lemma GetValuesIn(g: Grammar, v: Vocabularies, inv: Invocation)
    requires Resolve(g, v, inv).Parsed?
    requires Chosen(g, inv) == GetCommand
    ensures |inv.tokens| == 1
    ensures var ns := Resolve(g, v, inv).ns;
      && "bugid" in ns && ns["bugid"] == Str(inv.tokens[0])
      && "attachments" in ns && ns["attachments"] == Bool(!Given(GetFlags, 0, inv.commandFlags))
      && "comments" in ns && ns["comments"] == Bool(!Given(GetFlags, 1, inv.commandFlags))
  {
    GetFlagFacts();
    SwitchOutcome(g, v, inv, 0);
    SwitchOutcome(g, v, inv, 1);
    ResolveCommand(g, v, inv);
  }

  /**
   `get BUGID`: attachments and comments are shown unless `-a` or `-n`
   asked otherwise, each flag turning off only its own attribute.
   */
  lemma GetValues(v: Vocabularies, inv: Invocation)
    requires inv.command == Some("get")
    requires Resolve(Bugz, v, inv).Parsed?
    ensures |inv.tokens| == 1
    ensures var ns := Resolve(Bugz, v, inv).ns;
      && "bugid" in ns && ns["bugid"] == Str(inv.tokens[0])
      && "attachments" in ns && ns["attachments"] == Bool(!Given(GetFlags, 0, inv.commandFlags))
      && "comments" in ns && ns["comments"] == Bool(!Given(GetFlags, 1, inv.commandFlags))
  {
    ChosenGet(inv);
    GetValuesIn(Bugz, v, inv);
  }

  /** `get -a BUGID` parses, hiding the attachments and still showing the comments. */
  lemma GetWithoutAttachments(v: Vocabularies, bugid: string)
    ensures var inv := Invocation([], Some("get"), [Occurrence(Short('a'), None)], [bugid]);
      && Resolve(Bugz, v, inv).Parsed?
      && var ns := Resolve(Bugz, v, inv).ns;
      && "bugid" in ns && ns["bugid"] == Str(bugid)
      && "attachments" in ns && ns["attachments"] == Bool(false)
      && "comments" in ns && ns["comments"] == Bool(true)
  {
    var occ := Occurrence(Short('a'), None);
    var inv := Invocation([], Some("get"), [occ], [bugid]);
    ChosenGet(inv);
    TopPassEmpty(Bugz, v, inv);
    GetFlagFacts();
    GetOptions(Short('a'), None);
    OneSwitch(v, GetFlags, CommandStart(GetCommand, Defaults(GlobalFlags)), occ, 0);
    assert |GetCommand.positionals| == 1;
    RecognizedIn(GetCommand, inv, 0);
    ResolveParses(Bugz, v, inv);
    GetValues(v, inv);
    assert inv.commandFlags[0] == occ;
  }

  /** `get BUGID` with no flags parses. */
  lemma GetPlainParses(v: Vocabularies, bugid: string)
    ensures Resolve(Bugz, v, Invocation([], Some("get"), [], [bugid])).Parsed?
  {
    var inv := Invocation([], Some("get"), [], [bugid]);
    ChosenGet(inv);
    TopPassEmpty(Bugz, v, inv);
    assert |GetCommand.positionals| == 1;
    RecognizedIn(GetCommand, inv, 0);
    ResolveParses(Bugz, v, inv);
  }

  /** `get BUGID` with no flags shows both the attachments and the comments, their `store_false` defaults. */
  lemma GetPlain(v: Vocabularies, bugid: string)
    ensures var inv := Invocation([], Some("get"), [], [bugid]);
      && Resolve(Bugz, v, inv).Parsed?
      && var ns := Resolve(Bugz, v, inv).ns;
      && "bugid" in ns && ns["bugid"] == Str(bugid)
      && "attachments" in ns && ns["attachments"] == Bool(true)
      && "comments" in ns && ns["comments"] == Bool(true)
  {
    var inv := Invocation([], Some("get"), [], [bugid]);
    GetPlainParses(v, bugid);
    GetValues(v, inv);
  }

  /** No `get` flag declares `--bogus`. */
  lemma GetBogusUndeclared()
    ensures FindFlag(GetFlags, Long(["bogus"]), 0) == |GetFlags|
  {
    assert |GetFlags| == 2 && GetFlags[0] == GetNoAttachments && GetFlags[1] == GetNoComments;
  }

  /** The passes of `get --bogus BUGID`: both succeed, the token binds, and `--bogus` is left over. */
  lemma GetBogusPasses(v: Vocabularies, inv: Invocation)
    requires inv.globalFlags == [] && inv.command == Some("get") && |inv.tokens| == 1
    requires inv.commandFlags == [Occurrence(Long(["bogus"]), None)]
    ensures FindCommand(Bugz.commands, "get", 0) < |Bugz.commands| && Chosen(Bugz, inv) == GetCommand
    ensures TopPass(Bugz, v, inv).Parsed? && CommandPass(Bugz, v, inv).Parsed?
    ensures BindPositionals(GetCommand.positionals, inv.tokens).Ok?
    ensures Unknown(Bugz, GetCommand, inv) == [Long(["bogus"])]
  {
    ChosenGet(inv);
    TopPassEmpty(Bugz, v, inv);
    GetBogusUndeclared();
    UnknownAlone(v, GetFlags, CommandStart(GetCommand, Defaults(GlobalFlags)), inv.commandFlags[0]);
    assert |GetCommand.positionals| == 1 && AllExactlyOne(GetCommand.positionals);
    assert Unknown(Bugz, GetCommand, inv) == [] + [Long(["bogus"])];
  }

  /**
   `get --bogus BUGID`: the undeclared option does not stop the parse, but
   once it is over it is reported as an unrecognized argument.
   */
  lemma GetUnknownOption(v: Vocabularies, bugid: string)
    ensures var inv := Invocation([], Some("get"), [Occurrence(Long(["bogus"]), None)], [bugid]);
      Resolve(Bugz, v, inv) == Usage(UnrecognizedArguments([Long(["bogus"])], []))
  {
    var inv := Invocation([], Some("get"), [Occurrence(Long(["bogus"]), None)], [bugid]);
    GetBogusPasses(v, inv);
    UnknownReported(Bugz, v, inv);
  }

  /** The names of pybugz's sub-commands, in the order `make_parser` adds them. */
  lemma CommandNames()
    ensures |Bugz.commands| == 7
    ensures Bugz.commands[0] == AttachCommand && Bugz.commands[1] == AttachmentCommand
    ensures Bugz.commands[2] == GetCommand && Bugz.commands[3] == ModifyCommand
    ensures Bugz.commands[4] == NamedcmdCommand && Bugz.commands[5] == PostCommand
    ensures Bugz.commands[6] == SearchCommand
    ensures AttachCommand.name == "attach" && AttachmentCommand.name == "attachment"
    ensures GetCommand.name == "get" && ModifyCommand.name == "modify"
    ensures NamedcmdCommand.name == "namedcmd" && PostCommand.name == "post" && SearchCommand.name == "search"
  {
  }

  /** A name no sub-command has is not found. */
  lemma UnknownName(name: string)
    requires name !in {"attach", "attachment", "get", "modify", "namedcmd", "post", "search"}
    ensures FindCommand(Bugz.commands, name, 0) == |Bugz.commands|
  {
    CommandNames();
  }

  /** `attachment` names the second sub-command. */
  lemma ChosenAttachment(inv: Invocation)
    requires inv.command == Some("attachment")
    ensures FindCommand(Bugz.commands, "attachment", 0) == 1 && Chosen(Bugz, inv) == AttachmentCommand
  {
    CommandNames();
    FindCommandAt(Bugz.commands, "attachment", 1);
  }

  /** `namedcmd` names the fifth sub-command. */
  lemma ChosenNamedcmd(inv: Invocation)
    requires inv.command == Some("namedcmd")
    ensures FindCommand(Bugz.commands, "namedcmd", 0) == 4 && Chosen(Bugz, inv) == NamedcmdCommand
  {
    CommandNames();
    FindCommandAt(Bugz.commands, "namedcmd", 4);
  }

  /** `search` names the last sub-command. */
  lemma ChosenSearch(inv: Invocation)
    requires inv.command == Some("search")
    ensures FindCommand(Bugz.commands, "search", 0) == 6 && Chosen(Bugz, inv) == SearchCommand
  {
    CommandNames();
    FindCommandAt(Bugz.commands, "search", 6);
  }

  /** The `search` flags the handler reads most: `--order`, `--status`, `--severity` and `--comments`. */
  lemma SearchFlagFacts()
    ensures OwnFlag(SearchCommand, 0) && OwnFlag(SearchCommand, 5) && OwnFlag(SearchCommand, 6) && OwnFlag(SearchCommand, 8)
    ensures SearchFlags[0] == SearchOrder && DestOf(SearchOrder) == "order"
    ensures SearchFlags[5] == SearchStatus && DestOf(SearchStatus) == "status"
    ensures SearchFlags[6] == SearchSeverity && DestOf(SearchSeverity) == "severity"
    ensures SearchFlags[8] == SearchComments && DestOf(SearchComments) == "comments"
    ensures SearchCommand.positionals == [Positional("terms", ZeroOrMore)]
  {
    SearchLayout();
    SearchNames0();
    SearchNames1();
    assert PosDests(SearchCommand.positionals) == {"terms"} by {
      assert SearchCommand.positionals[0].dest == "terms";
    }
  }

  /** The defaults and choice sets of those `search` flags. */
  lemma SearchDefaults(v: Vocabularies)
    ensures EffectiveDefault(SearchOrder) == Str("number") && Allowed(v, SearchOrder.choices) == v.order
    ensures EffectiveDefault(SearchStatus) == Absent && EffectiveDefault(SearchComments) == Absent
    ensures EffectiveDefault(SearchSeverity) == Absent && Allowed(v, SearchSeverity.choices) == v.severity
  {
  }

  /** The search terms in any grammar whose chosen command is pybugz's `search`. */
  lemma SearchTermsIn(g: Grammar, v: Vocabularies, inv: Invocation)
    requires Resolve(g, v, inv).Parsed?
    requires Chosen(g, inv) == SearchCommand
    ensures var ns := Resolve(g, v, inv).ns;
      && "terms" in ns && ns["terms"] == List(StrValues(inv.tokens))
  {
    SearchFlagFacts();
    SearchDefaults(v);
    ResolveCommand(g, v, inv);
  }

  /** The statuses in any grammar whose chosen command is pybugz's `search`. */
  lemma SearchStatusIn(g: Grammar, v: Vocabularies, inv: Invocation)
    requires Resolve(g, v, inv).Parsed?
    requires Chosen(g, inv) == SearchCommand
    ensures var ns := Resolve(g, v, inv).ns; var occs := inv.commandFlags;
      && "status" in ns
      && ns["status"] == (if Given(SearchFlags, 5, occs) then List(Collected(v, SearchFlags, 5, occs)) else Absent)
  {
    SearchFlagFacts();
    SearchDefaults(v);
    AppendOutcome(g, v, inv, 5);
    AppendFromNone(Resolve(g, v, inv).ns["status"], Collected(v, SearchFlags, 5, inv.commandFlags));
  }

  /** The comment switch in any grammar whose chosen command is pybugz's `search`. */
  lemma SearchCommentsIn(g: Grammar, v: Vocabularies, inv: Invocation)
    requires Resolve(g, v, inv).Parsed?
    requires Chosen(g, inv) == SearchCommand
    ensures var ns := Resolve(g, v, inv).ns; var occs := inv.commandFlags;
      && "comments" in ns && ns["comments"] == (if Given(SearchFlags, 8, occs) then Bool(true) else Absent)
  {
    SearchFlagFacts();
    SearchDefaults(v);
    SwitchOutcome(g, v, inv, 8);
  }

  /** The sort order in any grammar whose chosen command is pybugz's `search`. */
  lemma SearchOrderIn(g: Grammar, v: Vocabularies, inv: Invocation)
    requires Resolve(g, v, inv).Parsed?
    requires Chosen(g, inv) == SearchCommand
    ensures var ns := Resolve(g, v, inv).ns; var occs := inv.commandFlags; var xs := Collected(v, SearchFlags, 0, occs);
      && (Given(SearchFlags, 0, occs) <==> |xs| > 0)
      && "order" in ns && ns["order"] == (if |xs| > 0 then Last(xs) else Str("number"))
      && (Given(SearchFlags, 0, occs) ==> ns["order"].Str? && ns["order"].s in v.order)
  {
    SearchFlagFacts();
    SearchDefaults(v);
    StoreOutcome(g, v, inv, 0);
    StoredChoice(v, SearchFlags, 0, inv.commandFlags, Resolve(g, v, inv).ns["order"], EffectiveDefault(SearchOrder));
  }

  /** The severities in any grammar whose chosen command is pybugz's `search`. */
  lemma SearchSeverityIn(g: Grammar, v: Vocabularies, inv: Invocation)
    requires Resolve(g, v, inv).Parsed?
    requires Chosen(g, inv) == SearchCommand
    ensures var ns := Resolve(g, v, inv).ns; var occs := inv.commandFlags; var xs := Collected(v, SearchFlags, 6, occs);
      && "severity" in ns
      && ns["severity"] == (if Given(SearchFlags, 6, occs) then List(xs) else Absent)
      && (Given(SearchFlags, 6, occs) ==>
            && |xs| > 0
            && forall i :: 0 <= i < |xs| ==> xs[i].Str? && xs[i].s in v.severity)
  {
    SearchFlagFacts();
    SearchDefaults(v);
    AppendOutcome(g, v, inv, 6);
    AppendFromNone(Resolve(g, v, inv).ns["severity"], Collected(v, SearchFlags, 6, inv.commandFlags));
    AppendedChoices(v, SearchFlags, 6, inv.commandFlags, Resolve(g, v, inv).ns["severity"]);
  }

  /** `--status` is the first `search` option that spells the status flag. */
  lemma SearchStatusLong()
    ensures SearchFlags[5] == SearchStatus && FindFlag(SearchFlags, Long(["status"]), 0) == 5
  {
    SearchItems0();
    assert FindFlag(SearchFlags, Long(["status"]), 4) == 5;
    assert FindFlag(SearchFlags, Long(["status"]), 3) == 5;
    assert FindFlag(SearchFlags, Long(["status"]), 2) == 5;
    assert FindFlag(SearchFlags, Long(["status"]), 1) == 5;
  }

  /** So is `-s`. */
  lemma SearchStatusShort()
    ensures SearchFlags[5] == SearchStatus && FindFlag(SearchFlags, Short('s'), 0) == 5
  {
    SearchItems0();
    assert FindFlag(SearchFlags, Short('s'), 4) == 5;
    assert FindFlag(SearchFlags, Short('s'), 3) == 5;
    assert FindFlag(SearchFlags, Short('s'), 2) == 5;
    assert FindFlag(SearchFlags, Short('s'), 1) == 5;
  }

  /**
   `search TERMS...`: the terms are kept in order, `--status` accumulates
   every status given (None when there is none), and `--comments` is None
   unless given.
   */
  lemma SearchValues(v: Vocabularies, inv: Invocation)
    requires inv.command == Some("search")
    requires Resolve(Bugz, v, inv).Parsed?
    ensures var ns := Resolve(Bugz, v, inv).ns; var occs := inv.commandFlags;
      && "terms" in ns && ns["terms"] == List(StrValues(inv.tokens))
      && "status" in ns
      && ns["status"] == (if Given(SearchFlags, 5, occs) then List(Collected(v, SearchFlags, 5, occs)) else Absent)
      && "comments" in ns && ns["comments"] == (if Given(SearchFlags, 8, occs) then Bool(true) else Absent)
  {
    ChosenSearch(inv);
    SearchTermsIn(Bugz, v, inv);
    SearchStatusIn(Bugz, v, inv);
    SearchCommentsIn(Bugz, v, inv);
  }

  /**
   `search`: the order is the last `-o` given, one of the configured keys,
   and `number` when none was; the severities are the `--severity` words
   given, in order, each a configured one, and None when none was.
   */
  lemma SearchChoices(v: Vocabularies, inv: Invocation)
    requires inv.command == Some("search")
    requires Resolve(Bugz, v, inv).Parsed?
    ensures var ns := Resolve(Bugz, v, inv).ns; var occs := inv.commandFlags;
      var orders := Collected(v, SearchFlags, 0, occs); var severities := Collected(v, SearchFlags, 6, occs);
      && (Given(SearchFlags, 0, occs) <==> |orders| > 0)
      && "order" in ns && ns["order"] == (if |orders| > 0 then Last(orders) else Str("number"))
      && (Given(SearchFlags, 0, occs) ==> ns["order"].Str? && ns["order"].s in v.order)
      && "severity" in ns
      && ns["severity"] == (if Given(SearchFlags, 6, occs) then List(severities) else Absent)
      && (Given(SearchFlags, 6, occs) ==>
            && |severities| > 0
            && forall i :: 0 <= i < |severities| ==> severities[i].Str? && severities[i].s in v.severity)
  {
    ChosenSearch(inv);
    SearchOrderIn(Bugz, v, inv);
    SearchSeverityIn(Bugz, v, inv);
  }

  /** `modify` names the fourth sub-command. */
  lemma ChosenModify(inv: Invocation)
    requires inv.command == Some("modify")
    ensures FindCommand(Bugz.commands, "modify", 0) == 3 && Chosen(Bugz, inv) == ModifyCommand
  {
    CommandNames();
    FindCommandAt(Bugz.commands, "modify", 3);
  }

  /** The `modify` flag for `--duplicate`. */
  lemma ModifyDuplicateFlag()
    ensures OwnFlag(ModifyCommand, 4) && ModifyFlags[4] == ModifyDuplicate && DestOf(ModifyDuplicate) == "duplicate"
  {
    ModifyLayout();
    ModifyNames0();
    ModifyItems0();
    assert PosDests(ModifyCommand.positionals) == {"bugid"} by {
      assert ModifyCommand.positionals[0].dest == "bugid";
    }
  }

  /** The `modify` flag for `--severity`. */
  lemma ModifySeverityFlag()
    ensures OwnFlag(ModifyCommand, 9) && ModifyFlags[9] == ModifySeverity && DestOf(ModifySeverity) == "severity"
  {
    ModifyLayout();
    ModifyNames1();
    ModifyItems1();
    assert PosDests(ModifyCommand.positionals) == {"bugid"} by {
      assert ModifyCommand.positionals[0].dest == "bugid";
    }
  }

  /** Their actions, types, defaults and choice sets. */
  lemma ModifyDefaults(v: Vocabularies)
    ensures ModifyDuplicate.action == Store && ModifyDuplicate.argType == Integer
    ensures EffectiveDefault(ModifyDuplicate) == Int(0)
    ensures ModifySeverity.action == Store && ModifySeverity.argType == Text && !ModifySeverity.choices.AnyValue?
    ensures EffectiveDefault(ModifySeverity) == Absent && Allowed(v, ModifySeverity.choices) == v.severity
  {
  }

  /** `--duplicate` in any grammar whose chosen command is pybugz's `modify`. */
  lemma ModifyDuplicateIn(g: Grammar, v: Vocabularies, inv: Invocation)
    requires Resolve(g, v, inv).Parsed?
    requires Chosen(g, inv) == ModifyCommand
    ensures var ns := Resolve(g, v, inv).ns; var occs := inv.commandFlags; var xs := Collected(v, ModifyFlags, 4, occs);
      && (Given(ModifyFlags, 4, occs) <==> |xs| > 0)
      && "duplicate" in ns && ns["duplicate"] == (if |xs| > 0 then Last(xs) else Int(0))
      && (Given(ModifyFlags, 4, occs) ==> ns["duplicate"].Int?)
  {
    ModifyDuplicateFlag();
    ModifyDefaults(v);
    StoreOutcome(g, v, inv, 4);
    StoredInt(v, ModifyFlags, 4, inv.commandFlags, Resolve(g, v, inv).ns["duplicate"], Int(0));
  }

  /** `--severity` in any grammar whose chosen command is pybugz's `modify`. */
  lemma ModifySeverityIn(g: Grammar, v: Vocabularies, inv: Invocation)
    requires Resolve(g, v, inv).Parsed?
    requires Chosen(g, inv) == ModifyCommand
    ensures var ns := Resolve(g, v, inv).ns; var occs := inv.commandFlags; var xs := Collected(v, ModifyFlags, 9, occs);
      && (Given(ModifyFlags, 9, occs) <==> |xs| > 0)
      && "severity" in ns && ns["severity"] == (if |xs| > 0 then Last(xs) else Absent)
      && (Given(ModifyFlags, 9, occs) ==> ns["severity"].Str? && ns["severity"].s in v.severity)
  {
    ModifySeverityFlag();
    ModifyDefaults(v);
    StoreOutcome(g, v, inv, 9);
    StoredChoice(v, ModifyFlags, 9, inv.commandFlags, Resolve(g, v, inv).ns["severity"], Absent);
  }

  /**
   `modify BUGID`: the duplicate number is the last integer `-d` gave, and
   0, meaning "not a duplicate", when none was; the severity is the last
   `-S` word, a configured one, and None when none was.
   */
  lemma ModifyValues(v: Vocabularies, inv: Invocation)
    requires inv.command == Some("modify")
    requires Resolve(Bugz, v, inv).Parsed?
    ensures var ns := Resolve(Bugz, v, inv).ns; var occs := inv.commandFlags;
      var dups := Collected(v, ModifyFlags, 4, occs); var severities := Collected(v, ModifyFlags, 9, occs);
      && (Given(ModifyFlags, 4, occs) <==> |dups| > 0)
      && "duplicate" in ns && ns["duplicate"] == (if |dups| > 0 then Last(dups) else Int(0))
      && (Given(ModifyFlags, 4, occs) ==> ns["duplicate"].Int?)
      && (Given(ModifyFlags, 9, occs) <==> |severities| > 0)
      && "severity" in ns && ns["severity"] == (if |severities| > 0 then Last(severities) else Absent)
      && (Given(ModifyFlags, 9, occs) ==> ns["severity"].Str? && ns["severity"].s in v.severity)
  {
    ChosenModify(inv);
    ModifyDuplicateIn(Bugz, v, inv);
    ModifySeverityIn(Bugz, v, inv);
  }

  /** `-S` is the first `modify` option that spells the severity flag. */
  lemma ModifySeverityOption()
    ensures FindFlag(ModifyFlags, Short('S'), 0) == 9 && ModifyFlags[9] == ModifySeverity
  {
    ModifyItems0();
    ModifyItems1();
    assert FindFlag(ModifyFlags, Short('S'), 9) == 9;
    assert FindFlag(ModifyFlags, Short('S'), 8) == 9;
    assert FindFlag(ModifyFlags, Short('S'), 7) == 9;
    assert FindFlag(ModifyFlags, Short('S'), 6) == 9;
    assert FindFlag(ModifyFlags, Short('S'), 5) == 9;
    assert FindFlag(ModifyFlags, Short('S'), 4) == 9;
    assert FindFlag(ModifyFlags, Short('S'), 3) == 9;
    assert FindFlag(ModifyFlags, Short('S'), 2) == 9;
    assert FindFlag(ModifyFlags, Short('S'), 1) == 9;
  }

  /** `-c` is `modify`'s fourth flag, the free-text comment. */
  lemma ModifyCommentOption()
    ensures FindFlag(ModifyFlags, Short('c'), 0) == 3 && ModifyFlags[3] == ModifyComment
  {
    ModifyItems0();
    assert FindFlag(ModifyFlags, Short('c'), 3) == 3;
    assert FindFlag(ModifyFlags, Short('c'), 2) == 3;
    assert FindFlag(ModifyFlags, Short('c'), 1) == 3;
  }

  /** `modify -S WORD BUGID` with a severity the configuration does not list is a usage error naming `-S` and the word. */
  lemma ModifyRejectsSeverity(v: Vocabularies, word: string, bugid: string)
    requires word !in v.severity
    ensures var inv := Invocation([], Some("modify"), [Occurrence(Short('S'), Some(word))], [bugid]);
      Resolve(Bugz, v, inv) == Usage(InvalidChoice(Short('S'), word))
  {
    var inv := Invocation([], Some("modify"), [Occurrence(Short('S'), Some(word))], [bugid]);
    ChosenModify(inv);
    TopPassEmpty(Bugz, v, inv);
    CommandNames();
    ModifySeverityOption();
    ModifyDefaults(v);
    var occ := inv.commandFlags[0];
    assert Selects(ModifyCommand.flags, 9, occ);
    assert inv.commandFlags == [] + [occ] + [];
    ChoiceRejected(Bugz, v, inv, ModifyCommand, 9, [], occ, []);
  }

  /** The `modify` pass over `-c TEXT -S WORD`, from any namespace, stops at the unlisted severity. */
  lemma ModifyCommentThenSeverity(v: Vocabularies, ns: Namespace, text: string, word: string)
    requires word !in v.severity
    ensures ApplyFlags(v, ModifyFlags, ns, [Occurrence(Short('c'), Some(text)), Occurrence(Short('S'), Some(word))])
      == Usage(InvalidChoice(Short('S'), word))
  {
    var comment := Occurrence(Short('c'), Some(text));
    var occ := Occurrence(Short('S'), Some(word));
    ModifySeverityOption();
    ModifyCommentOption();
    ModifyDefaults(v);
    assert Selects(ModifyFlags, 3, comment);
    FreeTextParses(v, ModifyFlags, ns, [comment], 3);
    assert Selects(ModifyFlags, 9, occ);
    assert [comment, occ] == [comment] + [occ] + [];
    ChoiceStops(v, ModifyFlags, ns, [comment], occ, [], 9);
  }

  /**
   `modify -c TEXT -S WORD BUGID`: a comment given first does not save an
   unlisted severity from the same invalid-choice error.
   */
  lemma ModifyRejectsLaterSeverity(v: Vocabularies, text: string, word: string, bugid: string)
    requires word !in v.severity
    ensures var inv := Invocation([], Some("modify"), [Occurrence(Short('c'), Some(text)), Occurrence(Short('S'), Some(word))], [bugid]);
      Resolve(Bugz, v, inv) == Usage(InvalidChoice(Short('S'), word))
  {
    var inv := Invocation([], Some("modify"), [Occurrence(Short('c'), Some(text)), Occurrence(Short('S'), Some(word))], [bugid]);
    ChosenModify(inv);
    TopPassEmpty(Bugz, v, inv);
    ModifyCommentThenSeverity(v, CommandStart(ModifyCommand, Defaults(GlobalFlags)), text, word);
    CommandPassFails(Bugz, v, inv);
  }

  /** `post` names the sixth sub-command. */
  lemma ChosenPost(inv: Invocation)
    requires inv.command == Some("post")
    ensures FindCommand(Bugz.commands, "post", 0) == 5 && Chosen(Bugz, inv) == PostCommand
  {
    CommandNames();
    FindCommandAt(Bugz.commands, "post", 5);
  }

  /** The `post` flag for `--default-confirm`. */
  lemma PostConfirmFlag()
    ensures OwnFlag(PostCommand, 14) && PostFlags[14] == PostDefaultConfirm
    ensures DestOf(PostDefaultConfirm) == "default_confirm"
    ensures PostCommand.positionals == [] && AllExactlyOne(PostCommand.positionals)
  {
    PostLayout();
    PostNames2();
  }

  /** Its action, default and choice set. */
  lemma PostDefaults(v: Vocabularies)
    ensures PostDefaultConfirm.action == Store && PostDefaultConfirm.argType == Text
    ensures !PostDefaultConfirm.choices.AnyValue? && Allowed(v, PostDefaultConfirm.choices) == ConfirmAnswers
    ensures EffectiveDefault(PostDefaultConfirm) == Str("y") && "y" in ConfirmAnswers
  {
  }

  /** `--default-confirm` in any grammar whose chosen command is pybugz's `post`. */
  lemma PostValuesIn(g: Grammar, v: Vocabularies, inv: Invocation)
    requires Resolve(g, v, inv).Parsed?
    requires Chosen(g, inv) == PostCommand
    ensures |inv.tokens| == 0
    ensures var ns := Resolve(g, v, inv).ns; var xs := Collected(v, PostFlags, 14, inv.commandFlags);
      && (Given(PostFlags, 14, inv.commandFlags) <==> |xs| > 0)
      && "default_confirm" in ns && ns["default_confirm"] == (if |xs| > 0 then Last(xs) else Str("y"))
      && ns["default_confirm"].Str? && ns["default_confirm"].s in ConfirmAnswers
  {
    PostConfirmFlag();
    PostDefaults(v);
    ResolveCommand(g, v, inv);
    StoreOutcome(g, v, inv, 14);
    var out := Resolve(g, v, inv).ns["default_confirm"];
    StoredChoice(v, PostFlags, 14, inv.commandFlags, out, Str("y"));
  }

  /**
   `post`: takes no positional arguments, and the answer to the
   confirmation question is the last `--default-confirm` given, one of the
   `ConfirmAnswers` `y`, `Y`, `n` and `N`, and `y` when none was.
   */
  lemma PostValues(v: Vocabularies, inv: Invocation)
    requires inv.command == Some("post")
    requires Resolve(Bugz, v, inv).Parsed?
    ensures |inv.tokens| == 0
    ensures var ns := Resolve(Bugz, v, inv).ns; var xs := Collected(v, PostFlags, 14, inv.commandFlags);
      && (Given(PostFlags, 14, inv.commandFlags) <==> |xs| > 0)
      && "default_confirm" in ns && ns["default_confirm"] == (if |xs| > 0 then Last(xs) else Str("y"))
      && ns["default_confirm"].Str? && ns["default_confirm"].s in ConfirmAnswers
  {
    ChosenPost(inv);
    PostValuesIn(Bugz, v, inv);
  }

  /** `attach` names the first sub-command. */
  lemma ChosenAttach(inv: Invocation)
    requires inv.command == Some("attach")
    ensures FindCommand(Bugz.commands, "attach", 0) == 0 && Chosen(Bugz, inv) == AttachCommand
  {
    CommandNames();
    FindCommandAt(Bugz.commands, "attach", 0);
  }

  /** The `attach` flags for `--content-type` and `--patch`, and its two positionals. */
  lemma AttachFlagFacts()
    ensures OwnFlag(AttachCommand, 0) && OwnFlag(AttachCommand, 2)
    ensures AttachFlags[0] == AttachContentType && DestOf(AttachContentType) == "content_type"
    ensures AttachFlags[2] == AttachPatch && DestOf(AttachPatch) == "patch"
    ensures AllExactlyOne(AttachCommand.positionals) && |AttachCommand.positionals| == 2
    ensures AttachCommand.positionals[0].dest == "bugid"
  {
    AttachLayout();
    AttachNames0();
    assert PosDests(AttachCommand.positionals) == {"bugid", "filename"} by {
      assert AttachCommand.positionals[0].dest == "bugid";
      assert AttachCommand.positionals[1].dest == "filename";
    }
  }

  /** Their actions and defaults. */
  lemma AttachDefaults()
    ensures AttachContentType.action == Store && AttachContentType.argType == Text && AttachContentType.choices.AnyValue?
    ensures EffectiveDefault(AttachContentType) == Str("text/plain")
    ensures AttachPatch.action == StoreTrue && EffectiveDefault(AttachPatch) == Bool(false)
  {
  }

  /** The `attach` values in any grammar whose chosen command is pybugz's `attach`. */
  lemma AttachValuesIn(g: Grammar, v: Vocabularies, inv: Invocation)
    requires Resolve(g, v, inv).Parsed?
    requires Chosen(g, inv) == AttachCommand
    ensures |inv.tokens| == 2
    ensures var ns := Resolve(g, v, inv).ns; var xs := Collected(v, AttachFlags, 0, inv.commandFlags);
      && "bugid" in ns && ns["bugid"] == Str(inv.tokens[0])
      && "content_type" in ns
      && ns["content_type"] == (if |xs| > 0 then Last(xs) else Str("text/plain"))
      && "patch" in ns && ns["patch"] == Bool(Given(AttachFlags, 2, inv.commandFlags))
  {
    AttachFlagFacts();
    AttachDefaults();
    ResolveCommand(g, v, inv);
    StoreOutcome(g, v, inv, 0);
    SwitchOutcome(g, v, inv, 2);
  }

  /**
   `attach BUGID FILENAME`: the content type is `text/plain` unless `-c`
   gave one, the last one winning, and `--patch` records whether it was
   given.
   */
  lemma AttachValues(v: Vocabularies, inv: Invocation)
    requires inv.command == Some("attach")
    requires Resolve(Bugz, v, inv).Parsed?
    ensures |inv.tokens| == 2
    ensures var ns := Resolve(Bugz, v, inv).ns; var xs := Collected(v, AttachFlags, 0, inv.commandFlags);
      && "bugid" in ns && ns["bugid"] == Str(inv.tokens[0])
      && "content_type" in ns
      && ns["content_type"] == (if |xs| > 0 then Last(xs) else Str("text/plain"))
      && "patch" in ns && ns["patch"] == Bool(Given(AttachFlags, 2, inv.commandFlags))
  {
    ChosenAttach(inv);
    AttachValuesIn(Bugz, v, inv);
  }

  /** The two status occurrences of `--status S1 -s S2`. */
  function StatusPair(s1: string, s2: string): seq<Occurrence>
  {
    [Occurrence(Long(["status"]), Some(s1)), Occurrence(Short('s'), Some(s2))]
  }

  /** Both occurrences reach the status flag and no other, parse from any namespace, and are collected in order. */
  lemma StatusPairRouted(v: Vocabularies, s1: string, s2: string, ns: Namespace)
    ensures var occs := StatusPair(s1, s2);
      && ApplyFlags(v, SearchFlags, ns, occs).Parsed?
      && Given(SearchFlags, 5, occs) && !Given(SearchFlags, 0, occs) && !Given(SearchFlags, 8, occs)
      && Collected(v, SearchFlags, 5, occs) == [Str(s1), Str(s2)]
      && Unrecognized(SearchFlags, occs) == []
  {
    var occs := StatusPair(s1, s2);
    SearchStatusLong();
    SearchStatusShort();
    assert Selects(SearchFlags, 5, occs[0]) && Selects(SearchFlags, 5, occs[1]);
    assert SearchStatus.choices.AnyValue? && SearchStatus.action == Append && SearchStatus.argType == Text;
    FreeTextParses(v, SearchFlags, ns, occs, 5);
    RoutedRecognized(SearchFlags, 5, occs);
    assert Args(occs) == [Str(s1), Str(s2)];
  }

  /** `search TERMS... --status S1 -s S2` parses. */
  lemma SearchByStatusParses(v: Vocabularies, terms: seq<string>, s1: string, s2: string)
    ensures Resolve(Bugz, v, Invocation([], Some("search"), StatusPair(s1, s2), terms)).Parsed?
  {
    var occs := StatusPair(s1, s2);
    var inv := Invocation([], Some("search"), occs, terms);
    ChosenSearch(inv);
    TopPassEmpty(Bugz, v, inv);
    StatusPairRouted(v, s1, s2, CommandStart(SearchCommand, Defaults(GlobalFlags)));
    assert SearchCommand.positionals == [Positional("terms", ZeroOrMore)];
    assert BindPositionals(SearchCommand.positionals, terms).Ok?;
    assert Unknown(Bugz, SearchCommand, inv) == [] + [];
    ResolveParses(Bugz, v, inv);
  }

  /**
   `search TERMS... --status S1 -s S2`: the terms are kept, both statuses
   are collected in order, the order is `number` and `--comments` is None.
   */
  lemma SearchByStatus(v: Vocabularies, terms: seq<string>, s1: string, s2: string)
    ensures var inv := Invocation([], Some("search"), StatusPair(s1, s2), terms);
      && Resolve(Bugz, v, inv).Parsed?
      && var ns := Resolve(Bugz, v, inv).ns;
      && "terms" in ns && ns["terms"] == List(StrValues(terms))
      && "status" in ns && ns["status"] == List([Str(s1), Str(s2)])
      && "order" in ns && ns["order"] == Str("number")
      && "comments" in ns && ns["comments"] == Absent
  {
    var inv := Invocation([], Some("search"), StatusPair(s1, s2), terms);
    SearchByStatusParses(v, terms, s1, s2);
    StatusPairRouted(v, s1, s2, map[]);
    SearchValues(v, inv);
    SearchChoices(v, inv);
  }
}

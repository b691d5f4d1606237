/**
 What the top-level parser built by `make_parser` hands to the Bugzilla
 connection: the defaults of the ten global attributes, what each global
 flag does to them, and the outcomes that never reach a sub-command
 (`--version`, a missing or an unknown sub-command).
 */
module Session {
  import opened Values
  import opened ArgText
  import opened Grammar
  import opened Tables
  import opened TableFacts
  import opened Actions
  import opened Kwds
  import opened Scope
  import opened Routing
  import Subcommands

  /** The value a top-level switch leaves in the top-level namespace. */
  lemma TopSwitch(g: Grammar, v: Vocabularies, inv: Invocation, k: nat)
    requires TopPass(g, v, inv).Parsed?
    requires UniqueDests(g.globals) && k < |g.globals| && g.globals[k].action in {StoreTrue, StoreFalse}
    ensures var d := DestOf(g.globals[k]);
      && d in TopPass(g, v, inv).ns
      && TopPass(g, v, inv).ns[d] ==
        if Given(g.globals, k, inv.globalFlags) then Bool(g.globals[k].action == StoreTrue) else EffectiveDefault(g.globals[k])
  {
    DefaultValues(g.globals);
    SwitchValue(v, g.globals, Defaults(g.globals), inv.globalFlags, k);
  }

  /** The value a top-level storing flag leaves in the top-level namespace. */
  lemma TopStore(g: Grammar, v: Vocabularies, inv: Invocation, k: nat)
    requires TopPass(g, v, inv).Parsed?
    requires UniqueDests(g.globals) && k < |g.globals| && g.globals[k].action == Store
    ensures var d := DestOf(g.globals[k]); var xs := Collected(v, g.globals, k, inv.globalFlags);
      && (Given(g.globals, k, inv.globalFlags) <==> |xs| > 0)
      && d in TopPass(g, v, inv).ns
      && TopPass(g, v, inv).ns[d] == if |xs| > 0 then Last(xs) else EffectiveDefault(g.globals[k])
  {
    DefaultValues(g.globals);
    StoreValue(v, g.globals, Defaults(g.globals), inv.globalFlags, k);
  }

  /** A missing sub-command is a usage error once the global flags parse. */
  lemma MissingCommandRejected(g: Grammar, v: Vocabularies, inv: Invocation)
    requires inv.command.None? && TopPass(g, v, inv).Parsed?
    ensures Resolve(g, v, inv) == Usage(MissingCommand)
  {
  }

  /** A global flag pass that does not parse decides the whole parse, whatever follows it. */
  lemma TopPassDecides(g: Grammar, v: Vocabularies, inv: Invocation)
    requires !TopPass(g, v, inv).Parsed?
    ensures Resolve(g, v, inv) == TopPass(g, v, inv)
  {
  }

  /** For pybugz, the session of a parse is the top-level namespace. */
  lemma SessionIsTop(v: Vocabularies, inv: Invocation)
    requires Resolve(Bugz, v, inv).Parsed?
    ensures TopPass(Bugz, v, inv).Parsed?
    ensures NamesNonEmpty(Resolve(Bugz, v, inv).ns)
    ensures Partition(Resolve(Bugz, v, inv).ns).session == TopPass(Bugz, v, inv).ns
  {
    RoutesByScope(v, inv);
  }

  /** The top-level defaults of the first five global attributes. */
  lemma GlobalDefaults0()
    ensures var d := Defaults(GlobalFlags);
      && "base" in d && d["base"] == Str("https://bugs.gentoo.org/")
      && "user" in d && d["user"] == Absent && "password" in d && d["password"] == Absent
      && "httpuser" in d && d["httpuser"] == Absent && "httppassword" in d && d["httppassword"] == Absent
  {
    GlobalLayout();
    DefaultValues(GlobalFlags);
    GlobalNames0();
    assert NameAt(GlobalFlags, GlobalDests, 0) && NameAt(GlobalFlags, GlobalDests, 1) && NameAt(GlobalFlags, GlobalDests, 2);
    assert NameAt(GlobalFlags, GlobalDests, 3) && NameAt(GlobalFlags, GlobalDests, 4);
    assert GlobalFlags[0] == GlobalBase && GlobalFlags[1] == GlobalUser && GlobalFlags[2] == GlobalPassword;
    assert GlobalFlags[3] == GlobalHttpuser && GlobalFlags[4] == GlobalHttppassword;
  }

  /** The top-level defaults of the other five. */
  lemma GlobalDefaults1()
    ensures var d := Defaults(GlobalFlags);
      && "forget" in d && d["forget"] == Bool(false) && "quiet" in d && d["quiet"] == Bool(false)
      && "columns" in d && d["columns"] == Int(0) && "encoding" in d && d["encoding"] == Absent
      && "skip_auth" in d && d["skip_auth"] == Bool(false)
  {
    GlobalLayout();
    DefaultValues(GlobalFlags);
    GlobalNames0();
    GlobalNames1();
    assert NameAt(GlobalFlags, GlobalDests, 5) && NameAt(GlobalFlags, GlobalDests, 6) && NameAt(GlobalFlags, GlobalDests, 7);
    assert NameAt(GlobalFlags, GlobalDests, 8) && NameAt(GlobalFlags, GlobalDests, 9);
    assert GlobalFlags[5] == GlobalForget && GlobalFlags[6] == GlobalQuiet && GlobalFlags[7] == GlobalColumns;
    assert GlobalFlags[8] == GlobalEncoding && GlobalFlags[9] == GlobalSkipAuth;
  }

  /** What the session of a command line holds for each attribute when no global flag is given. */
  predicate DefaultSession(s: Namespace)
  {
    && s.Keys == GlobalAttrs
    && "base" in s && s["base"] == Str("https://bugs.gentoo.org/")
    && "user" in s && s["user"] == Absent && "password" in s && s["password"] == Absent
    && "httpuser" in s && s["httpuser"] == Absent && "httppassword" in s && s["httppassword"] == Absent
    && "forget" in s && s["forget"] == Bool(false) && "quiet" in s && s["quiet"] == Bool(false)
    && "columns" in s && s["columns"] == Int(0) && "encoding" in s && s["encoding"] == Absent
    && "skip_auth" in s && s["skip_auth"] == Bool(false)
  }

  /**
   The top-level parser's defaults: exactly the ten global attributes, base
   `https://bugs.gentoo.org/`, columns 0, quiet, forget and skip_auth
   false, everything else None; `--version` stores nothing.
   */
  lemma TopLevelDefaults()
    ensures DefaultSession(Defaults(GlobalFlags))
  {
    GlobalDestsAreGlobalAttrs();
    GlobalDefaults0();
    GlobalDefaults1();
  }

  /** A command line without global flags gives the connection the default session. */
  lemma SessionDefaults(v: Vocabularies, inv: Invocation)
    requires inv.globalFlags == []
    requires Resolve(Bugz, v, inv).Parsed?
    ensures NamesNonEmpty(Resolve(Bugz, v, inv).ns)
    ensures DefaultSession(Partition(Resolve(Bugz, v, inv).ns).session)
  {
    SessionIsTop(v, inv);
    TopPassEmpty(Bugz, v, inv);
    TopLevelDefaults();
  }

  /** The three global switches: their table positions, attributes and defaults. */
  lemma GlobalSwitchFacts()
    ensures UniqueDests(GlobalFlags) && |GlobalFlags| == 11
    ensures GlobalFlags[5] == GlobalForget && DestOf(GlobalForget) == "forget"
    ensures GlobalFlags[6] == GlobalQuiet && DestOf(GlobalQuiet) == "quiet"
    ensures GlobalFlags[9] == GlobalSkipAuth && DestOf(GlobalSkipAuth) == "skip_auth"
    ensures GlobalForget.action == StoreTrue && EffectiveDefault(GlobalForget) == Bool(false)
    ensures GlobalQuiet.action == StoreTrue && EffectiveDefault(GlobalQuiet) == Bool(false)
    ensures GlobalSkipAuth.action == StoreTrue && EffectiveDefault(GlobalSkipAuth) == Bool(false)
  {
    GlobalLayout();
    GlobalNames0();
    GlobalNames1();
  }

  /** `-f`/`--forget`, `-q`/`--quiet` and `--skip-auth` are true in the session exactly when given. */
  lemma SessionSwitches(v: Vocabularies, inv: Invocation)
    requires Resolve(Bugz, v, inv).Parsed?
    ensures NamesNonEmpty(Resolve(Bugz, v, inv).ns)
    ensures var s := Partition(Resolve(Bugz, v, inv).ns).session; var occs := inv.globalFlags;
      && "forget" in s && s["forget"] == Bool(Given(GlobalFlags, 5, occs))
      && "quiet" in s && s["quiet"] == Bool(Given(GlobalFlags, 6, occs))
      && "skip_auth" in s && s["skip_auth"] == Bool(Given(GlobalFlags, 9, occs))
  {
    SessionIsTop(v, inv);
    GlobalSwitchFacts();
    TopSwitch(Bugz, v, inv, 5);
    TopSwitch(Bugz, v, inv, 6);
    TopSwitch(Bugz, v, inv, 9);
  }

  /** The two storing global flags with a declared default. */
  lemma GlobalStoreFacts()
    ensures UniqueDests(GlobalFlags) && |GlobalFlags| == 11
    ensures GlobalFlags[0] == GlobalBase && DestOf(GlobalBase) == "base"
    ensures GlobalFlags[7] == GlobalColumns && DestOf(GlobalColumns) == "columns"
    ensures GlobalBase.action == Store && EffectiveDefault(GlobalBase) == Str("https://bugs.gentoo.org/")
    ensures GlobalColumns.action == Store && GlobalColumns.argType == Integer && EffectiveDefault(GlobalColumns) == Int(0)
  {
    GlobalLayout();
    GlobalNames0();
    GlobalNames1();
  }

  /**
   `-b`/`--base` keeps the last URL given, or the Gentoo Bugzilla; and
   `--columns` keeps the last integer given, or 0.
   */
  lemma SessionStores(v: Vocabularies, inv: Invocation)
    requires Resolve(Bugz, v, inv).Parsed?
    ensures NamesNonEmpty(Resolve(Bugz, v, inv).ns)
    ensures var s := Partition(Resolve(Bugz, v, inv).ns).session; var occs := inv.globalFlags;
      var urls := Collected(v, GlobalFlags, 0, occs); var widths := Collected(v, GlobalFlags, 7, occs);
      && (Given(GlobalFlags, 0, occs) <==> |urls| > 0)
      && "base" in s && s["base"] == (if |urls| > 0 then Last(urls) else Str("https://bugs.gentoo.org/"))
      && (Given(GlobalFlags, 7, occs) <==> |widths| > 0)
      && "columns" in s && s["columns"] == (if |widths| > 0 then Last(widths) else Int(0))
      && (Given(GlobalFlags, 7, occs) ==> s["columns"].Int?)
  {
    SessionIsTop(v, inv);
    GlobalStoreFacts();
    TopStore(Bugz, v, inv, 0);
    TopStore(Bugz, v, inv, 7);
    StoredInt(v, GlobalFlags, 7, inv.globalFlags, TopPass(Bugz, v, inv).ns["columns"], Int(0));
  }

  /** `--version` is the last global flag and the first to spell `--version`. */
  lemma VersionOption()
    ensures |GlobalFlags| == 11 && GlobalFlags[10] == GlobalVersion && GlobalVersion.action == Version
    ensures FindFlag(GlobalFlags, Long(["version"]), 0) == 10
  {
    assert GlobalFlags[10] == GlobalVersion;
    assert FindFlag(GlobalFlags, Long(["version"]), 9) == 10;
    assert FindFlag(GlobalFlags, Long(["version"]), 8) == 10;
    assert FindFlag(GlobalFlags, Long(["version"]), 7) == 10;
    assert FindFlag(GlobalFlags, Long(["version"]), 6) == 10;
    assert FindFlag(GlobalFlags, Long(["version"]), 5) == 10;
    assert FindFlag(GlobalFlags, Long(["version"]), 4) == 10;
    assert FindFlag(GlobalFlags, Long(["version"]), 3) == 10;
    assert FindFlag(GlobalFlags, Long(["version"]), 2) == 10;
    assert FindFlag(GlobalFlags, Long(["version"]), 1) == 10;
  }

  /**
   `bugz ... --version ...`: once the global flags before it have parsed,
   the version action ends the parse, whatever follows it on the command
   line.
   */
  lemma VersionEndsParse(v: Vocabularies, inv: Invocation, before: seq<Occurrence>, after: seq<Occurrence>)
    requires inv.globalFlags == before + [Occurrence(Long(["version"]), None)] + after
    requires ApplyFlags(v, GlobalFlags, Defaults(GlobalFlags), before).Parsed?
    ensures Resolve(Bugz, v, inv) == ShowVersion
  {
    VersionOption();
    VersionStops(v, GlobalFlags, Defaults(GlobalFlags), before, Occurrence(Long(["version"]), None), after);
    TopPassDecides(Bugz, v, inv);
  }

  /** No global flag declares `--bogus`. */
  lemma BogusUndeclared()
    ensures FindFlag(GlobalFlags, Long(["bogus"]), 0) == |GlobalFlags|
  {
    assert |GlobalFlags| == 11;
    assert FindFlag(GlobalFlags, Long(["bogus"]), 10) == 11;
    assert FindFlag(GlobalFlags, Long(["bogus"]), 9) == 11;
    assert FindFlag(GlobalFlags, Long(["bogus"]), 8) == 11;
    assert FindFlag(GlobalFlags, Long(["bogus"]), 7) == 11;
    assert FindFlag(GlobalFlags, Long(["bogus"]), 6) == 11;
    assert FindFlag(GlobalFlags, Long(["bogus"]), 5) == 11;
    assert FindFlag(GlobalFlags, Long(["bogus"]), 4) == 11;
    assert FindFlag(GlobalFlags, Long(["bogus"]), 3) == 11;
    assert FindFlag(GlobalFlags, Long(["bogus"]), 2) == 11;
    assert FindFlag(GlobalFlags, Long(["bogus"]), 1) == 11;
  }

  /**
   `bugz --bogus --version`: the undeclared option is only set aside, so
   the version action still runs and ends the parse.
   */
  lemma UnknownBeforeVersion(v: Vocabularies, inv: Invocation)
    requires inv.globalFlags == [Occurrence(Long(["bogus"]), None), Occurrence(Long(["version"]), None)]
    ensures Resolve(Bugz, v, inv) == ShowVersion
  {
    var bogus := [Occurrence(Long(["bogus"]), None)];
    BogusUndeclared();
    assert bogus[1..] == [];
    assert ApplyFlags(v, GlobalFlags, Defaults(GlobalFlags), bogus) == Parsed(Defaults(GlobalFlags));
    assert inv.globalFlags == bogus + [Occurrence(Long(["version"]), None)] + [];
    VersionEndsParse(v, inv, bogus, []);
  }

  /** A sub-command name `make_parser` never registered is a usage error naming it. */
  lemma UnknownCommandRejected(v: Vocabularies, inv: Invocation)
    requires inv.command.Some? && TopPass(Bugz, v, inv).Parsed?
    requires inv.command.value !in {"attach", "attachment", "get", "modify", "namedcmd", "post", "search"}
    ensures Resolve(Bugz, v, inv) == Usage(UnknownCommand(inv.command.value))
  {
    Subcommands.UnknownName(inv.command.value);
  }
}

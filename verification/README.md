# pybugz command-line surface, in Dafny

pybugz is a command-line client for Bugzilla. Its `bugz/clparser.py` has two jobs:

- It builds an argparse grammar. That grammar has a top-level parser with ten global options plus `--version`, and seven sub-commands: `attach`, `attachment`, `get`, `modify`, `namedcmd`, `post` and `search`.
- Its `get_kwds` splits the parsed namespace into two maps. The session map (`bugz`) gets the ten global attributes. The command map (`cmd`) gets everything else, except private names and the handler `func`.

This project models both jobs.

- **Grammar as data.** Every `add_argument` call becomes a `Grammar.FlagSpec` or a `Grammar.PosSpec`. Every `add_parser` call becomes a `Grammar.CommandSpec`. `Tables.Bugz` is the whole `make_parser()` result.
- **Resolver.** `Grammar.Resolve` is a pure resolver that does what argparse's declared actions promise:
  - `store` keeps the last argument;
  - `store_true` and `store_false` set a boolean;
  - `append` accumulates in order, starting from `None`;
  - `choices` are checked after the `type` conversion;
  - `type = int` converts the argument, or fails;
  - positionals are bound exactly once, or as a `nargs='*'` list;
  - `set_defaults(func = ...)` binds the handler;
  - `--version` stops the parse;
  - an option string no parser declares is set aside, as argparse's `consume_optional` does. Once the parse is over it is reported as an unrecognized argument, together with any positional tokens left over. An earlier error or `--version` takes precedence.
- **Partition.** `Kwds.Partition` is `get_kwds` as a function. `Kwds.GetKwds` is its loop, written as a method and proved equal to the function.

The modules follow the program's structure:

| module | file | contents |
|---|---|---|
| `Values` | values.dfy | Python values in a namespace, handler tags, `Option`/`Result` |
| `ArgText` | argtext.dfy | option strings, argparse's dest derivation, `int()` on decimal text |
| `Grammar` | grammar.dfy | flag and command specs, the resolver |
| `Tables` | tables.dfy | the flag tables of `make_parser` and the seven `make_*_parser` |
| `TableFacts` | tablefacts.dfy | per-table facts: each flag's destination, and that destinations are unique |
| `Actions` | actions.dfy | what each action leaves in the namespace, including choice rejection |
| `Kwds` | kwds.dfy | `get_kwds` |
| `Scope` | scope.dfy | when a grammar makes `get_kwds` route by scope |
| `Routing` | routing.dfy | pybugz's grammar is such a grammar |
| `Session` | session.dfy | the global options and the top-level outcomes |
| `Subcommands` | subcommands.dfy | per-sub-command defaults and outcomes |

The configuration's choice tables (`config.choices[...]`) are a parameter, `Grammar.Vocabularies`. A command line is given already split into four parts by `Grammar.Invocation`:

- the global flag occurrences;
- the sub-command name, if any;
- the sub-command's flag occurrences;
- its positional tokens.

## Model

| member | source | states |
|---|---|---|
| Kwds.Partition | bugz/clparser.py:274-285 | The session and command maps are disjoint. Their union is the input minus private names and `func`. A key is in the session map exactly when it is one of the ten `global_attrs`, and every value is copied unchanged. |
| Kwds.Route | bugz/clparser.py:279-284 | The `dir(args)` loop, for any set of global names: a public key goes to `bugz` exactly when it is in the set, otherwise to `cmd`, with its value unchanged. |
| Kwds.GetKwds | bugz/clparser.py:274-285 | `get_kwds` returns two disjoint maps whose union is the public part of the namespace. The session keys are exactly the public keys in `global_attrs`. The result equals `Kwds.Partition`. |
| Kwds.PartitionRestores | bugz/clparser.py:279-284 | Nothing is lost: the session map, the command map and the dropped private/`func` entries together give back the namespace. |
| Kwds.PartitionIgnoresPrivate | bugz/clparser.py:280 | Two namespaces that differ only in private names and `func` partition the same way. |
| Routing.GlobalDestsAreGlobalAttrs | bugz/clparser.py:232-263 | The destinations of the top-level flags are exactly the ten `global_attrs` of lines 277-278, so `--version` stores nothing. |
| Session.GlobalSwitchFacts | bugz/clparser.py:242-259 | `-f`, `-q` and `--skip-auth` are `store_true` flags into `forget`, `quiet` and `skip_auth`, each starting false. |
| Routing.AttachSeparate | bugz/clparser.py:9-24 | No `attach` attribute is global, private or `func`, and its flag destinations are unique. |
| Routing.AttachmentSeparate | bugz/clparser.py:26-35 | The same for `attachment`. |
| Routing.GetSeparate | bugz/clparser.py:37-52 | The same for `get`, whose `dest` overrides are `attachments` and `comments`. |
| Routing.ModifySeparate | bugz/clparser.py:54-118 | The same for `modify`'s twenty-two flags and `bugid`. |
| Routing.NamedcmdSeparate | bugz/clparser.py:120-131 | The same for `namedcmd`. |
| Routing.PostSeparate | bugz/clparser.py:133-176 | The same for `post`, whose `--depends-on` is stored as `dependson`. |
| Routing.SearchSeparate | bugz/clparser.py:178-227 | The same for `search`. |
| Routing.BugzScoped | bugz/clparser.py:229-272 | `make_parser()`'s grammar is scoped: its global destinations are `global_attrs`, and every sub-command keeps apart from them. |
| Scope.ScopedRouting | bugz/clparser.py:274-285 | For any scoped grammar, whenever a command line parses, `get_kwds` gives exactly the top-level pass's values as the session map. The command map's keys are exactly the chosen sub-command's own attributes. |
| Routing.RoutesByScope | bugz/clparser.py:264-285 | The same for pybugz's own grammar and every command line: no command parameter is routed as a session parameter and no global is lost. |
| Scope.PartitionByScope | bugz/clparser.py:277-284 | For a namespace made of the ten globals, clean command attributes and `func`: the session map is the global part and the command keys are the command attributes. |
| Grammar.Resolve | bugz/clparser.py:229-272 | A successful parse names a known sub-command. Its namespace holds exactly the global destinations, the sub-command's attributes and `func`, and its globals come from the top-level pass. Unless the sub-command has an attribute named `func`, `func` is that sub-command's handler. With no sub-command, nothing parses. |
| Grammar.UnknownReported | bugz/clparser.py:229-272 | Undeclared options do not stop a parse. When both passes succeed, every undeclared option is reported as unrecognized, the top-level ones first. Surplus positional tokens follow them in the same error. |
| Grammar.UnrecognizedNone | bugz/clparser.py:229-272 | No option is left unrecognized exactly when every occurrence names a flag of its parser. |
| Actions.UnknownSetAside | bugz/clparser.py:229-263 | Dropping an undeclared option from anywhere in a command line leaves the pass unchanged. |
| Actions.VersionStops | bugz/clparser.py:260-263 | A version flag given without an argument, after occurrences that parse, makes the whole pass show the version whatever comes after it. |
| Grammar.BindPositionals | bugz/clparser.py:12-15 | Exactly-once positionals parse exactly when there are as many tokens as positionals. Too few is `TooFewArguments`, and the surplus is reported as unrecognized. The first positional receives the first token. A `nargs='*'` positional receives the whole token list in order. |
| Grammar.DefaultValues | bugz/clparser.py:232-258 | In a table with distinct destinations, each flag other than `--version` starts at argparse's default for it: the declared `default`, else False for `store_true`, True for `store_false` and None otherwise (as for `--user`). |
| Grammar.DestFollowsArgparse | bugz/clparser.py:254-259 | Without a `dest` override, a flag's attribute is argparse's derivation: the first long option, else the first option, with leading dashes stripped and `-` turned into `_`. |
| ArgText.NameOfOptionText | bugz/clparser.py:256 | Stripping the dashes from an option's text and turning `-` into `_` gives its words joined by `_`, so `--skip-auth` becomes `skip_auth`. |
| ArgText.ParseIntText | bugz/clparser.py:250-253 | `int()` reads back the decimal text of every integer, negative ones included. |
| Actions.SwitchValue | bugz/clparser.py:42-51 | After any sequence of flags, a `store_true` attribute is true if its flag was given and a `store_false` one is false; otherwise it keeps its start value. |
| Actions.OtherFlagUntouched | bugz/clparser.py:42-51 | A flag occurrence changes no attribute but its own, so `-a` leaves `comments` alone and `-n` leaves `attachments` alone. |
| Actions.StoreValue | bugz/clparser.py:16-18 | A `store` attribute holds the last converted argument if its flag was given, else its start value. The flag was given exactly when some argument was collected. |
| Actions.AppendValue | bugz/clparser.py:92-109 | An `append` attribute holds its start list followed by every argument in order of occurrence if the flag was given, else its start value. |
| Actions.ChoicesRespected | bugz/clparser.py:74-85 | When a parse succeeds, every argument given to a choice-constrained flag is in that flag's vocabulary. |
| Actions.ChoiceDecides | bugz/clparser.py:83-85 | A choice flag's argument parses exactly when it is in the vocabulary. Otherwise the outcome is an `invalid choice` usage error naming the option and the word. |
| Actions.SwitchOutcome | bugz/clparser.py:42-51 | In a full parse, a sub-command's `store_true`/`store_false` attribute is set if given, else it is its default. |
| Actions.StoreOutcome | bugz/clparser.py:184-187 | In a full parse, a sub-command's `store` attribute is the last argument given, else its default. |
| Actions.AppendOutcome | bugz/clparser.py:196-198 | In a full parse, a sub-command's `append` attribute is every argument given, in order, after the default's items; with none given it is the default. |
| Actions.ChoiceOutcome | bugz/clparser.py:199-206 | In a full parse, every argument of a sub-command's choice flag is in its vocabulary. |
| Actions.ChoiceStops | bugz/clparser.py:83-85 | Once the occurrences before it have parsed, a choice flag given a word outside its vocabulary ends the pass with `invalid choice` for that option and word, whatever follows. |
| Actions.ChoiceRejected | bugz/clparser.py:83-85 | A sub-command occurrence with a word outside its choice flag's vocabulary, after sub-command occurrences that parse, makes the whole parse fail with `invalid choice` for that option and word. |
| Session.TopLevelDefaults | bugz/clparser.py:232-263 | With no global flags the top level stores exactly the ten globals: base `https://bugs.gentoo.org/`, columns 0, `forget`, `quiet` and `skip_auth` false, and the rest None. |
| Session.SessionDefaults | bugz/clparser.py:232-259 | Any sub-command parsed without global flags hands `get_kwds` a session map equal to those defaults. |
| Session.SessionSwitches | bugz/clparser.py:243-259 | The session's `forget`, `quiet` and `skip_auth` are true exactly when `-f`, `-q` or `--skip-auth` was given. |
| Session.SessionStores | bugz/clparser.py:232-253 | The session's `base` is the last `-b` URL, else the Gentoo URL. `columns` is the last integer `--columns` gave, else 0. |
| Session.VersionEndsParse | bugz/clparser.py:260-263 | Once the global flags before it have parsed, `--version` ends the command line in the version action, whatever follows it. |
| Session.UnknownBeforeVersion | bugz/clparser.py:260-263 | `bugz --bogus --version` shows the version: the undeclared option is only set aside. |
| Subcommands.GetUnknownOption | bugz/clparser.py:37-52 | `get --bogus BUGID` is rejected only after the parse, with `--bogus` as the one unrecognized argument. |
| Scope.HandlerOfChosen | bugz/clparser.py:264-272 | In a scoped grammar, every parse carries the chosen sub-command's handler in `func`. |
| Routing.BugzHandlers | bugz/clparser.py:24-227 | Each of the seven sub-command names binds its own handler: `attach` binds `PrettyBugz.attach`, `get` binds `PrettyBugz.get`, and so on. |
| Session.MissingCommandRejected | bugz/clparser.py:264 | Without a sub-command, a command line whose global flags parse is a usage error. |
| Session.UnknownCommandRejected | bugz/clparser.py:264-271 | A sub-command name outside the seven is a usage error naming it. |
| Subcommands.GetValues | bugz/clparser.py:37-52 | `get` takes one token as `bugid`. `attachments` is false exactly when `-a` was given and `comments` is false exactly when `-n` was given; both default to true. |
| Subcommands.GetPlain | bugz/clparser.py:37-52 | `get BUGID` with no flags parses to `bugid` BUGID, with `attachments` and `comments` both true. |
| Subcommands.GetWithoutAttachments | bugz/clparser.py:42-46 | `get -a BUGID` parses to `bugid` BUGID, `attachments` false and `comments` still true. |
| Subcommands.SearchValues | bugz/clparser.py:178-210 | `search` keeps its terms in order. `status` is None unless given, and otherwise every status in order. `comments` is None unless `-c` was given, and then true. |
| Subcommands.SearchChoices | bugz/clparser.py:184-202 | `search`'s `order` is the last `-o` key given, which is a configured order key, else `number`. `severity` is the list of `--severity` words in the order given, each a configured severity, else None. |
| Subcommands.SearchByStatus | bugz/clparser.py:196-198 | `search TERMS --status S1 -s S2` parses. It keeps the terms, collects `[S1, S2]` in that order, orders by `number` and leaves `comments` None. |
| Subcommands.ModifyValues | bugz/clparser.py:68-85 | `modify`'s `duplicate` is the last integer `-d` gave, else 0. `severity` is the last `-S` word, which is a configured severity, else None. |
| Subcommands.ModifyRejectsSeverity | bugz/clparser.py:83-85 | `modify -S WORD BUGID` with a word outside the configured severities fails with `invalid choice` naming `-S` and the word. |
| Subcommands.ModifyRejectsLaterSeverity | bugz/clparser.py:66-85 | `modify -c TEXT -S WORD BUGID` with an unconfigured severity fails the same way: the comment before it does not change the error. |
| Subcommands.PostValues | bugz/clparser.py:166-169 | `post` takes no tokens. Its `default_confirm` is the last answer `--default-confirm` gave, else `y`, and is always one of `y`, `Y`, `n`, `N`. |
| Subcommands.AttachValues | bugz/clparser.py:9-24 | `attach` takes two tokens, the first as `bugid`. `content_type` is the last `-c` value, else `text/plain`. `patch` is true exactly when `-p` was given. |

## Left out

- Help and usage text, error-message wording and the process exit. Rejections are `Grammar.UsageError` values.
- The printing done by `--version`. It is modelled as the outcome `ShowVersion`.
- The `PrettyBugz` handlers bound by `set_defaults`: `bugz/cli.py` is not part of this model. A handler is only a tag in `Values.Handler`.
- Loading `config.choices` (`bugz/config.py` is not part of this model). The vocabularies are the parameter `Grammar.Vocabularies`.
- Python's `dir()` and its ordering. The namespace is a map.
- `get_kwds` reading `attr[0]` would raise on an empty attribute name. argparse never produces one, so `Kwds.NamesNonEmpty` is required instead.
- Tokenising `sys.argv`:
  - option abbreviations;
  - bundled short flags;
  - `--opt=value`;
  - `--`;
  - flags interleaved with positionals.

  An `Invocation` arrives already split.
- `-h`/`--help` and argparse's check for conflicting option strings.
- `ArgText.ParseInt` accepts an optional `+` or `-` followed by ASCII decimal digits. It drops three things `int()` also accepts: surrounding whitespace, `_` separators and non-ASCII decimal digits.
- In Python 3, argparse lets the sub-command be omitted. This model treats a missing sub-command as a usage error, which is the Python 2 behaviour.
- Positional destinations are written directly in the tables rather than derived.
- `Grammar.BindPositionals` states its value only for the first positional. `attach`'s `filename` is bound, but no contract names its value.
- The error for unrecognized arguments keeps the undeclared options and the surplus tokens in two lists. argparse lists them in one message, in command-line order, and that order is lost once an `Invocation` is split.
- An undeclared option's occurrence is set aside together with its argument, as for `--bogus=x`. For `--bogus x`, argparse would treat `x` as a positional token.
- `attachment --view` and `namedcmd`'s switches have no lemma of their own. `Actions.SwitchOutcome` covers them.
- `modify`'s comment sources (`-c`, `-F`, `-C`) and `post`'s description sources are independent flags, as in the code. Their precedence belongs to the handlers.
- The code's `modify --severity` draws from the configured severity list, not from a fixed vocabulary; the model follows the code.
- The code declares `search --comments` with `default=None`, so it is tri-state rather than a plain boolean; the model follows the code.

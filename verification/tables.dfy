/**
 The grammar `make_parser` builds: the global flags of the top-level parser
 and the seven sub-command parsers, as data. Choice sets that come from the
 configuration refer to it by field, so the tables themselves are constants.
 */
module Tables {
  import opened Values
  import opened ArgText
  import opened Grammar

  /** A flag with the default action and no further keywords. */
  function Plain(options: seq<OptionString>): FlagSpec
  {
    Flag(options, None, Store, Text, None, AnyValue)
  }

  /** `action = 'store_true'` with argparse's default. */
  function Switch(options: seq<OptionString>): FlagSpec
  {
    Flag(options, None, StoreTrue, Text, None, AnyValue)
  }

  /** `action = 'append'`. */
  function Repeated(options: seq<OptionString>): FlagSpec
  {
    Flag(options, None, Append, Text, None, AnyValue)
  }

  /** `choices = ...` with the default action. */
  function Restricted(options: seq<OptionString>, c: ChoiceSet): FlagSpec
  {
    Flag(options, None, Store, Text, None, c)
  }

  /** The flags `make_parser` adds to the top-level parser. */
  const GlobalBase: FlagSpec := Flag([Short('b'), Long(["base"])], None, Store, Text, Some(Str("https://bugs.gentoo.org/")), AnyValue)
  const GlobalUser: FlagSpec := Plain([Short('u'), Long(["user"])])
  const GlobalPassword: FlagSpec := Plain([Short('p'), Long(["password"])])
  const GlobalHttpuser: FlagSpec := Plain([Short('H'), Long(["httpuser"])])
  const GlobalHttppassword: FlagSpec := Plain([Short('P'), Long(["httppassword"])])
  const GlobalForget: FlagSpec := Switch([Short('f'), Long(["forget"])])
  const GlobalQuiet: FlagSpec := Flag([Short('q'), Long(["quiet"])], None, StoreTrue, Text, Some(Bool(false)), AnyValue)
  const GlobalColumns: FlagSpec := Flag([Long(["columns"])], None, Store, Integer, Some(Int(0)), AnyValue)
  const GlobalEncoding: FlagSpec := Plain([Long(["encoding"])])
  const GlobalSkipAuth: FlagSpec := Flag([Long(["skip", "auth"])], None, StoreTrue, Text, Some(Bool(false)), AnyValue)
  const GlobalVersion: FlagSpec := Flag([Long(["version"])], None, Version, Text, None, AnyValue)

  const GlobalFlags: seq<FlagSpec> := [
    GlobalBase, GlobalUser, GlobalPassword, GlobalHttpuser, GlobalHttppassword, GlobalForget,
    GlobalQuiet, GlobalColumns, GlobalEncoding, GlobalSkipAuth, GlobalVersion
  ]

  const AttachContentType: FlagSpec := Flag([Short('c'), Long(["content", "type"])], None, Store, Text, Some(Str("text/plain")), AnyValue)
  const AttachDescription: FlagSpec := Plain([Short('d'), Long(["description"])])
  const AttachPatch: FlagSpec := Switch([Short('p'), Long(["patch"])])

  const AttachFlags: seq<FlagSpec> := [
    AttachContentType, AttachDescription, AttachPatch
  ]

  const AttachCommand: CommandSpec :=
    Command("attach", [Positional("bugid", ExactlyOne), Positional("filename", ExactlyOne)], AttachFlags, AttachHandler)

  const AttachmentView: FlagSpec := Flag([Short('v'), Long(["view"])], None, StoreTrue, Text, Some(Bool(false)), AnyValue)

  const AttachmentFlags: seq<FlagSpec> := [
    AttachmentView
  ]

  const AttachmentCommand: CommandSpec :=
    Command("attachment", [Positional("attachid", ExactlyOne)], AttachmentFlags, AttachmentHandler)

  const GetNoAttachments: FlagSpec := Flag([Short('a'), Long(["no", "attachments"])], Some("attachments"), StoreFalse, Text, Some(Bool(true)), AnyValue)
  const GetNoComments: FlagSpec := Flag([Short('n'), Long(["no", "comments"])], Some("comments"), StoreFalse, Text, Some(Bool(true)), AnyValue)

  const GetFlags: seq<FlagSpec> := [
    GetNoAttachments, GetNoComments
  ]

  const GetCommand: CommandSpec :=
    Command("get", [Positional("bugid", ExactlyOne)], GetFlags, GetHandler)

  const ModifyAssignedTo: FlagSpec := Plain([Short('a'), Long(["assigned", "to"])])
  const ModifyCommentEditor: FlagSpec := Switch([Short('C'), Long(["comment", "editor"])])
  const ModifyCommentFrom: FlagSpec := Plain([Short('F'), Long(["comment", "from"])])
  const ModifyComment: FlagSpec := Plain([Short('c'), Long(["comment"])])
  const ModifyDuplicate: FlagSpec := Flag([Short('d'), Long(["duplicate"])], None, Store, Integer, Some(Int(0)), AnyValue)
  const ModifyKeywords: FlagSpec := Plain([Short('k'), Long(["keywords"])])
  const ModifyPriority: FlagSpec := Restricted([Long(["priority"])], FromConfig(PriorityValues))
  const ModifyResolution: FlagSpec := Restricted([Short('r'), Long(["resolution"])], FromConfig(ResolutionValues))
  const ModifyStatus: FlagSpec := Restricted([Short('s'), Long(["status"])], FromConfig(StatusValues))
  const ModifySeverity: FlagSpec := Restricted([Short('S'), Long(["severity"])], FromConfig(SeverityList))
  const ModifyTitle: FlagSpec := Plain([Short('t'), Long(["title"])])
  const ModifyUrl: FlagSpec := Plain([Short('U'), Long(["url"])])
  const ModifyWhiteboard: FlagSpec := Plain([Short('w'), Long(["whiteboard"])])
  const ModifyAddCc: FlagSpec := Repeated([Long(["add", "cc"])])
  const ModifyRemoveCc: FlagSpec := Repeated([Long(["remove", "cc"])])
  const ModifyAddDependson: FlagSpec := Repeated([Long(["add", "dependson"])])
  const ModifyRemoveDependson: FlagSpec := Repeated([Long(["remove", "dependson"])])
  const ModifyAddBlocked: FlagSpec := Repeated([Long(["add", "blocked"])])
  const ModifyRemoveBlocked: FlagSpec := Repeated([Long(["remove", "blocked"])])
  const ModifyComponent: FlagSpec := Plain([Long(["component"])])
  const ModifyFixed: FlagSpec := Switch([Long(["fixed"])])
  const ModifyInvalid: FlagSpec := Switch([Long(["invalid"])])

  const ModifyFlags: seq<FlagSpec> := [
    ModifyAssignedTo, ModifyCommentEditor, ModifyCommentFrom, ModifyComment, ModifyDuplicate,
    ModifyKeywords, ModifyPriority, ModifyResolution, ModifyStatus, ModifySeverity, ModifyTitle,
    ModifyUrl, ModifyWhiteboard, ModifyAddCc, ModifyRemoveCc, ModifyAddDependson,
    ModifyRemoveDependson, ModifyAddBlocked, ModifyRemoveBlocked, ModifyComponent, ModifyFixed,
    ModifyInvalid
  ]

  const ModifyCommand: CommandSpec :=
    Command("modify", [Positional("bugid", ExactlyOne)], ModifyFlags, ModifyHandler)

  const NamedcmdShowStatus: FlagSpec := Switch([Long(["show", "status"])])
  const NamedcmdShowUrl: FlagSpec := Switch([Long(["show", "url"])])

  const NamedcmdFlags: seq<FlagSpec> := [
    NamedcmdShowStatus, NamedcmdShowUrl
  ]

  const NamedcmdCommand: CommandSpec :=
    Command("namedcmd", [Positional("command", ExactlyOne)], NamedcmdFlags, NamedcmdHandler)

  const PostProduct: FlagSpec := Plain([Long(["product"])])
  const PostComponent: FlagSpec := Plain([Long(["component"])])
  const PostProdversion: FlagSpec := Plain([Long(["prodversion"])])
  const PostTitle: FlagSpec := Plain([Short('t'), Long(["title"])])
  const PostDescription: FlagSpec := Plain([Short('d'), Long(["description"])])
  const PostDescriptionFrom: FlagSpec := Plain([Short('F'), Long(["description", "from"])])
  const PostAppendCommand: FlagSpec := Plain([Long(["append", "command"])])
  const PostAssignedTo: FlagSpec := Plain([Short('a'), Long(["assigned", "to"])])
  const PostCc: FlagSpec := Plain([Long(["cc"])])
  const PostUrl: FlagSpec := Plain([Short('U'), Long(["url"])])
  const PostDependsOn: FlagSpec := Flag([Long(["depends", "on"])], Some("dependson"), Store, Text, None, AnyValue)
  const PostBlocked: FlagSpec := Plain([Long(["blocked"])])
  const PostKeywords: FlagSpec := Plain([Short('k'), Long(["keywords"])])
  const PostBatch: FlagSpec := Switch([Long(["batch"])])
  /** The answers `--default-confirm` accepts. */
  const ConfirmAnswers: set<string> := {"y", "Y", "n", "N"}

  const PostDefaultConfirm: FlagSpec := Flag([Long(["default", "confirm"])], None, Store, Text, Some(Str("y")), OneOf(ConfirmAnswers))
  const PostPriority: FlagSpec := Restricted([Long(["priority"])], FromConfig(PriorityValues))
  const PostSeverity: FlagSpec := Restricted([Short('S'), Long(["severity"])], FromConfig(SeverityList))

  const PostFlags: seq<FlagSpec> := [
    PostProduct, PostComponent, PostProdversion, PostTitle, PostDescription, PostDescriptionFrom,
    PostAppendCommand, PostAssignedTo, PostCc, PostUrl, PostDependsOn, PostBlocked, PostKeywords,
    PostBatch, PostDefaultConfirm, PostPriority, PostSeverity
  ]

  const PostCommand: CommandSpec :=
    Command("post", [], PostFlags, PostHandler)

  const SearchOrder: FlagSpec := Flag([Short('o'), Long(["order"])], None, Store, Text, Some(Str("number")), FromConfig(OrderKeys))
  const SearchAssignedTo: FlagSpec := Plain([Short('a'), Long(["assigned", "to"])])
  const SearchReporter: FlagSpec := Plain([Short('r'), Long(["reporter"])])
  const SearchCc: FlagSpec := Plain([Long(["cc"])])
  const SearchCommenter: FlagSpec := Plain([Long(["commenter"])])
  const SearchStatus: FlagSpec := Repeated([Short('s'), Long(["status"])])
  const SearchSeverity: FlagSpec := Flag([Long(["severity"])], None, Append, Text, None, FromConfig(SeverityList))
  const SearchPriority: FlagSpec := Flag([Long(["priority"])], None, Append, Text, None, FromConfig(PriorityValues))
  const SearchComments: FlagSpec := Flag([Short('c'), Long(["comments"])], None, StoreTrue, Text, Some(Absent), AnyValue)
  const SearchProduct: FlagSpec := Repeated([Long(["product"])])
  const SearchComponent: FlagSpec := Repeated([Short('C'), Long(["component"])])
  const SearchKeywords: FlagSpec := Plain([Short('k'), Long(["keywords"])])
  const SearchWhiteboard: FlagSpec := Plain([Short('w'), Long(["whiteboard"])])
  const SearchShowStatus: FlagSpec := Switch([Long(["show", "status"])])
  const SearchShowUrl: FlagSpec := Switch([Long(["show", "url"])])

  const SearchFlags: seq<FlagSpec> := [
    SearchOrder, SearchAssignedTo, SearchReporter, SearchCc, SearchCommenter, SearchStatus,
    SearchSeverity, SearchPriority, SearchComments, SearchProduct, SearchComponent, SearchKeywords,
    SearchWhiteboard, SearchShowStatus, SearchShowUrl
  ]

  const SearchCommand: CommandSpec :=
    Command("search", [Positional("terms", ZeroOrMore)], SearchFlags, SearchHandler)

  /** The whole command-line grammar of pybugz. */
  const Bugz: Grammar := Grammar(GlobalFlags, [
    AttachCommand, AttachmentCommand, GetCommand, ModifyCommand,
    NamedcmdCommand, PostCommand, SearchCommand
  ])
}

/**
 Facts read off the pybugz tables: the attribute every flag stores into,
 and that no two flags of one parser share an attribute.

 Each table is taken a few flags at a time: `XNames<n>` states the
 attribute of six flags and `XFresh<n>` that an attribute differs from
 every later one. `ModifyItems0`, `ModifyItems1` and `SearchItems0` say
 which constant sits at six positions, where a sub-command lemma needs it.
 Every such fact means unfolding a literal table, and a single lemma over
 all 22 `modify` flags or 17 `post` flags costs the verifier several times
 the sum of the pieces; `XNamed` then assembles the pieces for the table.
 */
module TableFacts {
  import opened Grammar
  import opened Tables

  /** The attribute of every storing flag of `GlobalFlags` (all but `--version`), in table order. */
  const GlobalDests: seq<string> := [
    "base", "user", "password", "httpuser", "httppassword", "forget", "quiet", "columns",
    "encoding", "skip_auth"
  ]

  lemma GlobalNames0()
    ensures NameAt(GlobalFlags, GlobalDests, 0)
    ensures NameAt(GlobalFlags, GlobalDests, 1)
    ensures NameAt(GlobalFlags, GlobalDests, 2)
    ensures NameAt(GlobalFlags, GlobalDests, 3)
    ensures NameAt(GlobalFlags, GlobalDests, 4)
    ensures NameAt(GlobalFlags, GlobalDests, 5)
  {
    assert GlobalFlags[0] == GlobalBase;
    assert DestOf(GlobalBase) == "base";
    assert GlobalFlags[1] == GlobalUser;
    assert DestOf(GlobalUser) == "user";
    assert GlobalFlags[2] == GlobalPassword;
    assert DestOf(GlobalPassword) == "password";
    assert GlobalFlags[3] == GlobalHttpuser;
    assert DestOf(GlobalHttpuser) == "httpuser";
    assert GlobalFlags[4] == GlobalHttppassword;
    assert DestOf(GlobalHttppassword) == "httppassword";
    assert GlobalFlags[5] == GlobalForget;
    assert DestOf(GlobalForget) == "forget";
  }

  lemma GlobalNames1()
    ensures NameAt(GlobalFlags, GlobalDests, 6)
    ensures NameAt(GlobalFlags, GlobalDests, 7)
    ensures NameAt(GlobalFlags, GlobalDests, 8)
    ensures NameAt(GlobalFlags, GlobalDests, 9)
  {
    assert GlobalFlags[6] == GlobalQuiet;
    assert DestOf(GlobalQuiet) == "quiet";
    assert GlobalFlags[7] == GlobalColumns;
    assert DestOf(GlobalColumns) == "columns";
    assert GlobalFlags[8] == GlobalEncoding;
    assert DestOf(GlobalEncoding) == "encoding";
    assert GlobalFlags[9] == GlobalSkipAuth;
    assert DestOf(GlobalSkipAuth) == "skip_auth";
  }

  lemma GlobalNamed()
    ensures forall i :: 0 <= i < 10 ==> NameAt(GlobalFlags, GlobalDests, i)
  {
    forall i | 0 <= i < 10 ensures NameAt(GlobalFlags, GlobalDests, i) {
      if i < 6 {
        GlobalNames0();
      } else {
        GlobalNames1();
      }
    }
  }

  lemma GlobalFresh0()
    ensures FreshAt(GlobalDests, 0)
    ensures FreshAt(GlobalDests, 1)
    ensures FreshAt(GlobalDests, 2)
    ensures FreshAt(GlobalDests, 3)
    ensures FreshAt(GlobalDests, 4)
    ensures FreshAt(GlobalDests, 5)
  {
  }

  lemma GlobalFresh1()
    ensures FreshAt(GlobalDests, 6)
    ensures FreshAt(GlobalDests, 7)
    ensures FreshAt(GlobalDests, 8)
    ensures FreshAt(GlobalDests, 9)
  {
  }

  lemma GlobalDistinct()
    ensures Distinct(GlobalDests)
  {
    forall i | 0 <= i < 10 ensures FreshAt(GlobalDests, i) {
      if i < 6 {
        GlobalFresh0();
      } else {
        GlobalFresh1();
      }
    }
    DistinctByRows(GlobalDests);
  }

  /** `GlobalFlags` stores into exactly the attributes of `GlobalDests`, each from one flag. */
  lemma GlobalLayout()
    ensures Dests(GlobalFlags) == Elems(GlobalDests)
    ensures UniqueDests(GlobalFlags)
  {
    GlobalNamed();
    GlobalDistinct();
    assert GlobalFlags[10] == GlobalVersion;
    assert DestOf(GlobalVersion) == "version";
    assert "version" !in Elems(GlobalDests);
    NamedTableWithVersion(GlobalFlags, GlobalDests);
  }

  /** The attribute of every flag of `AttachFlags`, in table order. */
  const AttachDests: seq<string> := [
    "content_type", "description", "patch"
  ]

  lemma AttachNames0()
    ensures NameAt(AttachFlags, AttachDests, 0)
    ensures NameAt(AttachFlags, AttachDests, 1)
    ensures NameAt(AttachFlags, AttachDests, 2)
  {
    assert AttachFlags[0] == AttachContentType;
    assert DestOf(AttachContentType) == "content_type";
    assert AttachFlags[1] == AttachDescription;
    assert DestOf(AttachDescription) == "description";
    assert AttachFlags[2] == AttachPatch;
    assert DestOf(AttachPatch) == "patch";
  }

  lemma AttachNamed()
    ensures forall i :: 0 <= i < 3 ==> NameAt(AttachFlags, AttachDests, i)
  {
    forall i | 0 <= i < 3 ensures NameAt(AttachFlags, AttachDests, i) {
      AttachNames0();
    }
  }

  lemma AttachFresh0()
    ensures FreshAt(AttachDests, 0)
    ensures FreshAt(AttachDests, 1)
    ensures FreshAt(AttachDests, 2)
  {
  }

  lemma AttachDistinct()
    ensures Distinct(AttachDests)
  {
    forall i | 0 <= i < 3 ensures FreshAt(AttachDests, i) {
      AttachFresh0();
    }
    DistinctByRows(AttachDests);
  }

  /** `AttachFlags` stores into exactly the attributes of `AttachDests`, each from one flag. */
  lemma AttachLayout()
    ensures Dests(AttachFlags) == Elems(AttachDests)
    ensures UniqueDests(AttachFlags)
  {
    AttachNamed();
    AttachDistinct();
    NamedTable(AttachFlags, AttachDests);
  }

  /** The attribute of every flag of `AttachmentFlags`, in table order. */
  const AttachmentDests: seq<string> := [
    "view"
  ]

  lemma AttachmentNames0()
    ensures NameAt(AttachmentFlags, AttachmentDests, 0)
  {
    assert AttachmentFlags[0] == AttachmentView;
    assert DestOf(AttachmentView) == "view";
  }

  lemma AttachmentNamed()
    ensures forall i :: 0 <= i < 1 ==> NameAt(AttachmentFlags, AttachmentDests, i)
  {
    forall i | 0 <= i < 1 ensures NameAt(AttachmentFlags, AttachmentDests, i) {
      AttachmentNames0();
    }
  }

  lemma AttachmentFresh0()
    ensures FreshAt(AttachmentDests, 0)
  {
  }

  lemma AttachmentDistinct()
    ensures Distinct(AttachmentDests)
  {
    forall i | 0 <= i < 1 ensures FreshAt(AttachmentDests, i) {
      AttachmentFresh0();
    }
    DistinctByRows(AttachmentDests);
  }

  /** `AttachmentFlags` stores into exactly the attributes of `AttachmentDests`, each from one flag. */
  lemma AttachmentLayout()
    ensures Dests(AttachmentFlags) == Elems(AttachmentDests)
    ensures UniqueDests(AttachmentFlags)
  {
    AttachmentNamed();
    AttachmentDistinct();
    NamedTable(AttachmentFlags, AttachmentDests);
  }

  /** The attribute of every flag of `GetFlags`, in table order. */
  const GetDests: seq<string> := [
    "attachments", "comments"
  ]

  lemma GetNames0()
    ensures NameAt(GetFlags, GetDests, 0)
    ensures NameAt(GetFlags, GetDests, 1)
  {
    assert GetFlags[0] == GetNoAttachments;
    assert DestOf(GetNoAttachments) == "attachments";
    assert GetFlags[1] == GetNoComments;
    assert DestOf(GetNoComments) == "comments";
  }

  lemma GetNamed()
    ensures forall i :: 0 <= i < 2 ==> NameAt(GetFlags, GetDests, i)
  {
    forall i | 0 <= i < 2 ensures NameAt(GetFlags, GetDests, i) {
      GetNames0();
    }
  }

  lemma GetFresh0()
    ensures FreshAt(GetDests, 0)
    ensures FreshAt(GetDests, 1)
  {
  }

  lemma GetDistinct()
    ensures Distinct(GetDests)
  {
    forall i | 0 <= i < 2 ensures FreshAt(GetDests, i) {
      GetFresh0();
    }
    DistinctByRows(GetDests);
  }

  /** `GetFlags` stores into exactly the attributes of `GetDests`, each from one flag. */
  lemma GetLayout()
    ensures Dests(GetFlags) == Elems(GetDests)
    ensures UniqueDests(GetFlags)
  {
    GetNamed();
    GetDistinct();
    NamedTable(GetFlags, GetDests);
  }

  /** The attribute of every flag of `ModifyFlags`, in table order. */
  const ModifyDests: seq<string> := [
    "assigned_to", "comment_editor", "comment_from", "comment", "duplicate", "keywords",
    "priority", "resolution", "status", "severity", "title", "url", "whiteboard", "add_cc",
    "remove_cc", "add_dependson", "remove_dependson", "add_blocked", "remove_blocked", "component",
    "fixed", "invalid"
  ]

  lemma ModifyNames0()
    ensures NameAt(ModifyFlags, ModifyDests, 0)
    ensures NameAt(ModifyFlags, ModifyDests, 1)
    ensures NameAt(ModifyFlags, ModifyDests, 2)
    ensures NameAt(ModifyFlags, ModifyDests, 3)
    ensures NameAt(ModifyFlags, ModifyDests, 4)
    ensures NameAt(ModifyFlags, ModifyDests, 5)
  {
    assert ModifyFlags[0] == ModifyAssignedTo;
    assert DestOf(ModifyAssignedTo) == "assigned_to";
    assert ModifyFlags[1] == ModifyCommentEditor;
    assert DestOf(ModifyCommentEditor) == "comment_editor";
    assert ModifyFlags[2] == ModifyCommentFrom;
    assert DestOf(ModifyCommentFrom) == "comment_from";
    assert ModifyFlags[3] == ModifyComment;
    assert DestOf(ModifyComment) == "comment";
    assert ModifyFlags[4] == ModifyDuplicate;
    assert DestOf(ModifyDuplicate) == "duplicate";
    assert ModifyFlags[5] == ModifyKeywords;
    assert DestOf(ModifyKeywords) == "keywords";
  }

  lemma ModifyItems0()
    ensures ModifyFlags[0] == ModifyAssignedTo
    ensures ModifyFlags[1] == ModifyCommentEditor
    ensures ModifyFlags[2] == ModifyCommentFrom
    ensures ModifyFlags[3] == ModifyComment
    ensures ModifyFlags[4] == ModifyDuplicate
    ensures ModifyFlags[5] == ModifyKeywords
  {
  }

  lemma ModifyNames1()
    ensures NameAt(ModifyFlags, ModifyDests, 6)
    ensures NameAt(ModifyFlags, ModifyDests, 7)
    ensures NameAt(ModifyFlags, ModifyDests, 8)
    ensures NameAt(ModifyFlags, ModifyDests, 9)
    ensures NameAt(ModifyFlags, ModifyDests, 10)
    ensures NameAt(ModifyFlags, ModifyDests, 11)
  {
    assert ModifyFlags[6] == ModifyPriority;
    assert DestOf(ModifyPriority) == "priority";
    assert ModifyFlags[7] == ModifyResolution;
    assert DestOf(ModifyResolution) == "resolution";
    assert ModifyFlags[8] == ModifyStatus;
    assert DestOf(ModifyStatus) == "status";
    assert ModifyFlags[9] == ModifySeverity;
    assert DestOf(ModifySeverity) == "severity";
    assert ModifyFlags[10] == ModifyTitle;
    assert DestOf(ModifyTitle) == "title";
    assert ModifyFlags[11] == ModifyUrl;
    assert DestOf(ModifyUrl) == "url";
  }

  lemma ModifyItems1()
    ensures ModifyFlags[6] == ModifyPriority
    ensures ModifyFlags[7] == ModifyResolution
    ensures ModifyFlags[8] == ModifyStatus
    ensures ModifyFlags[9] == ModifySeverity
    ensures ModifyFlags[10] == ModifyTitle
    ensures ModifyFlags[11] == ModifyUrl
  {
  }

  lemma ModifyNames2()
    ensures NameAt(ModifyFlags, ModifyDests, 12)
    ensures NameAt(ModifyFlags, ModifyDests, 13)
    ensures NameAt(ModifyFlags, ModifyDests, 14)
    ensures NameAt(ModifyFlags, ModifyDests, 15)
    ensures NameAt(ModifyFlags, ModifyDests, 16)
    ensures NameAt(ModifyFlags, ModifyDests, 17)
  {
    assert ModifyFlags[12] == ModifyWhiteboard;
    assert DestOf(ModifyWhiteboard) == "whiteboard";
    assert ModifyFlags[13] == ModifyAddCc;
    assert DestOf(ModifyAddCc) == "add_cc";
    assert ModifyFlags[14] == ModifyRemoveCc;
    assert DestOf(ModifyRemoveCc) == "remove_cc";
    assert ModifyFlags[15] == ModifyAddDependson;
    assert DestOf(ModifyAddDependson) == "add_dependson";
    assert ModifyFlags[16] == ModifyRemoveDependson;
    assert DestOf(ModifyRemoveDependson) == "remove_dependson";
    assert ModifyFlags[17] == ModifyAddBlocked;
    assert DestOf(ModifyAddBlocked) == "add_blocked";
  }

  lemma ModifyNames3()
    ensures NameAt(ModifyFlags, ModifyDests, 18)
    ensures NameAt(ModifyFlags, ModifyDests, 19)
    ensures NameAt(ModifyFlags, ModifyDests, 20)
    ensures NameAt(ModifyFlags, ModifyDests, 21)
  {
    assert ModifyFlags[18] == ModifyRemoveBlocked;
    assert DestOf(ModifyRemoveBlocked) == "remove_blocked";
    assert ModifyFlags[19] == ModifyComponent;
    assert DestOf(ModifyComponent) == "component";
    assert ModifyFlags[20] == ModifyFixed;
    assert DestOf(ModifyFixed) == "fixed";
    assert ModifyFlags[21] == ModifyInvalid;
    assert DestOf(ModifyInvalid) == "invalid";
  }

  lemma ModifyNamed()
    ensures forall i :: 0 <= i < 22 ==> NameAt(ModifyFlags, ModifyDests, i)
  {
    forall i | 0 <= i < 22 ensures NameAt(ModifyFlags, ModifyDests, i) {
      if i < 6 {
        ModifyNames0();
      } else if i < 12 {
        ModifyNames1();
      } else if i < 18 {
        ModifyNames2();
      } else {
        ModifyNames3();
      }
    }
  }

  lemma ModifyFresh0()
    ensures FreshAt(ModifyDests, 0)
  {
  }

  lemma ModifyFresh1()
    ensures FreshAt(ModifyDests, 1)
    ensures FreshAt(ModifyDests, 2)
  {
  }

  lemma ModifyFresh2()
    ensures FreshAt(ModifyDests, 3)
    ensures FreshAt(ModifyDests, 4)
  {
  }

  lemma ModifyFresh3()
    ensures FreshAt(ModifyDests, 5)
    ensures FreshAt(ModifyDests, 6)
  {
  }

  lemma ModifyFresh4()
    ensures FreshAt(ModifyDests, 7)
    ensures FreshAt(ModifyDests, 8)
    ensures FreshAt(ModifyDests, 9)
  {
  }

  lemma ModifyFresh5()
    ensures FreshAt(ModifyDests, 10)
    ensures FreshAt(ModifyDests, 11)
    ensures FreshAt(ModifyDests, 12)
    ensures FreshAt(ModifyDests, 13)
  {
  }

  lemma ModifyFresh6()
    ensures FreshAt(ModifyDests, 14)
    ensures FreshAt(ModifyDests, 15)
    ensures FreshAt(ModifyDests, 16)
    ensures FreshAt(ModifyDests, 17)
    ensures FreshAt(ModifyDests, 18)
    ensures FreshAt(ModifyDests, 19)
    ensures FreshAt(ModifyDests, 20)
    ensures FreshAt(ModifyDests, 21)
  {
  }

  lemma ModifyDistinct()
    ensures Distinct(ModifyDests)
  {
    forall i | 0 <= i < 22 ensures FreshAt(ModifyDests, i) {
      if i < 1 {
        ModifyFresh0();
      } else if i < 3 {
        ModifyFresh1();
      } else if i < 5 {
        ModifyFresh2();
      } else if i < 7 {
        ModifyFresh3();
      } else if i < 10 {
        ModifyFresh4();
      } else if i < 14 {
        ModifyFresh5();
      } else {
        ModifyFresh6();
      }
    }
    DistinctByRows(ModifyDests);
  }

  /** `ModifyFlags` stores into exactly the attributes of `ModifyDests`, each from one flag. */
  lemma ModifyLayout()
    ensures Dests(ModifyFlags) == Elems(ModifyDests)
    ensures UniqueDests(ModifyFlags)
  {
    ModifyNamed();
    ModifyDistinct();
    NamedTable(ModifyFlags, ModifyDests);
  }

  /** The attribute of every flag of `NamedcmdFlags`, in table order. */
  const NamedcmdDests: seq<string> := [
    "show_status", "show_url"
  ]

  lemma NamedcmdNames0()
    ensures NameAt(NamedcmdFlags, NamedcmdDests, 0)
    ensures NameAt(NamedcmdFlags, NamedcmdDests, 1)
  {
    assert NamedcmdFlags[0] == NamedcmdShowStatus;
    assert DestOf(NamedcmdShowStatus) == "show_status";
    assert NamedcmdFlags[1] == NamedcmdShowUrl;
    assert DestOf(NamedcmdShowUrl) == "show_url";
  }

  lemma NamedcmdNamed()
    ensures forall i :: 0 <= i < 2 ==> NameAt(NamedcmdFlags, NamedcmdDests, i)
  {
    forall i | 0 <= i < 2 ensures NameAt(NamedcmdFlags, NamedcmdDests, i) {
      NamedcmdNames0();
    }
  }

  lemma NamedcmdFresh0()
    ensures FreshAt(NamedcmdDests, 0)
    ensures FreshAt(NamedcmdDests, 1)
  {
  }

  lemma NamedcmdDistinct()
    ensures Distinct(NamedcmdDests)
  {
    forall i | 0 <= i < 2 ensures FreshAt(NamedcmdDests, i) {
      NamedcmdFresh0();
    }
    DistinctByRows(NamedcmdDests);
  }

  /** `NamedcmdFlags` stores into exactly the attributes of `NamedcmdDests`, each from one flag. */
  lemma NamedcmdLayout()
    ensures Dests(NamedcmdFlags) == Elems(NamedcmdDests)
    ensures UniqueDests(NamedcmdFlags)
  {
    NamedcmdNamed();
    NamedcmdDistinct();
    NamedTable(NamedcmdFlags, NamedcmdDests);
  }

  /** The attribute of every flag of `PostFlags`, in table order. */
  const PostDests: seq<string> := [
    "product", "component", "prodversion", "title", "description", "description_from",
    "append_command", "assigned_to", "cc", "url", "dependson", "blocked", "keywords", "batch",
    "default_confirm", "priority", "severity"
  ]

  lemma PostNames0()
    ensures NameAt(PostFlags, PostDests, 0)
    ensures NameAt(PostFlags, PostDests, 1)
    ensures NameAt(PostFlags, PostDests, 2)
    ensures NameAt(PostFlags, PostDests, 3)
    ensures NameAt(PostFlags, PostDests, 4)
    ensures NameAt(PostFlags, PostDests, 5)
  {
    assert PostFlags[0] == PostProduct;
    assert DestOf(PostProduct) == "product";
    assert PostFlags[1] == PostComponent;
    assert DestOf(PostComponent) == "component";
    assert PostFlags[2] == PostProdversion;
    assert DestOf(PostProdversion) == "prodversion";
    assert PostFlags[3] == PostTitle;
    assert DestOf(PostTitle) == "title";
    assert PostFlags[4] == PostDescription;
    assert DestOf(PostDescription) == "description";
    assert PostFlags[5] == PostDescriptionFrom;
    assert DestOf(PostDescriptionFrom) == "description_from";
  }

  lemma PostNames1()
    ensures NameAt(PostFlags, PostDests, 6)
    ensures NameAt(PostFlags, PostDests, 7)
    ensures NameAt(PostFlags, PostDests, 8)
    ensures NameAt(PostFlags, PostDests, 9)
    ensures NameAt(PostFlags, PostDests, 10)
    ensures NameAt(PostFlags, PostDests, 11)
  {
    assert PostFlags[6] == PostAppendCommand;
    assert DestOf(PostAppendCommand) == "append_command";
    assert PostFlags[7] == PostAssignedTo;
    assert DestOf(PostAssignedTo) == "assigned_to";
    assert PostFlags[8] == PostCc;
    assert DestOf(PostCc) == "cc";
    assert PostFlags[9] == PostUrl;
    assert DestOf(PostUrl) == "url";
    assert PostFlags[10] == PostDependsOn;
    assert DestOf(PostDependsOn) == "dependson";
    assert PostFlags[11] == PostBlocked;
    assert DestOf(PostBlocked) == "blocked";
  }

  lemma PostNames2()
    ensures NameAt(PostFlags, PostDests, 12)
    ensures NameAt(PostFlags, PostDests, 13)
    ensures NameAt(PostFlags, PostDests, 14)
    ensures NameAt(PostFlags, PostDests, 15)
    ensures NameAt(PostFlags, PostDests, 16)
  {
    assert PostFlags[12] == PostKeywords;
    assert DestOf(PostKeywords) == "keywords";
    assert PostFlags[13] == PostBatch;
    assert DestOf(PostBatch) == "batch";
    assert PostFlags[14] == PostDefaultConfirm;
    assert DestOf(PostDefaultConfirm) == "default_confirm";
    assert PostFlags[15] == PostPriority;
    assert DestOf(PostPriority) == "priority";
    assert PostFlags[16] == PostSeverity;
    assert DestOf(PostSeverity) == "severity";
  }

  lemma PostNamed()
    ensures forall i :: 0 <= i < 17 ==> NameAt(PostFlags, PostDests, i)
  {
    forall i | 0 <= i < 17 ensures NameAt(PostFlags, PostDests, i) {
      if i < 6 {
        PostNames0();
      } else if i < 12 {
        PostNames1();
      } else {
        PostNames2();
      }
    }
  }

  lemma PostFresh0()
    ensures FreshAt(PostDests, 0)
    ensures FreshAt(PostDests, 1)
  {
  }

  lemma PostFresh1()
    ensures FreshAt(PostDests, 2)
    ensures FreshAt(PostDests, 3)
    ensures FreshAt(PostDests, 4)
  {
  }

  lemma PostFresh2()
    ensures FreshAt(PostDests, 5)
    ensures FreshAt(PostDests, 6)
    ensures FreshAt(PostDests, 7)
    ensures FreshAt(PostDests, 8)
  {
  }

  lemma PostFresh3()
    ensures FreshAt(PostDests, 9)
    ensures FreshAt(PostDests, 10)
    ensures FreshAt(PostDests, 11)
    ensures FreshAt(PostDests, 12)
    ensures FreshAt(PostDests, 13)
    ensures FreshAt(PostDests, 14)
    ensures FreshAt(PostDests, 15)
    ensures FreshAt(PostDests, 16)
  {
  }

  lemma PostDistinct()
    ensures Distinct(PostDests)
  {
    forall i | 0 <= i < 17 ensures FreshAt(PostDests, i) {
      if i < 2 {
        PostFresh0();
      } else if i < 5 {
        PostFresh1();
      } else if i < 9 {
        PostFresh2();
      } else {
        PostFresh3();
      }
    }
    DistinctByRows(PostDests);
  }

  /** `PostFlags` stores into exactly the attributes of `PostDests`, each from one flag. */
  lemma PostLayout()
    ensures Dests(PostFlags) == Elems(PostDests)
    ensures UniqueDests(PostFlags)
  {
    PostNamed();
    PostDistinct();
    NamedTable(PostFlags, PostDests);
  }

  /** The attribute of every flag of `SearchFlags`, in table order. */
  const SearchDests: seq<string> := [
    "order", "assigned_to", "reporter", "cc", "commenter", "status", "severity", "priority",
    "comments", "product", "component", "keywords", "whiteboard", "show_status", "show_url"
  ]

  lemma SearchNames0()
    ensures NameAt(SearchFlags, SearchDests, 0)
    ensures NameAt(SearchFlags, SearchDests, 1)
    ensures NameAt(SearchFlags, SearchDests, 2)
    ensures NameAt(SearchFlags, SearchDests, 3)
    ensures NameAt(SearchFlags, SearchDests, 4)
    ensures NameAt(SearchFlags, SearchDests, 5)
  {
    assert SearchFlags[0] == SearchOrder;
    assert DestOf(SearchOrder) == "order";
    assert SearchFlags[1] == SearchAssignedTo;
    assert DestOf(SearchAssignedTo) == "assigned_to";
    assert SearchFlags[2] == SearchReporter;
    assert DestOf(SearchReporter) == "reporter";
    assert SearchFlags[3] == SearchCc;
    assert DestOf(SearchCc) == "cc";
    assert SearchFlags[4] == SearchCommenter;
    assert DestOf(SearchCommenter) == "commenter";
    assert SearchFlags[5] == SearchStatus;
    assert DestOf(SearchStatus) == "status";
  }

  lemma SearchItems0()
    ensures SearchFlags[0] == SearchOrder
    ensures SearchFlags[1] == SearchAssignedTo
    ensures SearchFlags[2] == SearchReporter
    ensures SearchFlags[3] == SearchCc
    ensures SearchFlags[4] == SearchCommenter
    ensures SearchFlags[5] == SearchStatus
  {
  }

  lemma SearchNames1()
    ensures NameAt(SearchFlags, SearchDests, 6)
    ensures NameAt(SearchFlags, SearchDests, 7)
    ensures NameAt(SearchFlags, SearchDests, 8)
    ensures NameAt(SearchFlags, SearchDests, 9)
    ensures NameAt(SearchFlags, SearchDests, 10)
    ensures NameAt(SearchFlags, SearchDests, 11)
  {
    assert SearchFlags[6] == SearchSeverity;
    assert DestOf(SearchSeverity) == "severity";
    assert SearchFlags[7] == SearchPriority;
    assert DestOf(SearchPriority) == "priority";
    assert SearchFlags[8] == SearchComments;
    assert DestOf(SearchComments) == "comments";
    assert SearchFlags[9] == SearchProduct;
    assert DestOf(SearchProduct) == "product";
    assert SearchFlags[10] == SearchComponent;
    assert DestOf(SearchComponent) == "component";
    assert SearchFlags[11] == SearchKeywords;
    assert DestOf(SearchKeywords) == "keywords";
  }

  lemma SearchNames2()
    ensures NameAt(SearchFlags, SearchDests, 12)
    ensures NameAt(SearchFlags, SearchDests, 13)
    ensures NameAt(SearchFlags, SearchDests, 14)
  {
    assert SearchFlags[12] == SearchWhiteboard;
    assert DestOf(SearchWhiteboard) == "whiteboard";
    assert SearchFlags[13] == SearchShowStatus;
    assert DestOf(SearchShowStatus) == "show_status";
    assert SearchFlags[14] == SearchShowUrl;
    assert DestOf(SearchShowUrl) == "show_url";
  }

  lemma SearchNamed()
    ensures forall i :: 0 <= i < 15 ==> NameAt(SearchFlags, SearchDests, i)
  {
    forall i | 0 <= i < 15 ensures NameAt(SearchFlags, SearchDests, i) {
      if i < 6 {
        SearchNames0();
      } else if i < 12 {
        SearchNames1();
      } else {
        SearchNames2();
      }
    }
  }

  lemma SearchFresh0()
    ensures FreshAt(SearchDests, 0)
    ensures FreshAt(SearchDests, 1)
    ensures FreshAt(SearchDests, 2)
  {
  }

  lemma SearchFresh1()
    ensures FreshAt(SearchDests, 3)
    ensures FreshAt(SearchDests, 4)
    ensures FreshAt(SearchDests, 5)
    ensures FreshAt(SearchDests, 6)
  {
  }

  lemma SearchFresh2()
    ensures FreshAt(SearchDests, 7)
    ensures FreshAt(SearchDests, 8)
    ensures FreshAt(SearchDests, 9)
    ensures FreshAt(SearchDests, 10)
    ensures FreshAt(SearchDests, 11)
    ensures FreshAt(SearchDests, 12)
    ensures FreshAt(SearchDests, 13)
    ensures FreshAt(SearchDests, 14)
  {
  }

  lemma SearchDistinct()
    ensures Distinct(SearchDests)
  {
    forall i | 0 <= i < 15 ensures FreshAt(SearchDests, i) {
      if i < 3 {
        SearchFresh0();
      } else if i < 7 {
        SearchFresh1();
      } else {
        SearchFresh2();
      }
    }
    DistinctByRows(SearchDests);
  }

  /** `SearchFlags` stores into exactly the attributes of `SearchDests`, each from one flag. */
  lemma SearchLayout()
    ensures Dests(SearchFlags) == Elems(SearchDests)
    ensures UniqueDests(SearchFlags)
  {
    SearchNamed();
    SearchDistinct();
    NamedTable(SearchFlags, SearchDests);
  }
}

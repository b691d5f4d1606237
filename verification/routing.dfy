/**
 How the parsed namespace reaches `get_kwds`: the top-level parser stores
 exactly the ten global attributes, no sub-command stores into one of them,
 so the partition sends every global flag to the session and every
 sub-command flag and positional to the command.

 The `XApart<n>` lemmas check six attribute names of a table at a time
 against `global_attrs`, for the same reason the table facts come in
 pieces: each is a comparison of string literals, and all of a large table
 at once is far more expensive than its pieces.
 */
module Routing {
  import opened Values
  import opened Grammar
  import opened Tables
  import opened TableFacts
  import opened Kwds
  import opened Scope
  import Subcommands

  /** The top-level parser stores into exactly the names of `global_attrs`. */
  lemma GlobalDestsAreGlobalAttrs()
    ensures Dests(GlobalFlags) == GlobalAttrs
  {
    GlobalLayout();
    var names := GlobalDests;
    assert GlobalAttrs == {names[0], names[1], names[2], names[3], names[4], names[5], names[6], names[7], names[8], names[9]};
    assert Elems(names) == GlobalAttrs by {
      forall a | a in GlobalAttrs ensures a in Elems(names) {
        var i :| 0 <= i < 10 && names[i] == a;
      }
    }
  }

  lemma AttachApart0()
    ensures ApartAt(AttachDests, 0)
    ensures ApartAt(AttachDests, 1)
    ensures ApartAt(AttachDests, 2)
  {
  }

  /** `attach` adds no global, private or reserved attribute. */
  lemma AttachSeparate()
    ensures Separate(AttachCommand)
    ensures UniqueDests(AttachCommand.flags)
  {
    AttachLayout();
    forall i | 0 <= i < 3 ensures ApartAt(AttachDests, i) {
      AttachApart0();
    }
    ApartSeparate(AttachCommand, AttachDests);
  }

  lemma AttachmentApart0()
    ensures ApartAt(AttachmentDests, 0)
  {
  }

  /** `attachment` adds no global, private or reserved attribute. */
  lemma AttachmentSeparate()
    ensures Separate(AttachmentCommand)
    ensures UniqueDests(AttachmentCommand.flags)
  {
    AttachmentLayout();
    forall i | 0 <= i < 1 ensures ApartAt(AttachmentDests, i) {
      AttachmentApart0();
    }
    ApartSeparate(AttachmentCommand, AttachmentDests);
  }

  lemma GetApart0()
    ensures ApartAt(GetDests, 0)
    ensures ApartAt(GetDests, 1)
  {
  }

  /** `get` adds no global, private or reserved attribute. */
  lemma GetSeparate()
    ensures Separate(GetCommand)
    ensures UniqueDests(GetCommand.flags)
  {
    GetLayout();
    forall i | 0 <= i < 2 ensures ApartAt(GetDests, i) {
      GetApart0();
    }
    ApartSeparate(GetCommand, GetDests);
  }

  lemma ModifyApart0()
    ensures ApartAt(ModifyDests, 0)
    ensures ApartAt(ModifyDests, 1)
    ensures ApartAt(ModifyDests, 2)
    ensures ApartAt(ModifyDests, 3)
    ensures ApartAt(ModifyDests, 4)
    ensures ApartAt(ModifyDests, 5)
  {
  }

  lemma ModifyApart1()
    ensures ApartAt(ModifyDests, 6)
    ensures ApartAt(ModifyDests, 7)
    ensures ApartAt(ModifyDests, 8)
    ensures ApartAt(ModifyDests, 9)
    ensures ApartAt(ModifyDests, 10)
    ensures ApartAt(ModifyDests, 11)
  {
  }

  lemma ModifyApart2()
    ensures ApartAt(ModifyDests, 12)
    ensures ApartAt(ModifyDests, 13)
    ensures ApartAt(ModifyDests, 14)
    ensures ApartAt(ModifyDests, 15)
    ensures ApartAt(ModifyDests, 16)
    ensures ApartAt(ModifyDests, 17)
  {
  }

  lemma ModifyApart3()
    ensures ApartAt(ModifyDests, 18)
    ensures ApartAt(ModifyDests, 19)
    ensures ApartAt(ModifyDests, 20)
    ensures ApartAt(ModifyDests, 21)
  {
  }

  /** `modify` adds no global, private or reserved attribute. */
  lemma ModifySeparate()
    ensures Separate(ModifyCommand)
    ensures UniqueDests(ModifyCommand.flags)
  {
    ModifyLayout();
    forall i | 0 <= i < 22 ensures ApartAt(ModifyDests, i) {
      if i < 6 {
        ModifyApart0();
      } else if i < 12 {
        ModifyApart1();
      } else if i < 18 {
        ModifyApart2();
      } else {
        ModifyApart3();
      }
    }
    ApartSeparate(ModifyCommand, ModifyDests);
  }

  lemma NamedcmdApart0()
    ensures ApartAt(NamedcmdDests, 0)
    ensures ApartAt(NamedcmdDests, 1)
  {
  }

  /** `namedcmd` adds no global, private or reserved attribute. */
  lemma NamedcmdSeparate()
    ensures Separate(NamedcmdCommand)
    ensures UniqueDests(NamedcmdCommand.flags)
  {
    NamedcmdLayout();
    forall i | 0 <= i < 2 ensures ApartAt(NamedcmdDests, i) {
      NamedcmdApart0();
    }
    ApartSeparate(NamedcmdCommand, NamedcmdDests);
  }

  lemma PostApart0()
    ensures ApartAt(PostDests, 0)
    ensures ApartAt(PostDests, 1)
    ensures ApartAt(PostDests, 2)
    ensures ApartAt(PostDests, 3)
    ensures ApartAt(PostDests, 4)
    ensures ApartAt(PostDests, 5)
  {
  }

  lemma PostApart1()
    ensures ApartAt(PostDests, 6)
    ensures ApartAt(PostDests, 7)
    ensures ApartAt(PostDests, 8)
    ensures ApartAt(PostDests, 9)
    ensures ApartAt(PostDests, 10)
    ensures ApartAt(PostDests, 11)
  {
  }

  lemma PostApart2()
    ensures ApartAt(PostDests, 12)
    ensures ApartAt(PostDests, 13)
    ensures ApartAt(PostDests, 14)
    ensures ApartAt(PostDests, 15)
    ensures ApartAt(PostDests, 16)
  {
  }

  /** `post` adds no global, private or reserved attribute. */
  lemma PostSeparate()
    ensures Separate(PostCommand)
    ensures UniqueDests(PostCommand.flags)
  {
    PostLayout();
    forall i | 0 <= i < 17 ensures ApartAt(PostDests, i) {
      if i < 6 {
        PostApart0();
      } else if i < 12 {
        PostApart1();
      } else {
        PostApart2();
      }
    }
    ApartSeparate(PostCommand, PostDests);
  }

  lemma SearchApart0()
    ensures ApartAt(SearchDests, 0)
    ensures ApartAt(SearchDests, 1)
    ensures ApartAt(SearchDests, 2)
    ensures ApartAt(SearchDests, 3)
    ensures ApartAt(SearchDests, 4)
    ensures ApartAt(SearchDests, 5)
  {
  }

  lemma SearchApart1()
    ensures ApartAt(SearchDests, 6)
    ensures ApartAt(SearchDests, 7)
    ensures ApartAt(SearchDests, 8)
    ensures ApartAt(SearchDests, 9)
    ensures ApartAt(SearchDests, 10)
    ensures ApartAt(SearchDests, 11)
  {
  }

  lemma SearchApart2()
    ensures ApartAt(SearchDests, 12)
    ensures ApartAt(SearchDests, 13)
    ensures ApartAt(SearchDests, 14)
  {
  }

  /** `search` adds no global, private or reserved attribute. */
  lemma SearchSeparate()
    ensures Separate(SearchCommand)
    ensures UniqueDests(SearchCommand.flags)
  {
    SearchLayout();
    forall i | 0 <= i < 15 ensures ApartAt(SearchDests, i) {
      if i < 6 {
        SearchApart0();
      } else if i < 12 {
        SearchApart1();
      } else {
        SearchApart2();
      }
    }
    ApartSeparate(SearchCommand, SearchDests);
  }

  lemma BugzCommandsSeparate0()
    ensures SeparateAt(Bugz.commands, 0) && SeparateAt(Bugz.commands, 1)
    ensures SeparateAt(Bugz.commands, 2) && SeparateAt(Bugz.commands, 3)
  {
    AttachSeparate();
    AttachmentSeparate();
    GetSeparate();
    ModifySeparate();
    assert Bugz.commands[0] == AttachCommand;
    assert Bugz.commands[1] == AttachmentCommand;
    assert Bugz.commands[2] == GetCommand;
    assert Bugz.commands[3] == ModifyCommand;
  }

  lemma BugzCommandsSeparate1()
    ensures SeparateAt(Bugz.commands, 4) && SeparateAt(Bugz.commands, 5) && SeparateAt(Bugz.commands, 6)
  {
    NamedcmdSeparate();
    PostSeparate();
    SearchSeparate();
    assert Bugz.commands[4] == NamedcmdCommand;
    assert Bugz.commands[5] == PostCommand;
    assert Bugz.commands[6] == SearchCommand;
  }

  /** pybugz's grammar is scoped. */
  lemma BugzScoped()
    ensures Scoped(Bugz)
  {
    GlobalDestsAreGlobalAttrs();
    assert |Bugz.commands| == 7;
    forall k | 0 <= k < |Bugz.commands| ensures SeparateAt(Bugz.commands, k) {
      BugzCommandsSeparate0();
      BugzCommandsSeparate1();
      if k == 0 {
      } else if k == 1 {
      } else if k == 2 {
      } else if k == 3 {
      } else if k == 4 {
      } else if k == 5 {
      } else {
        assert k == 6;
      }
    }
  }

  /**
   For every invocation pybugz parses, `get_kwds` hands the connection
   exactly the ten global attributes, with the values the top-level parser
   gave them, and hands the sub-command exactly its own flags and
   positionals.
   */
  lemma RoutesByScope(v: Vocabularies, inv: Invocation)
    ensures FollowsScope(Bugz, v, inv)
  {
    BugzScoped();
    ScopedRouting(Bugz, v, inv);
  }

  /**
   Every parse hands its sub-command's handler to the caller in `func`,
   the one that sub-command's `set_defaults` names.
   */
  lemma BugzHandlers(v: Vocabularies, inv: Invocation)
    requires Resolve(Bugz, v, inv).Parsed?
    ensures "func" in Resolve(Bugz, v, inv).ns
    ensures var f := Resolve(Bugz, v, inv).ns["func"];
      && (inv.command == Some("attach") ==> f == Func(AttachHandler))
      && (inv.command == Some("attachment") ==> f == Func(AttachmentHandler))
      && (inv.command == Some("get") ==> f == Func(GetHandler))
      && (inv.command == Some("modify") ==> f == Func(ModifyHandler))
      && (inv.command == Some("namedcmd") ==> f == Func(NamedcmdHandler))
      && (inv.command == Some("post") ==> f == Func(PostHandler))
      && (inv.command == Some("search") ==> f == Func(SearchHandler))
  {
    BugzScoped();
    HandlerOfChosen(Bugz, v, inv);
    var name := inv.command.value;
    if name == "attach" {
      Subcommands.ChosenAttach(inv);
    } else if name == "attachment" {
      Subcommands.ChosenAttachment(inv);
    } else if name == "get" {
      Subcommands.ChosenGet(inv);
    } else if name == "modify" {
      Subcommands.ChosenModify(inv);
    } else if name == "namedcmd" {
      Subcommands.ChosenNamedcmd(inv);
    } else if name == "post" {
      Subcommands.ChosenPost(inv);
    } else if name == "search" {
      Subcommands.ChosenSearch(inv);
    }
  }
}

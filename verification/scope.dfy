/**
 The scoping rule behind `get_kwds`: when a grammar's top level stores
 exactly the names of `global_attrs` and no sub-command stores into one of
 them, the partition of any successful parse gives the session exactly the
 global attributes and the sub-command exactly its own.
 */
module Scope {
  import opened Values
  import opened Grammar
  import opened Kwds

  /** An attribute `get_kwds` passes to the command side. */
  predicate Clean(a: string)
  {
    |a| > 0 && a[0] != '_' && a != "func" && a !in GlobalAttrs
  }

  /** Entry `i` of `names` is a command-side attribute. */
  predicate ApartAt(names: seq<string>, i: int)
  {
    0 <= i < |names| && Clean(names[i])
  }

  /** No attribute of the sub-command is global, private or the handler. */
  predicate Separate(c: CommandSpec)
  {
    forall a :: a in CommandAttrs(c) ==> Clean(a)
  }

  lemma ApartSeparate(c: CommandSpec, names: seq<string>)
    requires Dests(c.flags) == Elems(names)
    requires forall i :: 0 <= i < |names| ==> ApartAt(names, i)
    requires forall a :: a in PosDests(c.positionals) ==> Clean(a)
    ensures Separate(c)
  {
    forall a | a in Dests(c.flags) ensures Clean(a) {
      var i :| 0 <= i < |names| && names[i] == a;
      assert ApartAt(names, i);
    }
  }

  /** Command `k` of `cs` keeps apart from the global attributes and stores at most once into each attribute. */
  predicate SeparateAt(cs: seq<CommandSpec>, k: int)
  {
    0 <= k < |cs| && Separate(cs[k]) && UniqueDests(cs[k].flags)
  }

  /** A grammar whose top level stores exactly `global_attrs` and whose sub-commands all keep apart from them. */
  predicate Scoped(g: Grammar)
  {
    && Dests(g.globals) == GlobalAttrs
    && forall k :: 0 <= k < |g.commands| ==> SeparateAt(g.commands, k)
  }

  /** The global attribute names are public names. */
  lemma GlobalAttrsRouted()
    ensures forall a :: a in GlobalAttrs ==> |a| > 0 && a[0] != '_' && a != "func"
  {
  }

  /** The session side of a namespace made of the global attributes, clean command attributes and the handler. */
  lemma SessionByScope(ns: Namespace, top: Namespace, attrs: set<string>)
    requires NamesNonEmpty(ns)
    requires top.Keys == GlobalAttrs
    requires ns.Keys == GlobalAttrs + attrs + {"func"}
    requires forall a :: a in GlobalAttrs ==> |a| > 0 && a[0] != '_' && a != "func" && a !in attrs
    requires forall a :: a in GlobalAttrs && a !in attrs + {"func"} ==> ns[a] == top[a]
    ensures Partition(ns).session == top
  {
    var p := Partition(ns);
    forall a | a in GlobalAttrs ensures a in p.session && p.session[a] == top[a] {
      assert Routed(a);
    }
  }

  /** The command side of the same namespace. */
  lemma CommandByScope(ns: Namespace, attrs: set<string>)
    requires NamesNonEmpty(ns)
    requires ns.Keys == GlobalAttrs + attrs + {"func"}
    requires forall a :: a in attrs ==> Clean(a)
    ensures Partition(ns).command.Keys == attrs
  {
    var p := Partition(ns);
    forall a | a in attrs ensures a in p.command {
      assert Clean(a);
    }
  }

  /**
   `get_kwds` on a namespace made of the global attributes as the top level
   left them, clean command attributes and the handler: the session gets the
   top-level namespace, the command exactly its own attributes.
   */
  lemma PartitionByScope(ns: Namespace, top: Namespace, attrs: set<string>)
    requires top.Keys == GlobalAttrs
    requires ns.Keys == GlobalAttrs + attrs + {"func"}
    requires forall a :: a in attrs ==> Clean(a)
    requires forall a :: a in GlobalAttrs && a !in attrs + {"func"} ==> ns[a] == top[a]
    ensures NamesNonEmpty(ns)
    ensures Partition(ns).session == top
    ensures Partition(ns).command.Keys == attrs
  {
    GlobalAttrsRouted();
    assert NamesNonEmpty(ns);
    SessionByScope(ns, top, attrs);
    CommandByScope(ns, attrs);
  }

  /** Under a scoped grammar, a parse carries the chosen sub-command's handler in `func`. */
  lemma HandlerOfChosen(g: Grammar, v: Vocabularies, inv: Invocation)
    requires Scoped(g) && Resolve(g, v, inv).Parsed?
    ensures "func" in Resolve(g, v, inv).ns && Resolve(g, v, inv).ns["func"] == Func(Chosen(g, inv).handler)
  {
    assert SeparateAt(g.commands, FindCommand(g.commands, inv.command.value, 0));
    assert !Clean("func");
  }

  /** What `get_kwds` does with the namespace of a parse, when there is one. */
  predicate FollowsScope(g: Grammar, v: Vocabularies, inv: Invocation)
  {
    var r := Resolve(g, v, inv);
    r.Parsed? ==>
      && TopPass(g, v, inv).Parsed?
      && NamesNonEmpty(r.ns)
      && Partition(r.ns).session == TopPass(g, v, inv).ns
      && Partition(r.ns).command.Keys == CommandAttrs(Chosen(g, inv))
  }

  /** The partition of any parse under a scoped grammar. */
  lemma ScopedRouting(g: Grammar, v: Vocabularies, inv: Invocation)
    requires Scoped(g)
    ensures FollowsScope(g, v, inv)
  {
    var r := Resolve(g, v, inv);
    if r.Parsed? {
      var c := Chosen(g, inv);
      assert SeparateAt(g.commands, FindCommand(g.commands, inv.command.value, 0));
      PartitionByScope(r.ns, TopPass(g, v, inv).ns, CommandAttrs(c));
    }
  }
}

/**
 `get_kwds`: splits the parsed namespace into the session parameters handed
 to the Bugzilla connection and the parameters of the chosen sub-command.
 Private attributes (a leading underscore) and the handler `func` are
 dropped; the ten global attribute names go to the session side, everything
 else to the command side, values unchanged.
 */
module Kwds {
  import opened Values

  /** `global_attrs`. */
  const GlobalAttrs: set<string> :=
    {"user", "password", "httpuser", "httppassword", "forget", "base", "columns", "encoding", "quiet", "skip_auth"}

  /** The result pair `(bugz, cmd)`. */
  datatype Kwds = Kwds(session: Namespace, command: Namespace)

  /**
   Every attribute name the reflection can yield is non-empty; the source
   reads `attr[0]` and would fail on an empty one.
   */
  predicate NamesNonEmpty(ns: Namespace)
  {
    forall k :: k in ns ==> |k| > 0
  }

  /** An attribute `get_kwds` passes on: not private and not the handler. */
  predicate Routed(attr: string)
    requires |attr| > 0
  {
    attr[0] != '_' && attr != "func"
  }

  /** The attributes that survive the filter, with their values. */
  function Public(ns: Namespace): (r: Namespace)
    requires NamesNonEmpty(ns)
    ensures forall k :: k in r <==> k in ns && Routed(k)
    ensures forall k :: k in r ==> r[k] == ns[k]
  {
    map k | k in ns && Routed(k) :: ns[k]
  }

  /** `get_kwds` as a function of the namespace. */
  function Partition(ns: Namespace): (r: Kwds)
    requires NamesNonEmpty(ns)
    ensures r.session.Keys !! r.command.Keys
    ensures r.session.Keys + r.command.Keys == Public(ns).Keys
    ensures r.session.Keys <= GlobalAttrs
    ensures forall k :: k in r.session <==> k in ns && Routed(k) && k in GlobalAttrs
    ensures forall k :: k in r.command <==> k in ns && Routed(k) && k !in GlobalAttrs
    ensures forall k :: k in r.session ==> r.session[k] == ns[k]
    ensures forall k :: k in r.command ==> r.command[k] == ns[k]
  {
    Kwds(
      map k | k in ns && Routed(k) && k in GlobalAttrs :: ns[k],
      map k | k in ns && Routed(k) && k !in GlobalAttrs :: ns[k])
  }

  /**
   The loop of `get_kwds`: one pass over the attributes in any order,
   routing each public one to the session map when it is one of `globals`
   and to the command map otherwise.
   */
  method Route(ns: Namespace, globals: set<string>) returns (bugz: Namespace, cmd: Namespace)
    requires NamesNonEmpty(ns)
    ensures forall k :: k in bugz <==> k in ns && Routed(k) && k in globals
    ensures forall k :: k in cmd <==> k in ns && Routed(k) && k !in globals
    ensures forall k :: k in bugz ==> bugz[k] == ns[k]
    ensures forall k :: k in cmd ==> cmd[k] == ns[k]
  {
    bugz := map[];
    cmd := map[];
    var todo := ns.Keys;
    while todo != {}
      invariant todo <= ns.Keys
      invariant forall k :: k in bugz <==> k in ns && k !in todo && Routed(k) && k in globals
      invariant forall k :: k in cmd <==> k in ns && k !in todo && Routed(k) && k !in globals
      invariant forall k :: k in bugz ==> bugz[k] == ns[k]
      invariant forall k :: k in cmd ==> cmd[k] == ns[k]
      decreases todo
    {
      var attr :| attr in todo;
      if attr[0] != '_' && attr != "func" {
        if attr in globals {
          bugz := bugz[attr := ns[attr]];
        } else {
          cmd := cmd[attr := ns[attr]];
        }
      }
      todo := todo - {attr};
    }
  }

  /** `get_kwds` as the source writes it: the loop over `global_attrs`. */
  method GetKwds(ns: Namespace) returns (bugz: Namespace, cmd: Namespace)
    requires NamesNonEmpty(ns)
    ensures bugz.Keys !! cmd.Keys
    ensures bugz + cmd == Public(ns)
    ensures forall k :: k in bugz <==> k in ns && Routed(k) && k in GlobalAttrs
    ensures Kwds(bugz, cmd) == Partition(ns)
  {
    bugz, cmd := Route(ns, GlobalAttrs);
    SessionSide(ns, bugz);
    CommandSide(ns, cmd);
    assert bugz + cmd == Public(ns);
  }

  /** A map holding exactly the public global attributes of `ns` is the session side of the partition. */
  lemma SessionSide(ns: Namespace, bugz: Namespace)
    requires NamesNonEmpty(ns)
    requires forall k :: k in bugz <==> k in ns && Routed(k) && k in GlobalAttrs
    requires forall k :: k in bugz ==> bugz[k] == ns[k]
    ensures bugz == Partition(ns).session
  {
  }

  /** A map holding exactly the other public attributes of `ns` is the command side. */
  lemma CommandSide(ns: Namespace, cmd: Namespace)
    requires NamesNonEmpty(ns)
    requires forall k :: k in cmd <==> k in ns && Routed(k) && k !in GlobalAttrs
    requires forall k :: k in cmd ==> cmd[k] == ns[k]
    ensures cmd == Partition(ns).command
  {
  }

  /**
   The partition is lossless: putting the two maps back together and adding
   the dropped attributes gives the namespace again.
   */
  lemma PartitionRestores(ns: Namespace)
    requires NamesNonEmpty(ns)
    ensures var r := Partition(ns);
      r.session + r.command + (map k | k in ns && !Routed(k) :: ns[k]) == ns
  {
    var r := Partition(ns);
    var rest := map k | k in ns && !Routed(k) :: ns[k];
    assert (r.session + r.command + rest).Keys == ns.Keys;
  }

  /**
   Adding or changing private attributes or the handler does not change the
   result: `get_kwds` depends only on the public attributes.
   */
  lemma PartitionIgnoresPrivate(ns1: Namespace, ns2: Namespace)
    requires NamesNonEmpty(ns1) && NamesNonEmpty(ns2)
    requires Public(ns1) == Public(ns2)
    ensures Partition(ns1) == Partition(ns2)
  {
    assert Partition(ns1).session == Partition(ns2).session by {
      forall k | k in ns1 && Routed(k) ensures k in Public(ns2) { assert k in Public(ns1); }
    }
    assert Partition(ns1).command == Partition(ns2).command by {
      forall k | k in ns1 && Routed(k) ensures k in Public(ns2) { assert k in Public(ns1); }
    }
  }
}

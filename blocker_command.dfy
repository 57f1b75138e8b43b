/**
 * The `/commandblocker` administration command (`CommandBlockerCommand`): a
 * permission-gated dispatcher over the subcommands add, remove, list, reload and
 * help. Every answer is a message key plus, where the message shows one, the
 * `%command%` value; formatting the key into text belongs to the message manager.
 */
module BlockerCommand {
  import opened Results
  import opened Strings
  import opened Ordering
  import opened Registry
  import opened Permissions

  /** The messages the command sends, each named by its key in the language file. */
  datatype Key =
    | NoPermission
    | UnknownSubcommand
    | AddUsage
    | InvalidFormat
    | AddAlreadyBlocked
    | AddSuccess
    | RemoveUsage
    | RemoveNotFound
    | RemoveSuccess
    | ListHeader
    | ListEmpty
    | ListEntry
    | ListFooter
    | ReloadSuccess
    | HelpHeader
    | HelpAdd
    | HelpRemove
    | HelpList
    | HelpReload
    | HelpHelp
    | HelpFooter

  /** The language-file key of a message. */
  function Path(key: Key): string
  {
    match key
    case NoPermission => "no-permission"
    case UnknownSubcommand => "unknown-subcommand"
    case AddUsage => "add.usage"
    case InvalidFormat => "invalid-format"
    case AddAlreadyBlocked => "add.already-blocked"
    case AddSuccess => "add.success"
    case RemoveUsage => "remove.usage"
    case RemoveNotFound => "remove.not-found"
    case RemoveSuccess => "remove.success"
    case ListHeader => "list.header"
    case ListEmpty => "list.empty"
    case ListEntry => "list.entry"
    case ListFooter => "list.footer"
    case ReloadSuccess => "reload.success"
    case HelpHeader => "help.header"
    case HelpAdd => "help.add"
    case HelpRemove => "help.remove"
    case HelpList => "help.list"
    case HelpReload => "help.reload"
    case HelpHelp => "help.help"
    case HelpFooter => "help.footer"
  }

  /** One message sent to the sender: which one, and the `%command%` value, if any. */
  datatype Reply = Reply(key: Key, command: Option<string>)

  function Say(key: Key): Reply
  {
    Reply(key, None)
  }

  /** `ns` then a colon then `rest`. */
  function Namespaced(ns: string, rest: string): string
  {
    ns + ":" + rest
  }

  /** `isValidCommandFormat`: the first colon is neither the first nor the last
      character. Equivalently, the text splits into a non-empty namespace without
      colons, a colon, and a non-empty remainder, which may hold more colons. */
  function IsValidCommandFormat(command: string): (r: bool)
    ensures r <==> exists ns, rest :: ns != [] && ':' !in ns && rest != [] && command == Namespaced(ns, rest)
  {
    if command == [] then false
    else
      var colonIndex := IndexOf(command, ':');
      if colonIndex > 0 && colonIndex < |command| - 1 then
        assert command == Namespaced(command[..colonIndex], command[colonIndex + 1..]);
        true
      else
        NoNamespacedSplit(command);
        false
  }

  lemma NoNamespacedSplit(command: string)
    requires !(0 < IndexOf(command, ':') < |command| - 1)
    ensures !exists ns, rest :: ns != [] && ':' !in ns && rest != [] && command == Namespaced(ns, rest)
  {
    forall ns, rest | ns != [] && ':' !in ns && rest != []
      ensures command != Namespaced(ns, rest)
    {
      NamespacedColon(ns, rest);
    }
  }

  /** The first colon of `ns:rest` is the one after `ns`. */
  lemma NamespacedColon(ns: string, rest: string)
    requires ':' !in ns
    ensures IndexOf(Namespaced(ns, rest), ':') == |ns|
    ensures |Namespaced(ns, rest)| == |ns| + 1 + |rest|
  {
    var s := Namespaced(ns, rest);
    assert s[..|ns|] == ns;
    IndexOfIs(s, ':', |ns|);
  }

  /** Several colons pass the check, whatever the comment above it says. */
  lemma SeveralColonsAccepted()
    ensures IsValidCommandFormat("a:b:c")
  {
    assert "a:b:c" == Namespaced("a", "b:c");
  }

  /** A bare name, a name behind a leading colon, a name before a trailing colon and
      the empty text are all refused. */
  lemma MalformedRejected(name: string)
    requires ':' !in name
    ensures !IsValidCommandFormat(name)
    ensures !IsValidCommandFormat(":" + name)
    ensures !IsValidCommandFormat(name + ":")
    ensures !IsValidCommandFormat("")
  {
    IndexOfIs(":" + name, ':', 0);
    var trailing := name + ":";
    assert trailing[..|name|] == name && trailing[|name|] == ':';
    IndexOfIs(trailing, ':', |name|);
  }

  /** The check admits an entry that has no second segment: "a::" (any namespace
      followed by two colons) is accepted and then makes the matcher throw on every
      bare name it has to compare with it. */
  lemma AcceptedEntryCanBreakMatcher(ns: string)
    requires ns != [] && ':' !in ns
    ensures IsValidCommandFormat(ns + "::") && Broken({ns + "::"})
  {
    assert ns + "::" == Namespaced(ns, ":") == ns + ":" + ":";
    assert AllSep(":", ':');
    ColonsOnlyEntry(ns, ":", "");
  }

  /** The blocklist after a subcommand, and the messages it sends. */
  datatype Outcome = Outcome(blocked: set<string>, replies: seq<Reply>)

  /** What `handleAdd` does: permission, then an argument, then the format check of
      its lowercase form; only then is the entry added and the answer depends on
      whether it was already there. */
  function AddOutcome(granted: set<Perm>, args: seq<string>, blocked: set<string>): (r: Outcome)
    ensures |r.replies| == 1 && blocked <= r.blocked
    ensures r.blocked != blocked ==>
              && |args| >= 2 && IsValidCommandFormat(Lower(args[1])) && Lower(args[1]) !in blocked
              && r.blocked == blocked + {Lower(args[1])}
              && r.replies == [Reply(AddSuccess, Some(Lower(args[1])))]
  {
    if !HasPermission(granted, AddPerm) then Outcome(blocked, [Say(NoPermission)])
    else if |args| < 2 then Outcome(blocked, [Say(AddUsage)])
    else if !IsValidCommandFormat(Lower(args[1])) then Outcome(blocked, [Say(InvalidFormat)])
    else
      var cmd := Lower(args[1]);
      Outcome(blocked + {cmd}, [Reply(if cmd in blocked then AddAlreadyBlocked else AddSuccess, Some(cmd))])
  }

  /** What `handleRemove` does: the same gates as add, then the entry is removed and
      the answer depends on whether it was there. */
  function RemoveOutcome(granted: set<Perm>, args: seq<string>, blocked: set<string>): (r: Outcome)
    ensures |r.replies| == 1 && r.blocked <= blocked
    ensures r.blocked != blocked ==>
              && |args| >= 2 && IsValidCommandFormat(Lower(args[1])) && Lower(args[1]) in blocked
              && r.blocked == blocked - {Lower(args[1])}
              && r.replies == [Reply(RemoveSuccess, Some(Lower(args[1])))]
  {
    if !HasPermission(granted, RemovePerm) then Outcome(blocked, [Say(NoPermission)])
    else if |args| < 2 then Outcome(blocked, [Say(RemoveUsage)])
    else if !IsValidCommandFormat(Lower(args[1])) then Outcome(blocked, [Say(InvalidFormat)])
    else
      var cmd := Lower(args[1]);
      Outcome(blocked - {cmd}, [Reply(if cmd in blocked then RemoveSuccess else RemoveNotFound, Some(cmd))])
  }

  /** What `handleReload` does to the blocklist: with permission, it becomes the
      lowercase configured list. */
  function ReloadOutcome(granted: set<Perm>, configList: seq<string>, blocked: set<string>): (r: Outcome)
    ensures !HasPermission(granted, ReloadPerm) ==> r == Outcome(blocked, [Say(NoPermission)])
    ensures HasPermission(granted, ReloadPerm) ==>
              && r.replies == [Say(ReloadSuccess)]
              && (forall c :: c in configList ==> Lower(c) in r.blocked)
              && (forall e :: e in r.blocked ==> Lower(e) == e && exists c :: c in configList && Lower(c) == e)
  {
    if !HasPermission(granted, ReloadPerm) then Outcome(blocked, [Say(NoPermission)])
    else
      var reloaded := set c | c in configList :: Lower(c);
      forall e | e in reloaded ensures Lower(e) == e {
        var c :| c in configList && e == Lower(c);
        LowerIdempotent(c);
      }
      Outcome(reloaded, [Say(ReloadSuccess)])
  }

  /** One "list.entry" message per command, in the given order. */
  function EntryReplies(sorted: seq<string>): (r: seq<Reply>)
    ensures |r| == |sorted|
    ensures forall k :: 0 <= k < |sorted| ==> r[k] == Reply(ListEntry, Some(sorted[k]))
  {
    seq(|sorted|, k requires 0 <= k < |sorted| => Reply(ListEntry, Some(sorted[k])))
  }

  /** What `handleList` sends: a header, then "list.empty" or one entry per blocked
      command in ascending order, then a footer. */
  function ListReplies(granted: set<Perm>, blocked: set<string>): (r: seq<Reply>)
    ensures !HasPermission(granted, ListPerm) ==> r == [Say(NoPermission)]
    ensures HasPermission(granted, ListPerm) && blocked == {} ==>
              r == [Say(ListHeader), Say(ListEmpty), Say(ListFooter)]
    ensures HasPermission(granted, ListPerm) && blocked != {} ==>
              && |r| == |blocked| + 2
              && r[0] == Say(ListHeader)
              && r[|r| - 1] == Say(ListFooter)
              && (forall x :: Reply(ListEntry, Some(x)) in r <==> x in blocked)
              && forall k :: 0 <= k < |blocked| ==> r[k + 1] == Reply(ListEntry, Some(SortedElements(blocked)[k]))
  {
    if !HasPermission(granted, ListPerm) then [Say(NoPermission)]
    else if blocked == {} then [Say(ListHeader), Say(ListEmpty), Say(ListFooter)]
    else
      var sorted := SortedElements(blocked);
      FramedEntries(sorted);
      [Say(ListHeader)] + EntryReplies(sorted) + [Say(ListFooter)]
  }

  /** Between a header and a footer, an entry reply names exactly a listed command. */
  lemma FramedEntries(sorted: seq<string>)
    ensures forall x :: Reply(ListEntry, Some(x)) in [Say(ListHeader)] + EntryReplies(sorted) + [Say(ListFooter)]
                        <==> x in sorted
  {
    var r := [Say(ListHeader)] + EntryReplies(sorted) + [Say(ListFooter)];
    forall x ensures Reply(ListEntry, Some(x)) in r <==> x in sorted {
      if x in sorted {
        var k :| 0 <= k < |sorted| && sorted[k] == x;
        assert r[k + 1] == Reply(ListEntry, Some(x));
      }
      if Reply(ListEntry, Some(x)) in r {
        var k :| 0 <= k < |r| && r[k] == Reply(ListEntry, Some(x));
        assert 0 < k < |r| - 1;
        assert sorted[k - 1] == x;
      }
    }
  }

  /** A valid command the registry did not hold, added and then removed by a sender
      holding both permissions, leaves the blocklist as it was, with a success
      message each time. */
  lemma AddThenRemove(granted: set<Perm>, args: seq<string>, blocked: set<string>)
    requires HasPermission(granted, AddPerm) && HasPermission(granted, RemovePerm)
    requires |args| >= 2 && IsValidCommandFormat(Lower(args[1])) && Lower(args[1]) !in blocked
    ensures var added := AddOutcome(granted, args, blocked);
            var removed := RemoveOutcome(granted, args, added.blocked);
            && added.replies == [Reply(AddSuccess, Some(Lower(args[1])))]
            && removed.replies == [Reply(RemoveSuccess, Some(Lower(args[1])))]
            && removed.blocked == blocked
  {
    var cmd := Lower(args[1]);
    assert (blocked + {cmd}) - {cmd} == blocked;
  }

  /** Adding a command twice: the second add changes nothing and reports it as
      already blocked. */
  lemma AddTwice(granted: set<Perm>, args: seq<string>, blocked: set<string>)
    requires HasPermission(granted, AddPerm) && |args| >= 2 && IsValidCommandFormat(Lower(args[1]))
    ensures var once := AddOutcome(granted, args, blocked);
            var twice := AddOutcome(granted, args, once.blocked);
            && twice.blocked == once.blocked
            && twice.replies == [Reply(AddAlreadyBlocked, Some(Lower(args[1])))]
  {
  }

  class BlockerCommand {
    const registry: BlockedCommandManager

    constructor (registry: BlockedCommandManager)
      ensures this.registry == registry
    {
      this.registry := registry;
    }

    /** `onCommand`: without the base permission only "no-permission" is sent; no
        argument shows the help; otherwise the first argument, lowercased, selects a
        subcommand, and anything else is "unknown-subcommand". The command always
        reports success. `configList` is the blocklist the configuration holds when
        a reload reads it. */
    method OnCommand(granted: set<Perm>, args: seq<string>, configList: seq<string>)
      returns (handled: bool, replies: seq<Reply>)
      requires registry.Valid()
      modifies registry
      ensures handled
      ensures registry.Valid()
      ensures !HasBasePermission(granted) ==>
                replies == [Say(NoPermission)] && registry.blocked == old(registry.blocked)
      ensures HasBasePermission(granted) && args == [] ==> replies == HelpReplies(granted)
      ensures && HasBasePermission(granted) && args != []
              && Lower(args[0]) !in {"add", "remove", "list", "reload", "help"} ==>
                replies == [Say(UnknownSubcommand)] && registry.blocked == old(registry.blocked)
      ensures registry.blocked != old(registry.blocked) ==>
                HasBasePermission(granted) && args != [] && Lower(args[0]) in {"add", "remove", "reload"}
      ensures HasBasePermission(granted) && args != [] && Lower(args[0]) == "add" ==>
                Outcome(registry.blocked, replies) == AddOutcome(granted, args, old(registry.blocked))
      ensures HasBasePermission(granted) && args != [] && Lower(args[0]) == "remove" ==>
                Outcome(registry.blocked, replies) == RemoveOutcome(granted, args, old(registry.blocked))
      ensures HasBasePermission(granted) && args != [] && Lower(args[0]) == "list" ==>
                registry.blocked == old(registry.blocked) && replies == ListReplies(granted, registry.blocked)
      ensures HasBasePermission(granted) && args != [] && Lower(args[0]) == "reload" ==>
                Outcome(registry.blocked, replies) == ReloadOutcome(granted, configList, old(registry.blocked))
      ensures HasBasePermission(granted) && args != [] && Lower(args[0]) == "help" ==>
                registry.blocked == old(registry.blocked) && replies == HelpReplies(granted)
      ensures !HasBasePermission(granted) || args == [] || Lower(args[0]) !in {"add", "remove", "reload"} ==>
                registry.refreshes == old(registry.refreshes)
      ensures HasBasePermission(granted) && args != [] && Lower(args[0]) in {"add", "remove"} ==>
                registry.refreshes
                == old(registry.refreshes) + (if registry.blocked != old(registry.blocked) then 1 else 0)
      ensures HasBasePermission(granted) && args != [] && Lower(args[0]) == "reload" ==>
                registry.refreshes
                == old(registry.refreshes) + (if HasPermission(granted, ReloadPerm) then 1 else 0)
    {
      handled := true;
      if !HasBasePermission(granted) {
        replies := [Say(NoPermission)];
        return;
      }
      if |args| == 0 {
        replies := HandleHelp(granted);
        return;
      }
      var sub := Lower(args[0]);
      if sub == "add" {
        replies := HandleAdd(granted, args);
      } else if sub == "remove" {
        replies := HandleRemove(granted, args);
      } else if sub == "list" {
        replies := HandleList(granted);
      } else if sub == "reload" {
        replies := HandleReload(granted, configList);
      } else if sub == "help" {
        replies := HandleHelp(granted);
      } else {
        replies := [Say(UnknownSubcommand)];
      }
    }

    /** `handleAdd`: permission, then an argument, then its lowercase form must pass
        the format check; only then is the registry asked to add it. */
    method HandleAdd(granted: set<Perm>, args: seq<string>) returns (replies: seq<Reply>)
      requires registry.Valid()
      modifies registry
      ensures registry.Valid()
      ensures !HasPermission(granted, AddPerm) ==>
                replies == [Say(NoPermission)] && registry.blocked == old(registry.blocked)
      ensures HasPermission(granted, AddPerm) && |args| < 2 ==>
                replies == [Say(AddUsage)] && registry.blocked == old(registry.blocked)
      ensures HasPermission(granted, AddPerm) && |args| >= 2 && !IsValidCommandFormat(Lower(args[1])) ==>
                replies == [Say(InvalidFormat)] && registry.blocked == old(registry.blocked)
      ensures && HasPermission(granted, AddPerm) && |args| >= 2 && IsValidCommandFormat(Lower(args[1])) ==>
                var cmd := Lower(args[1]);
                && registry.blocked == old(registry.blocked) + {cmd}
                && replies == [Reply(if cmd in old(registry.blocked) then AddAlreadyBlocked else AddSuccess, Some(cmd))]
      ensures registry.blocked != old(registry.blocked) ==>
                |args| >= 2 && IsValidCommandFormat(Lower(args[1]))
      ensures Outcome(registry.blocked, replies) == AddOutcome(granted, args, old(registry.blocked))
      ensures registry.refreshes
              == old(registry.refreshes) + (if registry.blocked != old(registry.blocked) then 1 else 0)
    {
      if !HasPermission(granted, AddPerm) {
        return [Say(NoPermission)];
      }
      if |args| < 2 {
        return [Say(AddUsage)];
      }
      var cmd := Lower(args[1]);
      if !IsValidCommandFormat(cmd) {
        return [Say(InvalidFormat)];
      }
      LowerIdempotent(args[1]);
      var added := registry.Add(cmd);
      if added {
        replies := [Reply(AddSuccess, Some(cmd))];
      } else {
        replies := [Reply(AddAlreadyBlocked, Some(cmd))];
      }
    }

    /** `handleRemove`: the same gates as add, then the registry is asked to remove
        the lowercase argument. */
    method HandleRemove(granted: set<Perm>, args: seq<string>) returns (replies: seq<Reply>)
      requires registry.Valid()
      modifies registry
      ensures registry.Valid()
      ensures !HasPermission(granted, RemovePerm) ==>
                replies == [Say(NoPermission)] && registry.blocked == old(registry.blocked)
      ensures HasPermission(granted, RemovePerm) && |args| < 2 ==>
                replies == [Say(RemoveUsage)] && registry.blocked == old(registry.blocked)
      ensures HasPermission(granted, RemovePerm) && |args| >= 2 && !IsValidCommandFormat(Lower(args[1])) ==>
                replies == [Say(InvalidFormat)] && registry.blocked == old(registry.blocked)
      ensures && HasPermission(granted, RemovePerm) && |args| >= 2 && IsValidCommandFormat(Lower(args[1])) ==>
                var cmd := Lower(args[1]);
                && registry.blocked == old(registry.blocked) - {cmd}
                && replies == [Reply(if cmd in old(registry.blocked) then RemoveSuccess else RemoveNotFound, Some(cmd))]
      ensures registry.blocked != old(registry.blocked) ==>
                |args| >= 2 && IsValidCommandFormat(Lower(args[1]))
      ensures Outcome(registry.blocked, replies) == RemoveOutcome(granted, args, old(registry.blocked))
      ensures registry.refreshes
              == old(registry.refreshes) + (if registry.blocked != old(registry.blocked) then 1 else 0)
    {
      if !HasPermission(granted, RemovePerm) {
        return [Say(NoPermission)];
      }
      if |args| < 2 {
        return [Say(RemoveUsage)];
      }
      var cmd := Lower(args[1]);
      if !IsValidCommandFormat(cmd) {
        return [Say(InvalidFormat)];
      }
      LowerIdempotent(args[1]);
      var removed := registry.Remove(cmd);
      if removed {
        replies := [Reply(RemoveSuccess, Some(cmd))];
      } else {
        replies := [Reply(RemoveNotFound, Some(cmd))];
      }
    }

    /** `handleList`: a header, then "list.empty" or one entry per blocked command
        in ascending order, then a footer. */
    method HandleList(granted: set<Perm>) returns (replies: seq<Reply>)
      ensures !HasPermission(granted, ListPerm) ==> replies == [Say(NoPermission)]
      ensures HasPermission(granted, ListPerm) && registry.blocked == {} ==>
                replies == [Say(ListHeader), Say(ListEmpty), Say(ListFooter)]
      ensures HasPermission(granted, ListPerm) && registry.blocked != {} ==>
                && |replies| == |registry.blocked| + 2
                && replies[0] == Say(ListHeader)
                && replies[|replies| - 1] == Say(ListFooter)
                && forall k :: 0 <= k < |registry.blocked| ==>
                     replies[k + 1] == Reply(ListEntry, Some(SortedElements(registry.blocked)[k]))
      ensures replies == ListReplies(granted, registry.blocked)
    {
      if !HasPermission(granted, ListPerm) {
        return [Say(NoPermission)];
      }
      var empty := registry.IsEmpty();
      if empty {
        return [Say(ListHeader), Say(ListEmpty), Say(ListFooter)];
      }
      var all := registry.GetBlockedCommands();
      var entries := ListEntries(SortedElements(all));
      assert entries == EntryReplies(SortedElements(all));
      replies := [Say(ListHeader)] + entries + [Say(ListFooter)];
      assert replies == ListReplies(granted, all);
    }

    /** `handleReload`: the plugin reload reads the blocklist again from `configList`
        and then refreshes every player's command list. Reloading the message files
        is not part of this model. */
    method HandleReload(granted: set<Perm>, configList: seq<string>) returns (replies: seq<Reply>)
      requires registry.Valid()
      modifies registry
      ensures registry.Valid()
      ensures !HasPermission(granted, ReloadPerm) ==>
                && replies == [Say(NoPermission)] && registry.blocked == old(registry.blocked)
                && registry.refreshes == old(registry.refreshes)
      ensures HasPermission(granted, ReloadPerm) ==>
                && replies == [Say(ReloadSuccess)] && registry.blocked == (set c | c in configList :: Lower(c))
                && registry.refreshes == old(registry.refreshes) + 1
      ensures Outcome(registry.blocked, replies) == ReloadOutcome(granted, configList, old(registry.blocked))
    {
      if !HasPermission(granted, ReloadPerm) {
        return [Say(NoPermission)];
      }
      registry.Reload(configList);
      registry.refreshes := registry.refreshes + 1;
      replies := [Say(ReloadSuccess)];
    }

    /** `handleHelp`: header, one line per subcommand the sender may use, then the
        always-present help line and the footer. */
    method HandleHelp(granted: set<Perm>) returns (replies: seq<Reply>)
      ensures replies == HelpReplies(granted)
    {
      replies := [Say(HelpHeader)];
      if HasPermission(granted, AddPerm) {
        replies := replies + [Say(HelpAdd)];
      }
      assert replies == [Say(HelpHeader)] + Gated(granted, AddPerm, HelpAdd);
      ghost var before := replies;
      if HasPermission(granted, RemovePerm) {
        replies := replies + [Say(HelpRemove)];
      }
      assert replies == before + Gated(granted, RemovePerm, HelpRemove);
      before := replies;
      if HasPermission(granted, ListPerm) {
        replies := replies + [Say(HelpList)];
      }
      assert replies == before + Gated(granted, ListPerm, HelpList);
      before := replies;
      if HasPermission(granted, ReloadPerm) {
        replies := replies + [Say(HelpReload)];
      }
      assert replies == before + Gated(granted, ReloadPerm, HelpReload);
      replies := replies + [Say(HelpHelp), Say(HelpFooter)];
    }
  }

  /** One "list.entry" message per command, in the given order. */
  method ListEntries(sorted: seq<string>) returns (entries: seq<Reply>)
    ensures |entries| == |sorted|
    ensures forall k :: 0 <= k < |sorted| ==> entries[k] == Reply(ListEntry, Some(sorted[k]))
  {
    entries := [];
    for i := 0 to |sorted|
      invariant |entries| == i
      invariant forall k :: 0 <= k < i ==> entries[k] == Reply(ListEntry, Some(sorted[k]))
    {
      entries := entries + [Reply(ListEntry, Some(sorted[i]))];
    }
  }

  /** The help line for `p`, when the sender holds it. */
  function Gated(granted: set<Perm>, p: Perm, line: Key): (r: seq<Reply>)
    ensures Say(line) in r <==> HasPermission(granted, p)
    ensures forall x :: x in r ==> x == Say(line)
    ensures |r| <= 1
  {
    if HasPermission(granted, p) then [Say(line)] else []
  }

  /** The help lines `handleHelp` sends for the given permissions. */
  function HelpReplies(granted: set<Perm>): (r: seq<Reply>)
    ensures 3 <= |r| <= 7
    ensures r[0] == Say(HelpHeader) && r[|r| - 2] == Say(HelpHelp) && r[|r| - 1] == Say(HelpFooter)
    ensures Say(HelpAdd) in r <==> HasPermission(granted, AddPerm)
    ensures Say(HelpRemove) in r <==> HasPermission(granted, RemovePerm)
    ensures Say(HelpList) in r <==> HasPermission(granted, ListPerm)
    ensures Say(HelpReload) in r <==> HasPermission(granted, ReloadPerm)
  {
    var r := [Say(HelpHeader)] + Gated(granted, AddPerm, HelpAdd) + Gated(granted, RemovePerm, HelpRemove)
             + Gated(granted, ListPerm, HelpList) + Gated(granted, ReloadPerm, HelpReload)
             + [Say(HelpHelp), Say(HelpFooter)];
    r
  }
}

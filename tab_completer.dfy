/**
 * Tab completion for the older `/commandblock` command
 * (`CommandBlockTabCompleter`). The first argument completes to the subcommands
 * the sender may use; the second argument of `add` completes to known server
 * commands that are not blocked, in their namespaced form, and the second
 * argument of `remove` to the blocked commands. Every list is narrowed to the
 * entries that start with what was typed, ignoring case, and sorted.
 */
module TabCompleter {
  import opened Results
  import opened Strings
  import opened Ordering
  import opened Permissions

  /** An entry of the server's command map: its key, and the name of the plugin
      that owns it when it is a plugin command. */
  datatype KnownCommand = KnownCommand(name: string, plugin: Option<string>)

  /** Position of a subcommand in the order add, remove, list, reload, help. */
  function Rank(sub: string): nat
  {
    if sub == "add" then 0
    else if sub == "remove" then 1
    else if sub == "list" then 2
    else if sub == "reload" then 3
    else 4
  }

  /** `[name]` when the sender holds `p`, otherwise nothing. */
  function Offer(granted: set<Perm>, p: Perm, name: string): (r: seq<string>)
    ensures name in r <==> HasPermission(granted, p)
    ensures forall x :: x in r ==> x == name
    ensures |r| <= 1
  {
    if HasPermission(granted, p) then [name] else []
  }

  /** What `getAvailableSubcommands` returns for the given permissions. */
  function SubcommandsFor(granted: set<Perm>): seq<string>
  {
    Offer(granted, AddPerm, "add") + Offer(granted, RemovePerm, "remove") + Offer(granted, ListPerm, "list")
    + Offer(granted, ReloadPerm, "reload") + ["help"]
  }

  /** `getAvailableSubcommands`: each gated subcommand the sender may use, then help. */
  method AvailableSubcommands(granted: set<Perm>) returns (subs: seq<string>)
    ensures subs == SubcommandsFor(granted)
  {
    subs := [];
    if HasPermission(granted, AddPerm) {
      subs := subs + ["add"];
    }
    assert subs == Offer(granted, AddPerm, "add");
    ghost var before := subs;
    if HasPermission(granted, RemovePerm) {
      subs := subs + ["remove"];
    }
    assert subs == before + Offer(granted, RemovePerm, "remove");
    before := subs;
    if HasPermission(granted, ListPerm) {
      subs := subs + ["list"];
    }
    assert subs == before + Offer(granted, ListPerm, "list");
    before := subs;
    if HasPermission(granted, ReloadPerm) {
      subs := subs + ["reload"];
    }
    assert subs == before + Offer(granted, ReloadPerm, "reload");
    subs := subs + ["help"];
  }

  /** The sender is offered exactly the subcommands it may use, in the order add,
      remove, list, reload, with help always last. */
  lemma SubcommandsForShape(granted: set<Perm>)
    ensures |SubcommandsFor(granted)| >= 1
    ensures SubcommandsFor(granted)[|SubcommandsFor(granted)| - 1] == "help"
    ensures forall s :: s in SubcommandsFor(granted) ==> s in {"add", "remove", "list", "reload", "help"}
    ensures "add" in SubcommandsFor(granted) <==> HasPermission(granted, AddPerm)
    ensures "remove" in SubcommandsFor(granted) <==> HasPermission(granted, RemovePerm)
    ensures "list" in SubcommandsFor(granted) <==> HasPermission(granted, ListPerm)
    ensures "reload" in SubcommandsFor(granted) <==> HasPermission(granted, ReloadPerm)
    ensures InRankOrder(SubcommandsFor(granted))
  {
    forall x {
      InSubcommands(granted, x);
    }
    SubcommandsInRankOrder(granted);
  }

  /** What may be offered: each gated subcommand exactly when it is permitted, and help. */
  lemma InSubcommands(granted: set<Perm>, x: string)
    ensures x in SubcommandsFor(granted)
            <==> || (x == "add" && HasPermission(granted, AddPerm))
                 || (x == "remove" && HasPermission(granted, RemovePerm))
                 || (x == "list" && HasPermission(granted, ListPerm))
                 || (x == "reload" && HasPermission(granted, ReloadPerm))
                 || x == "help"
  {
    var a := Offer(granted, AddPerm, "add");
    var b := Offer(granted, RemovePerm, "remove");
    var c := Offer(granted, ListPerm, "list");
    var d := Offer(granted, ReloadPerm, "reload");
    assert SubcommandsFor(granted) == a + b + c + d + ["help"];
    assert x in a + b + c + d + ["help"] <==> x in a || x in b || x in c || x in d || x == "help";
  }

  lemma SubcommandsInRankOrder(granted: set<Perm>)
    ensures InRankOrder(SubcommandsFor(granted))
  {
    var a := Offer(granted, AddPerm, "add");
    var b := Offer(granted, RemovePerm, "remove");
    var c := Offer(granted, ListPerm, "list");
    var d := Offer(granted, ReloadPerm, "reload");
    RankedConcat(a, 0, b, 1);
    RankedConcat(a + b, 1, c, 2);
    RankedConcat(a + b + c, 2, d, 3);
    RankedConcat(a + b + c + d, 3, ["help"], 4);
  }

  /** Every element of `xs` ranks at most `m`, every element of `ys` exactly `n`. */
  lemma RankedConcat(xs: seq<string>, m: nat, ys: seq<string>, n: nat)
    requires InRankOrder(xs) && forall x :: x in xs ==> Rank(x) <= m
    requires m < n && |ys| <= 1 && forall y :: y in ys ==> Rank(y) == n
    ensures InRankOrder(xs + ys) && forall x :: x in xs + ys ==> Rank(x) <= n
  {
    var r := xs + ys;
    forall i, j | 0 <= i < j < |r| ensures Rank(r[i]) < Rank(r[j]) {
      if j < |xs| {
        assert r[i] == xs[i] && r[j] == xs[j];
      } else {
        assert r[j] == ys[j - |xs|] && ys[j - |xs|] in ys;
        assert i < |xs| && r[i] == xs[i] && xs[i] in xs;
      }
    }
  }

  /** Subcommands in rank order are all different. */
  lemma RankOrderDistinct(subs: seq<string>)
    requires InRankOrder(subs)
    ensures forall i, j :: 0 <= i < j < |subs| ==> subs[i] != subs[j]
  {
    forall i, j | 0 <= i < j < |subs| ensures subs[i] != subs[j] {
      assert Rank(subs[i]) < Rank(subs[j]);
    }
  }

  /** The subcommands appear in the order add, remove, list, reload, help. */
  predicate InRankOrder(subs: seq<string>)
  {
    forall i, j :: 0 <= i < j < |subs| ==> Rank(subs[i]) < Rank(subs[j])
  }

  /** The namespaced form `getUnblockedCommands` gives a command-map key: a key
      with a colon is kept; otherwise the owning plugin's name, lowercased, or
      "minecraft" for a built-in command, is put in front. */
  function Qualify(k: KnownCommand): (r: string)
    ensures ':' in r
    ensures ':' in k.name ==> r == k.name
    ensures ':' !in k.name ==> |r| > |k.name| && r[|r| - |k.name|..] == k.name && r[|r| - |k.name| - 1] == ':'
  {
    if ':' in k.name then k.name
    else if k.plugin.Some? then Lower(k.plugin.value) + ":" + k.name
    else "minecraft:" + k.name
  }

  /** The qualified form of every command-map entry, in the map's order. */
  function QualifiedAll(known: seq<KnownCommand>): (r: seq<string>)
    ensures |r| == |known|
    ensures forall i :: 0 <= i < |known| ==> r[i] == Qualify(known[i])
  {
    seq(|known|, i requires 0 <= i < |known| => Qualify(known[i]))
  }

  /** The entries whose lowercase form is not itself a blocked entry. */
  function NotBlocked(commands: seq<string>, blocked: set<string>): (r: seq<string>)
    ensures forall c :: c in r <==> c in commands && Lower(c) !in blocked
  {
    if commands == [] then []
    else
      var rest := NotBlocked(commands[1..], blocked);
      if Lower(commands[0]) in blocked then rest else [commands[0]] + rest
  }

  /** `getUnblockedCommands`: qualify, drop the blocked ones, remove duplicates, sort. */
  function UnblockedCommands(known: seq<KnownCommand>, blocked: set<string>): (r: seq<string>)
    ensures StrictlySorted(r)
    ensures forall c :: c in r <==> c in QualifiedAll(known) && Lower(c) !in blocked
  {
    var kept := NotBlocked(QualifiedAll(known), blocked);
    SortDistinctIsSortedElements(kept);
    Sort(Distinct(kept))
  }

  /** The entries whose lowercase form starts with `lowerPrefix`, in their order. */
  function KeepPrefixed(list: seq<string>, lowerPrefix: string): (r: seq<string>)
    ensures forall s :: s in r <==> s in list && StartsWith(Lower(s), lowerPrefix)
    ensures multiset(r) <= multiset(list)
    ensures forall s :: multiset(r)[s] == if StartsWith(Lower(s), lowerPrefix) then multiset(list)[s] else 0
  {
    if list == [] then []
    else
      var rest := KeepPrefixed(list[1..], lowerPrefix);
      assert list == [list[0]] + list[1..];
      assert multiset(list) == multiset{list[0]} + multiset(list[1..]);
      if StartsWith(Lower(list[0]), lowerPrefix) then
        assert multiset([list[0]] + rest) == multiset{list[0]} + multiset(rest);
        [list[0]] + rest
      else rest
  }

  /** `filterStartsWith`: the entries that start with the prefix, ignoring case,
      sorted; every such entry is kept as often as it occurs. */
  function FilterStartsWith(list: seq<string>, prefix: string): (r: seq<string>)
    ensures Sorted(r)
    ensures forall s :: s in r <==> s in list && StartsWith(Lower(s), Lower(prefix))
    ensures multiset(r) <= multiset(list)
    ensures forall s :: multiset(r)[s] == if StartsWith(Lower(s), Lower(prefix)) then multiset(list)[s] else 0
  {
    var kept := KeepPrefixed(list, Lower(prefix));
    var r := Sort(kept);
    PermutationKeepsElements(kept, r);
    r
  }

  /** `onTabComplete`. `blocked` is the blocklist the older package's registry
      holds. */
  method OnTabComplete(granted: set<Perm>, args: seq<string>, known: seq<KnownCommand>, blocked: set<string>)
    returns (r: seq<string>)
    ensures !HasBasePermission(granted) ==> r == []
    ensures HasBasePermission(granted) && |args| == 1 ==>
              && r == FilterStartsWith(SubcommandsFor(granted), args[0])
              && StrictlySorted(r)
              && (forall s :: s in r ==>
                    s in {"add", "remove", "list", "reload", "help"} && StartsWith(Lower(s), Lower(args[0])))
              && ("help" in r <==> StartsWith("help", Lower(args[0])))
              && ("add" in r <==> HasPermission(granted, AddPerm) && StartsWith("add", Lower(args[0])))
              && ("remove" in r <==> HasPermission(granted, RemovePerm) && StartsWith("remove", Lower(args[0])))
              && ("list" in r <==> HasPermission(granted, ListPerm) && StartsWith("list", Lower(args[0])))
              && ("reload" in r <==> HasPermission(granted, ReloadPerm) && StartsWith("reload", Lower(args[0])))
    ensures && HasBasePermission(granted) && |args| == 2
            && Lower(args[0]) == "add" && HasPermission(granted, AddPerm) ==>
              r == FilterStartsWith(UnblockedCommands(known, blocked), args[1])
    ensures && HasBasePermission(granted) && |args| == 2
            && Lower(args[0]) == "remove" && HasPermission(granted, RemovePerm) ==>
              r == FilterStartsWith(SortedElements(blocked), args[1])
    ensures && HasBasePermission(granted) && |args| != 1
            && !(|args| == 2 && Lower(args[0]) == "add" && HasPermission(granted, AddPerm))
            && !(|args| == 2 && Lower(args[0]) == "remove" && HasPermission(granted, RemovePerm)) ==>
              r == []
  {
    if !HasBasePermission(granted) {
      return [];
    }
    if |args| == 1 {
      var subs := AvailableSubcommands(granted);
      SubcommandsForShape(granted);
      LowerOfSubcommands();
      r := FilterStartsWith(subs, args[0]);
      RankOrderDistinct(subs);
      SubMultisetKeepsNoDuplicates(subs, r);
      return;
    }
    if |args| == 2 {
      var subcommand := Lower(args[0]);
      if subcommand == "add" && HasPermission(granted, AddPerm) {
        return FilterStartsWith(UnblockedCommands(known, blocked), args[1]);
      }
      if subcommand == "remove" && HasPermission(granted, RemovePerm) {
        return FilterStartsWith(SortedElements(blocked), args[1]);
      }
    }
    return [];
  }

  /** The subcommand names are already lowercase. */
  lemma LowerOfSubcommands()
    ensures Lower("add") == "add" && Lower("remove") == "remove" && Lower("list") == "list"
    ensures Lower("reload") == "reload" && Lower("help") == "help"
  {
    LowerOfLowercase("add");
    LowerOfLowercase("remove");
    LowerOfLowercase("list");
    LowerOfLowercase("reload");
    LowerOfLowercase("help");
  }

  // ---------------------------------------------------------------------------
  // Properties
  // ---------------------------------------------------------------------------

  /** The unblocked list is the sorted set of qualified, unblocked names: the
      `distinct().sorted()` pipeline agrees with sorting the set of its elements. */
  lemma UnblockedIsSortedSet(known: seq<KnownCommand>, blocked: set<string>)
    ensures UnblockedCommands(known, blocked)
            == SortedElements(set c | c in QualifiedAll(known) && Lower(c) !in blocked)
  {
    var kept := NotBlocked(QualifiedAll(known), blocked);
    SortDistinctIsSortedElements(kept);
    KeptSet(kept, QualifiedAll(known), blocked);
  }

  /** The elements of a list that keeps exactly the unblocked commands. */
  lemma KeptSet(kept: seq<string>, commands: seq<string>, blocked: set<string>)
    requires forall c :: c in kept <==> c in commands && Lower(c) !in blocked
    ensures (set x | x in kept) == (set c | c in commands && Lower(c) !in blocked)
  {
  }

  /** Only plain membership is tested: a bare blocked entry does not hide the
      qualified form of the same command from the `add` completions. */
  lemma BareEntryDoesNotHideQualified(name: string)
    requires ':' !in name
    ensures "minecraft:" + name in UnblockedCommands([KnownCommand(name, None)], {Lower(name)})
  {
    var q := "minecraft:" + name;
    assert QualifiedAll([KnownCommand(name, None)])[0] == q;
    assert |Lower(q)| != |Lower(name)|;
  }
}

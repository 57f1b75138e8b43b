/**
 * The blocklist registry (`BlockedCommandManager`): a mutable set of lowercase
 * command identifiers, and the name matcher `isBlocked` with its asymmetric
 * namespace rules.
 */
module Registry {
  import opened Results
  import opened Strings

  /** The name part the matcher takes from a namespaced entry: element 1 of
      `entry.split(":")`. `None` is the `ArrayIndexOutOfBoundsException` Java raises
      when that element does not exist (an entry such as "a:" or "a::"). */
  function NamePart(entry: string): Option<string>
  {
    var parts := JavaSplit(entry, ':');
    if |parts| >= 2 then Some(parts[1]) else None
  }

  /** The name part of `ns:rest`, for `ns` without colons, is the text of `rest` before
      its first colon; it is missing exactly when `rest` holds nothing but colons. */
  lemma NamePartOf(ns: string, rest: string)
    requires ':' !in ns
    ensures AllSep(rest, ':') ==> NamePart(ns + ":" + rest) == None
    ensures !AllSep(rest, ':') ==> NamePart(ns + ":" + rest) == Some(TakeUntil(rest, ':'))
  {
    SplitSecond(ns, rest, ':');
  }

  /** The matcher's verdict on an already lowercased candidate, as a set property:
      an exact entry, or, for a bare candidate only, a namespaced entry whose name
      part equals it. */
  ghost predicate Matches(blocked: set<string>, candidate: string)
  {
    || candidate in blocked
    || (':' !in candidate &&
        exists entry :: entry in blocked && ':' in entry && NamePart(entry) == Some(candidate))
  }

  /** `isBlocked(command)` as a property of the set: the command is lowercased first. */
  ghost predicate Blocks(blocked: set<string>, command: string)
  {
    Matches(blocked, Lower(command))
  }

  /** The set holds an entry on which `split(":")[1]` throws. */
  ghost predicate Broken(blocked: set<string>)
  {
    exists entry :: entry in blocked && ':' in entry && NamePart(entry).None?
  }

  class BlockedCommandManager {
    var blocked: set<string>
    /** How many times every player's command list was refreshed: once after an add or
        remove that changed (and persisted) the set, and once after a plugin reload,
        which persists nothing. */
    ghost var refreshes: nat

    /** Every entry is stored lowercase. */
    ghost predicate Valid()
      reads this
    {
      forall entry :: entry in blocked ==> Lower(entry) == entry
    }

    /** The registry is built by a first reload from the configured list. */
    constructor (config: seq<string>)
      ensures Valid()
      ensures blocked == set c | c in config :: Lower(c)
      ensures refreshes == 0
    {
      blocked := {};
      refreshes := 0;
      new;
      Reload(config);
    }

    /** Clears the set and adds the lowercase form of every configured entry. */
    method Reload(config: seq<string>)
      modifies this
      ensures Valid()
      ensures blocked == set c | c in config :: Lower(c)
      ensures refreshes == old(refreshes)
    {
      blocked := {};
      var i := 0;
      while i < |config|
        invariant 0 <= i <= |config|
        invariant blocked == set c | c in config[..i] :: Lower(c)
        invariant refreshes == old(refreshes)
      {
        assert config[..i + 1] == config[..i] + [config[i]];
        blocked := blocked + {Lower(config[i])};
        i := i + 1;
      }
      assert config[..i] == config;
      forall entry | entry in blocked ensures Lower(entry) == entry {
        var c :| c in config && entry == Lower(c);
        LowerIdempotent(c);
      }
    }

    /** Inserts the lowercase form; false, and no change, when it is already present. */
    method Add(command: string) returns (added: bool)
      requires Valid()
      modifies this
      ensures Valid()
      ensures added <==> Lower(command) !in old(blocked)
      ensures blocked == old(blocked) + {Lower(command)}
      ensures refreshes == old(refreshes) + (if added then 1 else 0)
    {
      var lowerCommand := Lower(command);
      if lowerCommand in blocked {
        return false;
      }
      LowerIdempotent(command);
      blocked := blocked + {lowerCommand};
      refreshes := refreshes + 1;
      return true;
    }

    /** Deletes the lowercase form; false, and no change, when it is absent. */
    method Remove(command: string) returns (removed: bool)
      requires Valid()
      modifies this
      ensures Valid()
      ensures removed <==> Lower(command) in old(blocked)
      ensures blocked == old(blocked) - {Lower(command)}
      ensures refreshes == old(refreshes) + (if removed then 1 else 0)
    {
      var lowerCommand := Lower(command);
      if lowerCommand !in blocked {
        return false;
      }
      blocked := blocked - {lowerCommand};
      refreshes := refreshes + 1;
      return true;
    }

    /** `isBlocked`: an exact lookup, then a walk over the entries in the set's
        (unspecified) iteration order that returns at the first namespaced entry
        matching the candidate. `None` is the exception `split(":")[1]` throws when
        the walk reaches an entry without a name part before any match. */
    method IsBlocked(command: string) returns (r: Option<bool>)
      ensures Lower(command) in blocked ==> r == Some(true)
      ensures r == Some(true) ==> Blocks(blocked, command)
      ensures r == Some(false) ==> !Blocks(blocked, command) && !Broken(blocked)
      ensures r == None ==> Broken(blocked) && Lower(command) !in blocked
      ensures !Broken(blocked) ==> r == Some(Blocks(blocked, command))
    {
      var lowerCommand := Lower(command);
      if lowerCommand in blocked {
        return Some(true);
      }
      var pending := blocked;
      while pending != {}
        invariant pending <= blocked
        invariant forall entry :: entry in blocked - pending && ':' in entry ==>
                    NamePart(entry).Some? && (':' !in lowerCommand ==> NamePart(entry) != Some(lowerCommand))
        decreases pending
      {
        var entry :| entry in pending;
        pending := pending - {entry};
        if ':' in entry {
          var parts := JavaSplit(entry, ':');
          if |parts| < 2 {
            return None;
          }
          var blockedName := parts[1];
          if ':' in lowerCommand {
            if entry == lowerCommand {
              return Some(true);
            }
          } else if blockedName == lowerCommand {
            return Some(true);
          }
        }
      }
      return Some(false);
    }

    /** A copy of the set. */
    method GetBlockedCommands() returns (copy: set<string>)
      ensures copy == blocked
    {
      copy := blocked;
    }

    method IsEmpty() returns (empty: bool)
      ensures empty <==> blocked == {}
    {
      empty := |blocked| == 0;
    }
  }

  // ---------------------------------------------------------------------------
  // Properties of the matcher
  // ---------------------------------------------------------------------------

  /** With an empty blocklist nothing is blocked. */
  lemma EmptyBlocksNothing(command: string)
    ensures !Blocks({}, command)
  {
  }

  /** Lowercasing first does not change the verdict. */
  lemma BlocksIgnoresCase(blocked: set<string>, command: string)
    ensures Blocks(blocked, Lower(command)) == Blocks(blocked, command)
  {
    LowerIdempotent(command);
  }

  /** A namespaced candidate is blocked only by the identical full entry: neither a
      bare entry nor the same name under another namespace blocks it. */
  lemma NamespacedNeedsExactEntry(blocked: set<string>, command: string)
    requires ':' in command
    ensures Blocks(blocked, command) <==> Lower(command) in blocked
  {
    LowerKeepsSeparator(command, ':');
  }

  /** A bare candidate is blocked by its own entry or by any namespaced entry whose
      name part (second colon-separated segment) it equals. */
  lemma BareMatchesNamePart(blocked: set<string>, command: string)
    requires ':' !in command
    ensures Blocks(blocked, command) <==>
              || Lower(command) in blocked
              || exists entry :: entry in blocked && ':' in entry && NamePart(entry) == Some(Lower(command))
  {
    LowerKeepsSeparator(command, ':');
  }

  /** A namespaced entry "ns:name" has name part "name". */
  lemma NamePartOfNamespaced(ns: string, name: string)
    requires ':' !in ns && ':' !in name && name != ""
    ensures NamePart(ns + ":" + name) == Some(name)
  {
    NamePartOf(ns, name);
    assert name[0] != ':';
  }

  /** For "a:b:c" the compared segment is "b", not "b:c". */
  lemma NamePartIsSecondSegment(a: string, b: string, c: string)
    requires ':' !in a && ':' !in b && b != ""
    ensures NamePart(a + ":" + b + ":" + c) == Some(b)
  {
    var rest := b + ":" + c;
    assert a + ":" + b + ":" + c == a + ":" + rest;
    FirstColon(b, c);
    assert rest[0] == b[0] && b[0] != ':';
    NamePartOf(a, rest);
  }

  /** The first colon of `ns:rest`, for `ns` without colons, is the one after `ns`. */
  lemma FirstColon(ns: string, rest: string)
    requires ':' !in ns
    ensures IndexOf(ns + ":" + rest, ':') == |ns|
    ensures (ns + ":" + rest)[|ns| + 1..] == rest
    ensures TakeUntil(ns + ":" + rest, ':') == ns
  {
    var e := ns + ":" + rest;
    assert e[..|ns|] == ns && e[|ns|] == ':';
    IndexOfIs(e, ':', |ns|);
  }

  /** An entry whose first colon is followed by colons only ("a:", "a::") has no name
      part: the matcher throws when it reaches it. */
  lemma NamePartMissing(ns: string, colons: string)
    requires ':' !in ns && AllSep(colons, ':')
    ensures NamePart(ns + ":" + colons) == None
  {
    NamePartOf(ns, colons);
  }

  /** The namespace asymmetry on the blocklist {"minecraft:kill"}: the bare name is
      blocked through the entry's name part, ... */
  lemma MinecraftKillBlocksBareName()
    ensures Blocks({"minecraft:kill"}, "kill")
  {
    assert "minecraft:kill" == "minecraft" + ":" + "kill";
    LowerOfLowercase("kill");
    NamespacedEntryBlocksBareName({"minecraft:kill"}, "minecraft", "kill");
  }

  /** Any namespaced entry "ns:name" blocks the bare lowercase name. */
  lemma NamespacedEntryBlocksBareName(blocked: set<string>, ns: string, name: string)
    requires ns + ":" + name in blocked
    requires ':' !in ns && ':' !in name && name != "" && Lower(name) == name
    ensures Blocks(blocked, name)
  {
    var entry := ns + ":" + name;
    NamePartOfNamespaced(ns, name);
    assert entry[|ns|] == ':';
  }

  /** ... the full name is blocked by the exact entry, ... */
  lemma MinecraftKillBlocksFullName()
    ensures Blocks({"minecraft:kill"}, "minecraft:kill")
  {
    LowerOfLowercase("minecraft:kill");
  }

  /** ... and the same name under another namespace is not blocked. */
  lemma MinecraftKillSparesOtherNamespace()
    ensures !Blocks({"minecraft:kill"}, "otherplugin:kill")
  {
    var other := "otherplugin:kill";
    assert other[11] == ':';
    NamespacedNeedsExactEntry({"minecraft:kill"}, other);
    LowerOfLowercase(other);
  }

  /** A bare entry never blocks a namespaced candidate. */
  lemma BareEntryExample()
    ensures !Blocks({"kill"}, "minecraft:kill")
  {
    var c := "minecraft:kill";
    assert c[9] == ':';
    NamespacedNeedsExactEntry({"kill"}, c);
    LowerOfLowercase(c);
  }

  /** An entry whose name part is missing ("a:", "a::") blocks only the command
      that equals it, and any set holding it is broken. */
  lemma ColonsOnlyEntry(ns: string, colons: string, command: string)
    requires ':' !in ns && AllSep(colons, ':')
    ensures Broken({ns + ":" + colons})
    ensures Blocks({ns + ":" + colons}, command) <==> Lower(command) == ns + ":" + colons
  {
    var entry := ns + ":" + colons;
    NamePartMissing(ns, colons);
    assert entry[|ns|] == ':';
  }
}

# CommandBlocker in Dafny

This project models the core of a Minecraft server plugin that hides a
configured set of commands from players and makes them unusable. It covers the
`commandblocker` package and the parts of the older `commandblock` package
listed below:

- **Registry** (`registry.dfy`): the blocklist, a set of lowercase command
  identifiers, and its name matcher `isBlocked`. The matcher has a namespace
  asymmetry. A bare name is blocked by its own entry, or by any namespaced
  entry whose second colon-separated segment equals it. A namespaced name is
  blocked only by the identical entry. Adding or removing an entry that changes
  the set persists the list and refreshes every player's command list. A
  plugin reload only reads the configured list again and refreshes the
  command lists; it persists nothing. The ghost counter `refreshes` counts the
  refreshes.
- **Packet filter** (`packet_filter.dfy`): rewrites the outgoing
  DECLARE_COMMANDS packet. A top-level literal node whose name is blocked is
  dropped. The survivors are renumbered by rank, every children list is
  rewritten through that renumbering, and the root index is looked up in it.
  The filter is specified by the ghost function `Filtered`. The method that
  does the work is proved to compute it.
- **Command listener** (`command_listener.dfy`): cancels a typed command whose
  name is blocked and answers with the "command not found" message. It also
  strikes blocked names from the suggestion list sent to the client.
- **Administration command** (`blocker_command.dfy`): `/commandblocker add |
  remove | list | reload | help`. Each subcommand is permission-gated. Each
  answer is modelled as a message key and an optional `%command%` value.
- **Tab completer** of the older `/commandblock` command (`tab_completer.dfy`).
- **Message managers**:
  - `messages.dfy`: the newer manager, which expands `{key}` references with
    recursion protection;
  - `legacy_messages.dfy`: the older manager, with a coloured prefix;
  - `colors.dfy`: the colour-code translation the two managers share.
- **Support modules**: `strings.dfy` (ASCII lowercasing, `indexOf`, `replace`,
  and `String.split` with Java's removal of trailing empty strings),
  `ordering.dfy` (string order, `sorted`, `distinct`), `results.dfy` (`Option`)
  and `permissions.dfy` (the permission nodes).

An exception the Java code can raise is an `Option` result, with `None`
standing for the exception. Three cases are modelled this way:

- `split(":")[1]` on an entry such as `a:` or `a::`;
- `substring(1)` on an empty command line;
- `split(" ")[0]` on a command line of spaces only.

Where a Java handler catches the exception, the model leaves the packet or
event untouched, as the handler does. Iteration over a `HashSet` or `HashMap`
visits the elements in an unspecified order, so it is modelled by a
nondeterministic choice (`:|`). `GetWithPlaceholders` returns the order it used
as a ghost output.

### Behaviour of the code worth knowing

- **Redirects.** `createNodeWithNewChildren` copies a node's redirect index
  unchanged. The filter neither remaps nor clears it
  (`FilteredNodeIsSurvivorCopy`).
- **No pruning.** The filter removes only the blocked top-level literal nodes.
  Nodes reachable only through a removed node stay in the table.
- **Name part.** The matcher compares a bare name with element 1 of
  `split(":")`, the text between the first and the second colon
  (`NamePartIsSecondSegment`), not with everything after the first colon.
- **Entry format.** The comment on `isValidCommandFormat` says "exactly one
  colon". The check itself only asks that the first colon is neither the first
  nor the last character:
  - `a:b:c` is accepted (`SeveralColonsAccepted`);
  - so is `a::`, which then makes the matcher throw
    (`AcceptedEntryCanBreakMatcher`).
- **Not-found message.** `CommandListener.java:48` calls
  `messages.sendRaw(player, "command-not-found")`, but the newer
  `MessageManager` has no `sendRaw`. The listener is modelled as replying with
  the message key `command-not-found`.

## Model

| member | source | states |
|---|---|---|
| Registry.BlockedCommandManager.constructor | src/main/java/dev/nxms/commandblocker/manager/BlockedCommandManager.java:18-22 | The registry starts as the lowercase forms of the configured list, every entry lowercase. |
| Registry.BlockedCommandManager.Reload | src/main/java/dev/nxms/commandblocker/manager/BlockedCommandManager.java:27-35 | After a reload the set is exactly the lowercase forms of the configured entries, and every entry is stored lowercase. |
| Registry.BlockedCommandManager.Add | src/main/java/dev/nxms/commandblocker/manager/BlockedCommandManager.java:49-58 | Returns true exactly when the lowercase command was absent; the set becomes the old set plus it; the list is saved and refreshed only when something was added. |
| Registry.BlockedCommandManager.Remove | src/main/java/dev/nxms/commandblocker/manager/BlockedCommandManager.java:64-73 | Returns true exactly when the lowercase command was present; the set becomes the old set minus it; saved and refreshed only on removal. |
| Registry.BlockedCommandManager.IsBlocked | src/main/java/dev/nxms/commandblocker/manager/BlockedCommandManager.java:79-108 | An exact entry gives true; any true or false answer agrees with the set property `Blocks`; an exception happens only when the set holds an entry without a name part; on a set without such an entry the answer is exactly `Blocks`. |
| Registry.BlockedCommandManager.GetBlockedCommands | src/main/java/dev/nxms/commandblocker/manager/BlockedCommandManager.java:113-115 | Returns a copy equal to the blocklist. |
| Registry.BlockedCommandManager.IsEmpty | src/main/java/dev/nxms/commandblocker/manager/BlockedCommandManager.java:120-122 | True exactly when the blocklist is empty. |
| Registry.NamePartOf | src/main/java/dev/nxms/commandblocker/manager/BlockedCommandManager.java:91 | The name part of `ns:rest`, for a namespace without colons, is the text of `rest` before its first colon, and is missing exactly when `rest` holds only colons. |
| Registry.EmptyBlocksNothing | src/main/java/dev/nxms/commandblocker/manager/BlockedCommandManager.java:79-108 | An empty blocklist blocks no command. |
| Registry.BlocksIgnoresCase | src/main/java/dev/nxms/commandblocker/manager/BlockedCommandManager.java:80 | The verdict is the same for a command and its lowercase form. |
| Registry.NamespacedNeedsExactEntry | src/main/java/dev/nxms/commandblocker/manager/BlockedCommandManager.java:95-99 | A namespaced command is blocked if and only if its lowercase form is itself an entry. |
| Registry.BareMatchesNamePart | src/main/java/dev/nxms/commandblocker/manager/BlockedCommandManager.java:100-103 | A bare command is blocked if and only if it is an entry or equals the name part of some namespaced entry. |
| Registry.NamePartOfNamespaced | src/main/java/dev/nxms/commandblocker/manager/BlockedCommandManager.java:91 | The entry `ns:name` has name part `name`. |
| Registry.NamePartIsSecondSegment | src/main/java/dev/nxms/commandblocker/manager/BlockedCommandManager.java:91 | For `a:b:c` the compared name part is `b`, not `b:c`. |
| Registry.NamePartMissing | src/main/java/dev/nxms/commandblocker/manager/BlockedCommandManager.java:91 | An entry whose first colon is followed by colons only has no name part. |
| Registry.NamespacedEntryBlocksBareName | src/main/java/dev/nxms/commandblocker/manager/BlockedCommandManager.java:88-105 | Any entry `ns:name` blocks the bare lowercase `name`. |
| Registry.MinecraftKillBlocksBareName | src/main/java/dev/nxms/commandblocker/manager/BlockedCommandManager.java:88-105 | The entry `minecraft:kill` blocks `kill`. |
| Registry.MinecraftKillBlocksFullName | src/main/java/dev/nxms/commandblocker/manager/BlockedCommandManager.java:83-85 | The entry `minecraft:kill` blocks `minecraft:kill`. |
| Registry.MinecraftKillSparesOtherNamespace | src/main/java/dev/nxms/commandblocker/manager/BlockedCommandManager.java:95-99 | The entry `minecraft:kill` does not block `otherplugin:kill`. |
| Registry.BareEntryExample | src/main/java/dev/nxms/commandblocker/manager/BlockedCommandManager.java:95-99 | The entry `kill` does not block `minecraft:kill`. |
| Registry.ColonsOnlyEntry | src/main/java/dev/nxms/commandblocker/manager/BlockedCommandManager.java:91 | A set holding an entry such as `a::` is broken, and that entry blocks only the command equal to it. |
| PacketFilter.PacketListener.OnPacketSend | src/main/java/dev/nxms/commandblocker/listener/PacketListener.java:34-64 | Other packets, non-players, bypassing players, an empty table, an invalid root and a caught exception leave the packet alone; any change installs exactly `Filtered`; with a matcher that cannot throw, a filterable packet always receives `Filtered`. |
| PacketFilter.PacketListener.FilterCommands | src/main/java/dev/nxms/commandblocker/listener/PacketListener.java:69-103 | The two passes return exactly `Filtered` of the table, root and blocklist, and they fail only when the matcher can throw. |
| PacketFilter.PacketListener.UpdateChildren | src/main/java/dev/nxms/commandblocker/listener/PacketListener.java:86-95 | The rewritten children list is `RemapChildren` of the old one: known children renumbered, unknown ones dropped, order kept. |
| PacketFilter.PacketListener.ShouldRemoveNode | src/main/java/dev/nxms/commandblocker/listener/PacketListener.java:108-134 | The answer is exactly `Removed`: a named literal among the root's children whose lowercase name is blocked; it fails only when the matcher can throw. |
| PacketFilter.SurvivorsExact | src/main/java/dev/nxms/commandblocker/listener/PacketListener.java:73-82 | The surviving indices are exactly the nodes not removed, in increasing order. |
| PacketFilter.SurvivorsPrefix | src/main/java/dev/nxms/commandblocker/listener/PacketListener.java:73-82 | Survivors among the first j nodes are a prefix of the survivors among the first k ≥ j. |
| PacketFilter.RankOfSurvivor | src/main/java/dev/nxms/commandblocker/listener/PacketListener.java:80-81 | A survivor's new index is its rank among the survivors, and the output holds it at exactly that position. |
| PacketFilter.MappingDomain | src/main/java/dev/nxms/commandblocker/listener/PacketListener.java:73-82 | The index mapping knows exactly the surviving indices and sends them into the output's range. |
| PacketFilter.FilteredLength | src/main/java/dev/nxms/commandblocker/listener/PacketListener.java:69-103 | The output has as many nodes as the input minus the number of removed nodes. |
| PacketFilter.SurvivorCount | src/main/java/dev/nxms/commandblocker/listener/PacketListener.java:73-82 | Among the first k nodes, survivors plus removed nodes number k. |
| PacketFilter.FilteredNodeIsSurvivorCopy | src/main/java/dev/nxms/commandblocker/listener/PacketListener.java:139-149 | Output node t copies the t-th survivor's flags, redirect, name, parser, properties and suggestion type unchanged, with its children rewritten through the mapping. |
| PacketFilter.RemapChildrenAppend | src/main/java/dev/nxms/commandblocker/listener/PacketListener.java:89-94 | Remapping distributes over concatenation of children lists. |
| PacketFilter.RemapChildrenFront | src/main/java/dev/nxms/commandblocker/listener/PacketListener.java:89-94 | Remapping read from the front: the first child, if known, renumbered, then the rest remapped. |
| PacketFilter.RemapChildrenMembers | src/main/java/dev/nxms/commandblocker/listener/PacketListener.java:89-94 | An index is in the new list if and only if it is the new number of some known old child. |
| PacketFilter.ChildrenInRange | src/main/java/dev/nxms/commandblocker/listener/PacketListener.java:84-98 | Every child index in the output refers to a node of the output. |
| PacketFilter.NonLiteralRootSurvives | src/main/java/dev/nxms/commandblocker/listener/PacketListener.java:100 | A non-literal root survives, and the new root index is its rank and points at it. |
| PacketFilter.RemovedRootFallsBackToZero | src/main/java/dev/nxms/commandblocker/listener/PacketListener.java:100 | A root that is itself removed gives the new root index 0. |
| PacketFilter.NoSurvivorRemovedAgain | src/main/java/dev/nxms/commandblocker/listener/PacketListener.java:108-134 | With a non-literal root, no output node qualifies for removal under the same blocklist. |
| PacketFilter.SurvivorsWhenNothingRemoved | src/main/java/dev/nxms/commandblocker/listener/PacketListener.java:73-82 | When nothing is removed every node survives at its own index. |
| PacketFilter.RemapIdentity | src/main/java/dev/nxms/commandblocker/listener/PacketListener.java:89-94 | Remapping through the identity on the valid range leaves a valid children list unchanged. |
| PacketFilter.FilterIdempotent | src/main/java/dev/nxms/commandblocker/listener/PacketListener.java:69-103 | With a non-literal root, filtering the filtered packet again reproduces it exactly. |
| CommandListener.CommandName | src/main/java/dev/nxms/commandblocker/listener/CommandListener.java:42-44 | The name is the lowercased text after the slash up to the first space; it fails exactly for an empty line or a line of spaces only after the first character. |
| CommandListener.Without | src/main/java/dev/nxms/commandblocker/listener/CommandListener.java:72 | `removeAll` keeps exactly the commands not in the removed set. |
| CommandListener.Visible | src/main/java/dev/nxms/commandblocker/listener/CommandListener.java:57-73 | The suggestion list keeps exactly the commands the matcher does not block. |
| CommandListener.CommandListener.OnPlayerCommand | src/main/java/dev/nxms/commandblocker/listener/CommandListener.java:35-50 | Bypass and a failing name leave the event alone; a cancellation or a reply happens only for a blocked name; with a matcher that cannot throw, a blocked name is always cancelled and answered with "command-not-found". |
| CommandListener.CommandListener.OnCommandSend | src/main/java/dev/nxms/commandblocker/listener/CommandListener.java:57-73 | Bypass leaves the list alone; otherwise the list either stays as it was (exception) or becomes `Visible`, and is always `Visible` when the matcher cannot throw. |
| CommandListener.CollectStep | src/main/java/dev/nxms/commandblocker/listener/CommandListener.java:64-72 | The commands collected after one more step are the earlier ones plus the next command when it is blocked. |
| CommandListener.CommandNameOfWord | src/main/java/dev/nxms/commandblocker/listener/CommandListener.java:42-44 | `/word rest` names the lowercase `word`. |
| CommandListener.LeadingSpaceNamesNothing | src/main/java/dev/nxms/commandblocker/listener/CommandListener.java:42-44 | A line starting with a slash and a space names the empty command. |
| CommandListener.SpacesOnlyHasNoName | src/main/java/dev/nxms/commandblocker/listener/CommandListener.java:42-44 | A slash followed by spaces only has no command name: the split is empty and indexing it throws. |
| CommandListener.WithoutIsSubsequence | src/main/java/dev/nxms/commandblocker/listener/CommandListener.java:72 | The commands that remain keep their original relative order. |
| CommandListener.VisibleIdempotent | src/main/java/dev/nxms/commandblocker/listener/CommandListener.java:57-73 | Filtering the suggestion list twice gives the same list as filtering it once. |
| CommandListener.WithoutNothingToDrop | src/main/java/dev/nxms/commandblocker/listener/CommandListener.java:72 | Removing a set that meets none of the commands changes nothing. |
| Permissions.AdminGrantsEverything | src/main/java/dev/nxms/commandblocker/command/CommandBlockerCommand.java:186-195 | The admin node passes every permission check and the base check. |
| BlockerCommand.IsValidCommandFormat | src/main/java/dev/nxms/commandblocker/command/CommandBlockerCommand.java:173-181 | Accepted if and only if the text is a non-empty colon-free namespace, a colon and a non-empty remainder. |
| BlockerCommand.NoNamespacedSplit | src/main/java/dev/nxms/commandblocker/command/CommandBlockerCommand.java:173-181 | Text whose first colon is missing, first or last splits into no namespace and remainder. |
| BlockerCommand.NamespacedColon | src/main/java/dev/nxms/commandblocker/command/CommandBlockerCommand.java:179-180 | The first colon of `ns:rest` is the one after `ns`. |
| BlockerCommand.SeveralColonsAccepted | src/main/java/dev/nxms/commandblocker/command/CommandBlockerCommand.java:173-181 | `a:b:c` passes the check. |
| BlockerCommand.MalformedRejected | src/main/java/dev/nxms/commandblocker/command/CommandBlockerCommand.java:173-181 | A bare name, `:name`, `name:` and the empty text are refused. |
| BlockerCommand.AcceptedEntryCanBreakMatcher | src/main/java/dev/nxms/commandblocker/command/CommandBlockerCommand.java:173-181 | `ns::` passes the check, and a blocklist holding it makes the matcher throw. |
| BlockerCommand.AddOutcome | src/main/java/dev/nxms/commandblocker/command/CommandBlockerCommand.java:56-80 | One reply; the blocklist only grows, and it changes only when a valid lowercase argument was absent, in which case it gains exactly that entry and the reply is add.success. |
| BlockerCommand.RemoveOutcome | src/main/java/dev/nxms/commandblocker/command/CommandBlockerCommand.java:85-109 | One reply; the blocklist only shrinks, and it changes only when a valid lowercase argument was present, in which case it loses exactly that entry and the reply is remove.success. |
| BlockerCommand.ReloadOutcome | src/main/java/dev/nxms/commandblocker/command/CommandBlockerCommand.java:136-144 | Without permission: "no-permission" and the old blocklist. With it: "reload.success", and the blocklist holds the lowercase form of every configured entry and nothing else, all lowercase. |
| BlockerCommand.EntryReplies | src/main/java/dev/nxms/commandblocker/command/CommandBlockerCommand.java:127-129 | One "list.entry" per command, in the given order. |
| BlockerCommand.ListReplies | src/main/java/dev/nxms/commandblocker/command/CommandBlockerCommand.java:114-131 | Without permission only "no-permission". Otherwise a header, then "list.empty" or one entry per blocked command in ascending order, each blocked command listed and nothing else, then a footer. |
| BlockerCommand.AddThenRemove | src/main/java/dev/nxms/commandblocker/command/CommandBlockerCommand.java:56-109 | Adding an absent valid command and then removing it restores the blocklist, with add.success and remove.success. |
| BlockerCommand.AddTwice | src/main/java/dev/nxms/commandblocker/command/CommandBlockerCommand.java:56-80 | A second add of the same command changes nothing and answers add.already-blocked. |
| BlockerCommand.BlockerCommand.OnCommand | src/main/java/dev/nxms/commandblocker/command/CommandBlockerCommand.java:28-51 | No base permission: only "no-permission" and no change. No argument: the help. Otherwise the lowercase first argument routes to its handler: add, remove and reload give exactly `AddOutcome`, `RemoveOutcome` and `ReloadOutcome` of the old blocklist; list gives `ListReplies` and help gives `HelpReplies`, both with no change; anything else gives "unknown-subcommand" and no change. The command always reports success. Command lists are refreshed once after an add or remove that changes the set and once after a permitted reload, and on no other route. |
| BlockerCommand.BlockerCommand.HandleAdd | src/main/java/dev/nxms/commandblocker/command/CommandBlockerCommand.java:56-80 | The new blocklist and the replies are exactly `AddOutcome` of the old blocklist: each failed gate sends its own message and changes nothing, and a valid argument is added in lowercase. Command lists are refreshed exactly once when the set changes, and not otherwise. |
| BlockerCommand.BlockerCommand.HandleRemove | src/main/java/dev/nxms/commandblocker/command/CommandBlockerCommand.java:85-109 | The new blocklist and the replies are exactly `RemoveOutcome` of the old blocklist. Command lists are refreshed exactly once when the set changes, and not otherwise. |
| BlockerCommand.BlockerCommand.HandleList | src/main/java/dev/nxms/commandblocker/command/CommandBlockerCommand.java:114-131 | Sends exactly `ListReplies` for the sender and the blocklist. |
| BlockerCommand.BlockerCommand.HandleReload | src/main/java/dev/nxms/commandblocker/command/CommandBlockerCommand.java:136-144 | Without permission nothing changes. Otherwise the blocklist becomes the lowercase configured list, the command lists of all players are refreshed once, and success is sent: exactly `ReloadOutcome`. |
| BlockerCommand.BlockerCommand.HandleHelp | src/main/java/dev/nxms/commandblocker/command/CommandBlockerCommand.java:149-167 | Sends exactly `HelpReplies` for the sender's permissions. |
| BlockerCommand.HelpReplies | src/main/java/dev/nxms/commandblocker/command/CommandBlockerCommand.java:149-167 | Header first, then help and footer last; each gated help line appears if and only if the sender holds its permission. |
| BlockerCommand.Gated | src/main/java/dev/nxms/commandblocker/command/CommandBlockerCommand.java:152-163 | The line is offered if and only if the permission is held, at most once. |
| BlockerCommand.ListEntries | src/main/java/dev/nxms/commandblocker/command/CommandBlockerCommand.java:125-127 | One "list.entry" per command, in the given order. |
| Ordering.SortedElements | src/main/java/dev/nxms/commandblocker/command/CommandBlockerCommand.java:125-127 | The elements of a set listed in strictly increasing order, each exactly once. |
| Ordering.Sort | src/main/java/dev/nxms/commandblock/command/CommandBlockTabCompleter.java:104 | A sorted permutation of the input. |
| Ordering.Distinct | src/main/java/dev/nxms/commandblock/command/CommandBlockTabCompleter.java:103 | The same elements, without repetitions. |
| Ordering.SortDistinctIsSortedElements | src/main/java/dev/nxms/commandblock/command/CommandBlockTabCompleter.java:101-104 | `distinct().sorted()` equals the sorted listing of the set of input elements. |
| Ordering.SubMultisetKeepsNoDuplicates | src/main/java/dev/nxms/commandblock/command/CommandBlockTabCompleter.java:119-125 | A list holding no element more often than a repetition-free list is itself free of repetitions. |
| TabCompleter.Offer | src/main/java/dev/nxms/commandblock/command/CommandBlockTabCompleter.java:66-77 | A gated subcommand is offered if and only if the permission is held, at most once. |
| TabCompleter.AvailableSubcommands | src/main/java/dev/nxms/commandblock/command/CommandBlockTabCompleter.java:63-81 | Returns exactly `SubcommandsFor` the sender's permissions. |
| TabCompleter.SubcommandsForShape | src/main/java/dev/nxms/commandblock/command/CommandBlockTabCompleter.java:63-81 | Each of add, remove, list, reload is offered if and only if its permission is held, in that order, with help always last. |
| TabCompleter.RankedConcat | src/main/java/dev/nxms/commandblock/command/CommandBlockTabCompleter.java:63-81 | Appending a higher-ranked subcommand keeps the list in subcommand order. |
| TabCompleter.RankOrderDistinct | src/main/java/dev/nxms/commandblock/command/CommandBlockTabCompleter.java:63-81 | Subcommands in rank order are all different. |
| TabCompleter.Qualify | src/main/java/dev/nxms/commandblock/command/CommandBlockTabCompleter.java:90-100 | A name with a colon is kept; otherwise the owning plugin's lowercase name or "minecraft" and a colon are put in front. |
| TabCompleter.QualifiedAll | src/main/java/dev/nxms/commandblock/command/CommandBlockTabCompleter.java:88-100 | Every command-map entry in its qualified form, in map order. |
| TabCompleter.NotBlocked | src/main/java/dev/nxms/commandblock/command/CommandBlockTabCompleter.java:102 | Keeps exactly the names whose lowercase form is not a blocked entry. |
| TabCompleter.UnblockedCommands | src/main/java/dev/nxms/commandblock/command/CommandBlockTabCompleter.java:86-105 | Sorted without repetitions, and holds exactly the qualified names whose lowercase form is not blocked. |
| TabCompleter.KeepPrefixed | src/main/java/dev/nxms/commandblock/command/CommandBlockTabCompleter.java:121-122 | Each entry whose lowercase form starts with the prefix is kept exactly as often as it occurs; every other entry is dropped. |
| TabCompleter.FilterStartsWith | src/main/java/dev/nxms/commandblock/command/CommandBlockTabCompleter.java:119-125 | Sorted; each entry starting with the prefix, ignoring case, is kept exactly as often as it occurs, and no other entry appears. |
| TabCompleter.OnTabComplete | src/main/java/dev/nxms/commandblock/command/CommandBlockTabCompleter.java:32-58 | No base permission: nothing. First argument: exactly the filtered permitted subcommands, strictly sorted, help whenever it matches. `add` or `remove` with permission: the filtered unblocked or blocked commands. Anything else: nothing. |
| TabCompleter.UnblockedIsSortedSet | src/main/java/dev/nxms/commandblock/command/CommandBlockTabCompleter.java:101-104 | The unblocked list is the sorted listing of the set of qualified, unblocked names. |
| TabCompleter.BareEntryDoesNotHideQualified | src/main/java/dev/nxms/commandblock/command/CommandBlockTabCompleter.java:102 | A bare blocked entry does not remove the `minecraft:` form of the same command from the add completions. |
| Colors.Interleave | src/main/java/dev/nxms/commandblocker/manager/MessageManager.java:260-263 | Putting a section sign before each digit doubles the length. |
| Colors.InterleaveAt | src/main/java/dev/nxms/commandblocker/manager/MessageManager.java:260-263 | Position 2k holds a section sign and 2k+1 the k-th digit. |
| Colors.Colorize | src/main/java/dev/nxms/commandblocker/manager/MessageManager.java:250-270 | The matcher loop computes `Colorized`, and its result holds no `&`. |
| Colors.HexReplacement | src/main/java/dev/nxms/commandblocker/manager/MessageManager.java:259-263 | A hex reference becomes `§x` followed by its six digits, each behind a section sign. |
| Colors.NoAmpersandAfterColorize | src/main/java/dev/nxms/commandblocker/manager/MessageManager.java:269 | No `&` survives colouring. |
| Colors.ColorizeWithoutAmpersand | src/main/java/dev/nxms/commandblocker/manager/MessageManager.java:250-270 | Text without `&` comes back unchanged. |
| Colors.ColorizeIdempotent | src/main/java/dev/nxms/commandblocker/manager/MessageManager.java:250-270 | Colouring twice is the same as colouring once. |
| Colors.HexReference | src/main/java/dev/nxms/commandblocker/manager/MessageManager.java:256-266 | `&#RRGGBB` followed by plain text becomes `§x§R§R§G§G§B§B` followed by that text. |
| Colors.PlainAmpersands | src/main/java/dev/nxms/commandblocker/manager/MessageManager.java:269 | Text with no hex reference keeps its length, and each `&` in it, and nothing else, becomes `§`. |
| Messages.GetRaw | src/main/java/dev/nxms/commandblocker/manager/MessageManager.java:107-109 | The configured text, or "" for a missing key. |
| Messages.HasKey | src/main/java/dev/nxms/commandblocker/manager/MessageManager.java:114-116 | True if and only if the key is configured with a non-empty text. |
| Messages.PlaceholderKey | src/main/java/dev/nxms/commandblocker/manager/MessageManager.java:131-133 | The matched key is non-empty, holds no closing brace, and the text starts with `{key}`. |
| Messages.MessageManager.ReplaceConfigPlaceholders | src/main/java/dev/nxms/commandblocker/manager/MessageManager.java:123-161 | The matcher loop with its recursion computes exactly `Expand` of the message and the processed keys. |
| Messages.Get | src/main/java/dev/nxms/commandblocker/manager/MessageManager.java:166-178 | Holds no `&`; a missing or empty message is the coloured "Missing message" line; otherwise the message expanded with its own key processed, then coloured. |
| Messages.GetReplacing | src/main/java/dev/nxms/commandblocker/manager/MessageManager.java:183-185 | A placeholder that does not occur, or one replaced by itself, leaves the message unchanged. Otherwise its leftmost occurrence is replaced, the text before it is kept, and the rest is replaced in turn. |
| Messages.ReplaceInOrderAppend | src/main/java/dev/nxms/commandblocker/manager/MessageManager.java:192-194 | Replacing one more placeholder applies one more `replace` to the earlier result. |
| Messages.MessageManager.constructor | src/main/java/dev/nxms/commandblocker/manager/MessageManager.java:36-39 | The manager starts out holding the language configuration loaded at construction. |
| Messages.MessageManager.Reload | src/main/java/dev/nxms/commandblocker/manager/MessageManager.java:100-102 | After a reload the manager holds the freshly loaded configuration and nothing else. |
| Messages.MessageManager.GetWithPlaceholders | src/main/java/dev/nxms/commandblocker/manager/MessageManager.java:190-196 | Each map key is replaced once, in some order that lists every key exactly once; an empty map gives `get(path)`; a one-entry map gives the single-placeholder `get`. |
| Messages.Placeholders | src/main/java/dev/nxms/commandblocker/manager/MessageManager.java:276-282 | The keys are the first elements of the complete pairs, so a trailing odd argument is ignored, and a key's value comes from its last pair. |
| Messages.ExpandWithoutBrace | src/main/java/dev/nxms/commandblocker/manager/MessageManager.java:123-161 | Text without `{` is kept verbatim. |
| Messages.ExpandKeepsText | src/main/java/dev/nxms/commandblocker/manager/MessageManager.java:159 | Text in front of the first `{` is copied verbatim before the expansion of the rest. |
| Messages.ExpandPlaceholder | src/main/java/dev/nxms/commandblocker/manager/MessageManager.java:131-157 | `{key}` becomes the expansion of its message with the key processed, unless the key is already processed or names no non-empty message, when it stays as written. |
| Messages.SelfReferenceStaysLiteral | src/main/java/dev/nxms/commandblocker/manager/MessageManager.java:173-175 | A message that names only itself stays literal. |
| Messages.MutualReferenceStops | src/main/java/dev/nxms/commandblocker/manager/MessageManager.java:136-154 | Two messages naming each other expand once each and then stop. |
| Messages.UnknownPlaceholderKept | src/main/java/dev/nxms/commandblocker/manager/MessageManager.java:142-145 | A placeholder naming an unknown key, such as `{player}`, is kept. |
| LegacyMessages.MessageManager.constructor | src/main/java/dev/nxms/commandblock/manager/MessageManager.java:28-31 | The prefix is the coloured configured or default prefix. |
| LegacyMessages.MessageManager.Reload | src/main/java/dev/nxms/commandblock/manager/MessageManager.java:36-49 | The configuration is replaced and the prefix recomputed from it, defaulting to the built-in prefix, with no `&` left. |
| LegacyMessages.MessageManager.GetRaw | src/main/java/dev/nxms/commandblock/manager/MessageManager.java:54-56 | The configured text, or "&cMissing message: " and the key. |
| LegacyMessages.MessageManager.Get | src/main/java/dev/nxms/commandblock/manager/MessageManager.java:61-63 | Holds no `&`. A configured key gives its text coloured; a missing key gives the coloured "Missing message" line. |
| LegacyMessages.MessageManager.GetReplacing | src/main/java/dev/nxms/commandblock/manager/MessageManager.java:68-70 | A placeholder that does not occur, or one replaced by itself, leaves the message unchanged. Otherwise its leftmost occurrence is replaced, the text before it is kept, and the rest is replaced in turn. |
| LegacyMessages.MessageManager.Send | src/main/java/dev/nxms/commandblock/manager/MessageManager.java:75-77 | Delivers exactly the prefix followed by the message. |
| LegacyMessages.MessageManager.SendReplacing | src/main/java/dev/nxms/commandblock/manager/MessageManager.java:82-84 | Delivers exactly the prefix followed by the replaced message. |
| LegacyMessages.MessageManager.SendRaw | src/main/java/dev/nxms/commandblock/manager/MessageManager.java:89-91 | Delivers exactly the message, without prefix. |
| LegacyMessages.MessageManager.SendRawReplacing | src/main/java/dev/nxms/commandblock/manager/MessageManager.java:96-98 | Delivers exactly the replaced message, without prefix. |
| Strings.SplitFirst | src/main/java/dev/nxms/commandblocker/listener/CommandListener.java:43 | Element 0 of a Java split is the text before the first separator; a string of separators only splits into nothing. |
| Strings.SplitSecond | src/main/java/dev/nxms/commandblocker/manager/BlockedCommandManager.java:91 | Element 1 of the Java split of `first + sep + after`, where `first` holds no separator, exists exactly when `after` holds something other than separators, and is the text of `after` up to its first separator. |
| Strings.ReplaceAtFirst | src/main/java/dev/nxms/commandblocker/manager/MessageManager.java:184 | `String.replace` replaces the leftmost occurrence of a non-empty target, keeps the text before it and continues after it. |
| Strings.ReplaceFirstOccurrence | src/main/java/dev/nxms/commandblock/manager/MessageManager.java:69 | The same fact for every position that is the first occurrence. |
| Strings.OccursAtTail | src/main/java/dev/nxms/commandblocker/manager/MessageManager.java:184 | An occurrence in the tail of a text is an occurrence one place later in the whole text. |

## Left out

- File and YAML I/O are not modelled. This covers the configuration, the
  language files and their bundled defaults, nested YAML sections, the fallback
  to `messages_en.yml` for a missing language file, and logging. Each language
  file is a flat map given as a parameter.
- Persisting the list (`save`) and refreshing every online player's command
  list (`updateCommandsForAllPlayers`) are server calls. They are represented
  only by the ghost counter `refreshes`, which counts the refreshes. An add or
  remove that changes the set both saves and refreshes; a reload only
  refreshes.
- `HandleReload` does not reload the message files, because message
  formatting is outside the command's model.
- Plugin start-up and wiring (`CommandBlocker.java`, `CommandBlock.java`) are
  not part of this model, nor is the packet-logger setting.
- The older package's `CommandBlockCommand.java` is not part of this model.
- The older package's `BlockedCommandManager` is not among the available
  sources. The tab completer therefore takes its blocklist as a parameter.
- Packet decoding and encoding are not modelled. So are the PacketEvents types
  and the server's command map, which is a sequence of names with the owning
  plugin.
- Permissions are a set of permission nodes.
- Event priority and concurrency between server threads are not modelled.
- Java `null` inputs are not modelled. Neither are `getLanguage`, or
  `send(sender, path, map)` and `sendText` of the newer manager. Replies are
  modelled as message keys: `Key`, its `Path`, and `Reply`.
- `Lower` folds ASCII letters only, where Java's `toLowerCase` is
  locale-aware Unicode case mapping.
- String order compares `char` values, which are Unicode scalar values,
  lexicographically. This matches Java's `compareTo` on UTF-16 code units only
  for characters of the Basic Multilingual Plane. A supplementary character
  (U+10000 and above) is one `char` here, sorting above U+E000 to U+FFFF. In
  Java it is two code units, whose high surrogate (U+D800 to U+DBFF) sorts
  below those characters, and it counts as two characters for `substring(1)`
  and `indexOf`.
- LegacyMessages.MessageManager.Reload: states the default prefix only as
  `Colorized` of the built-in text, not as the literal coloured string.
- Registry.BlockedCommandManager.IsBlocked: when the set holds an entry without
  a name part, the result depends on the unspecified iteration order. The
  contract then states only that an exact hit gives true, and that any true or
  false answer agrees with `Blocks`.

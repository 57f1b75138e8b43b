/**
 * The chat-command and suggestion-list listener (`CommandListener`). A typed
 * command whose name is blocked is cancelled and answered with the server's
 * "unknown command" message; blocked names are struck from the list of commands
 * the client is told about. Players with the bypass permission are left alone.
 */
module CommandListener {
  import opened Results
  import opened Strings
  import opened Registry

  /** The message key sent when a typed command is cancelled. */
  const COMMAND_NOT_FOUND := "command-not-found"

  /** The command name `onPlayerCommand` extracts: the line without its first
      character, cut at the first space, lowercased. `None` is an exception:
      `substring(1)` on an empty message, or `split(" ")[0]` on a line of spaces
      only, whose split is empty. */
  function CommandName(message: string): (r: Option<string>)
    ensures r.None? <==> message == [] || (|message| > 1 && AllSep(message[1..], ' '))
    ensures r.Some? ==> ' ' !in r.value
    ensures r.Some? ==> r.value == Lower(TakeUntil(message[1..], ' '))
  {
    if message == [] then None
    else
      SplitFirst(message[1..], ' ');
      var parts := JavaSplit(message[1..], ' ');
      if |parts| == 0 then None
      else
        LowerKeepsSeparator(parts[0], ' ');
        Some(Lower(parts[0]))
  }

  /** The commands of `commands` that are not in `drop`, in their original order
      (`Collection.removeAll`). */
  function Without(commands: seq<string>, drop: set<string>): (r: seq<string>)
    ensures |r| <= |commands|
    ensures forall c :: c in r <==> c in commands && c !in drop
  {
    if commands == [] then []
    else
      var rest := Without(commands[1..], drop);
      if commands[0] in drop then rest else [commands[0]] + rest
  }

  /** The suggestion list a non-bypassing player receives when the matcher does not
      fail: every command the matcher blocks is gone. */
  ghost function Visible(commands: seq<string>, blocked: set<string>): (r: seq<string>)
    ensures forall c :: c in r ==> c in commands && !Blocks(blocked, c)
    ensures forall c :: c in commands && !Blocks(blocked, c) ==> c in r
  {
    Without(commands, set c | c in commands && Blocks(blocked, c))
  }

  /** A typed command: the chat line including its leading slash, and whether a
      handler cancelled it. */
  class PlayerCommandEvent {
    var message: string
    var cancelled: bool

    constructor (message: string)
      ensures this.message == message && !cancelled
    {
      this.message := message;
      cancelled := false;
    }
  }

  /** The list of command names about to be sent to a client. */
  class CommandSendEvent {
    var commands: seq<string>

    constructor (commands: seq<string>)
      ensures this.commands == commands
    {
      this.commands := commands;
    }
  }

  class CommandListener {
    const blockedManager: BlockedCommandManager

    constructor (blockedManager: BlockedCommandManager)
      ensures this.blockedManager == blockedManager
    {
      this.blockedManager := blockedManager;
    }

    /** `onPlayerCommand`: `reply` is the message key sent to the player, if any.
        The event is cancelled exactly when the matcher blocks the command name;
        bypassing players and exceptions leave it as it was. */
    method OnPlayerCommand(event: PlayerCommandEvent, bypass: bool) returns (reply: Option<string>)
      modifies event
      ensures event.message == old(event.message)
      ensures bypass || CommandName(old(event.message)).None? ==>
                event.cancelled == old(event.cancelled) && reply == None
      ensures reply.Some? ==> reply == Some(COMMAND_NOT_FOUND) && event.cancelled
      ensures event.cancelled != old(event.cancelled) || reply.Some? ==>
                !bypass && CommandName(event.message).Some?
                && Blocks(blockedManager.blocked, CommandName(event.message).value)
      ensures && !bypass && CommandName(event.message).Some? && !Broken(blockedManager.blocked)
              && Blocks(blockedManager.blocked, CommandName(event.message).value) ==>
                event.cancelled && reply == Some(COMMAND_NOT_FOUND)
    {
      reply := None;
      if bypass {
        return;
      }
      var name := CommandName(event.message);
      if name.None? {
        return;
      }
      var blocked := blockedManager.IsBlocked(name.value);
      if blocked == Some(true) {
        event.cancelled := true;
        reply := Some(COMMAND_NOT_FOUND);
      }
    }

    /** `onCommandSend`: collects the commands the matcher blocks, then removes them
        all. An exception from the matcher leaves the list as it was. */
    method OnCommandSend(event: CommandSendEvent, bypass: bool)
      modifies event
      ensures bypass ==> event.commands == old(event.commands)
      ensures event.commands == old(event.commands)
              || event.commands == Visible(old(event.commands), blockedManager.blocked)
      ensures !bypass && !Broken(blockedManager.blocked) ==>
                event.commands == Visible(old(event.commands), blockedManager.blocked)
    {
      if bypass {
        return;
      }
      ghost var blocked := blockedManager.blocked;
      var commands := event.commands;
      var toRemove: set<string> := {};
      var i := 0;
      while i < |commands|
        invariant 0 <= i <= |commands|
        invariant toRemove == set c | c in commands[..i] && Blocks(blocked, c)
        invariant event.commands == commands
      {
        var r := blockedManager.IsBlocked(commands[i]);
        if r.None? {
          return;
        }
        CollectStep(commands, i, blocked);
        if r.value {
          toRemove := toRemove + {commands[i]};
        }
        i := i + 1;
      }
      assert commands[..i] == commands;
      event.commands := Without(commands, toRemove);
    }
  }

  /** The blocked commands among the first `i + 1` are those among the first `i`,
      and the next command when it is blocked. */
  lemma CollectStep(commands: seq<string>, i: nat, blocked: set<string>)
    requires i < |commands|
    ensures (set c | c in commands[..i + 1] && Blocks(blocked, c))
            == (set c | c in commands[..i] && Blocks(blocked, c))
               + (if Blocks(blocked, commands[i]) then {commands[i]} else {})
  {
    assert commands[..i + 1] == commands[..i] + [commands[i]];
  }

  // ---------------------------------------------------------------------------
  // Properties
  // ---------------------------------------------------------------------------

  /** A word after the slash, followed by a space and anything at all, is the
      command name, lowercased. */
  lemma CommandNameOfWord(word: string, rest: string)
    requires word != [] && ' ' !in word
    ensures CommandName("/" + word + " " + rest) == Some(Lower(word))
  {
    var message := "/" + word + " " + rest;
    var line := message[1..];
    assert line == word + " " + rest;
    assert line[0] != ' ';
    IndexOfIs(line, ' ', |word|);
    assert TakeUntil(line, ' ') == word;
  }

  /** A line that starts with a space yields the empty command name, which the
      matcher blocks only when "" is itself an entry. */
  lemma LeadingSpaceNamesNothing(rest: string)
    requires !AllSep(rest, ' ')
    ensures CommandName("/ " + rest) == Some("")
  {
    var line := ("/ " + rest)[1..];
    assert line == " " + rest;
    assert !AllSep(line, ' ') by {
      var k :| 0 <= k < |rest| && rest[k] != ' ';
      assert line[k + 1] == rest[k];
    }
    IndexOfIs(line, ' ', 0);
  }

  /** A slash followed by spaces only has no command name: `split` returns an
      empty array and indexing it throws. */
  lemma SpacesOnlyHasNoName(spaces: string)
    requires spaces != [] && AllSep(spaces, ' ')
    ensures CommandName("/" + spaces).None?
  {
    assert ("/" + spaces)[1..] == spaces;
  }

  /** `removeAll` keeps the surviving commands in their original relative order:
      the result is a subsequence of the input. */
  lemma {:induction false} WithoutIsSubsequence(commands: seq<string>, drop: set<string>)
    ensures Subsequence(Without(commands, drop), commands)
  {
    if commands != [] {
      WithoutIsSubsequence(commands[1..], drop);
      assert commands == [commands[0]] + commands[1..];
    }
  }

  /** `xs` can be obtained from `ys` by deleting elements. */
  predicate Subsequence(xs: seq<string>, ys: seq<string>)
  {
    if xs == [] then true
    else if ys == [] then false
    else if xs[0] == ys[0] then Subsequence(xs[1..], ys[1..])
    else Subsequence(xs, ys[1..])
  }

  /** Filtering the suggestions twice is the same as filtering them once. */
  lemma {:induction false} VisibleIdempotent(commands: seq<string>, blocked: set<string>)
    ensures Visible(Visible(commands, blocked), blocked) == Visible(commands, blocked)
  {
    var v := Visible(commands, blocked);
    WithoutNothingToDrop(v, set c | c in v && Blocks(blocked, c));
  }

  lemma {:induction false} WithoutNothingToDrop(commands: seq<string>, drop: set<string>)
    requires forall c :: c in commands ==> c !in drop
    ensures Without(commands, drop) == commands
  {
    if commands != [] {
      assert commands[0] in commands;
      forall c | c in commands[1..] ensures c !in drop {
        assert c in commands;
      }
      WithoutNothingToDrop(commands[1..], drop);
    }
  }
}

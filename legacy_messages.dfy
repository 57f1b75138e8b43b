/**
 * The message manager of the older `commandblock` package (`MessageManager`):
 * a message is the configured text, or a "Missing message" line, coloured; the
 * prefix is coloured once when the messages are loaded and put in front of
 * everything `send` delivers. There is no `{key}` expansion in this version.
 */
module LegacyMessages {
  import opened Strings
  import opened Colors

  /** The prefix used when the language file defines none. */
  const DEFAULT_PREFIX := "&8[&cCommandBlock&8] &7"

  /** Someone messages are delivered to; `received` is what was sent, in order. */
  class Recipient {
    var received: seq<string>

    constructor ()
      ensures received == []
    {
      received := [];
    }
  }

  class MessageManager {
    var config: map<string, string>
    var prefix: string

    /** The prefix is the coloured form of the configured or default prefix. */
    ghost predicate Valid()
      reads this
    {
      prefix == Colorized(if "prefix" in config then config["prefix"] else DEFAULT_PREFIX)
    }

    constructor (config: map<string, string>)
      ensures Valid() && this.config == config
    {
      var raw := if "prefix" in config then config["prefix"] else DEFAULT_PREFIX;
      var coloured := Colorize(raw);
      this.config := config;
      prefix := coloured;
    }

    /** `reload`, given the freshly loaded language file: the prefix is recomputed
        from it. */
    method Reload(config: map<string, string>)
      modifies this
      ensures Valid() && this.config == config
      ensures "prefix" !in config ==> prefix == Colorized(DEFAULT_PREFIX)
      ensures '&' !in prefix
    {
      this.config := config;
      var raw := if "prefix" in config then config["prefix"] else DEFAULT_PREFIX;
      prefix := Colorize(raw);
    }

    /** `getRaw`: the configured text, or "&cMissing message: " and the key. */
    function GetRaw(path: string): (r: string)
      reads this
      ensures path in config ==> r == config[path]
      ensures path !in config ==> r == "&cMissing message: " + path && r != ""
    {
      if path in config then config[path] else "&cMissing message: " + path
    }

    /** `get`: the raw text, coloured. It never holds a `&`, and a key the file
        does not define yields the coloured "Missing message" line. */
    function Get(path: string): (r: string)
      reads this
      ensures '&' !in r
      ensures path in config ==> r == Colorized(config[path])
      ensures path !in config ==> r == Colorized("&cMissing message: " + path)
    {
      NoAmpersandAfterColorize(GetRaw(path));
      Colorized(GetRaw(path))
    }

    /** `get(path, placeholder, value)`: every occurrence of the placeholder in the
        coloured message replaced by the value; a placeholder the message does not
        contain leaves it unchanged; otherwise its leftmost occurrence is replaced,
        the text before it kept, and the replacement goes on after it. */
    function GetReplacing(path: string, placeholder: string, value: string): (r: string)
      reads this
      ensures placeholder != [] && !Occurs(Get(path), placeholder) ==> r == Get(path)
      ensures value == placeholder ==> r == Get(path)
      ensures forall i: nat :: placeholder != [] && OccursAt(Get(path), placeholder, i)
                               && (forall j :: 0 <= j < i ==> !OccursAt(Get(path), placeholder, j)) ==>
                r == Get(path)[..i] + value + Replace(Get(path)[i + |placeholder|..], placeholder, value)
    {
      var message := Get(path);
      ReplaceUnchanged(message, placeholder, value);
      ReplaceFirstOccurrence(message, placeholder, value);
      Replace(message, placeholder, value)
    }

    /** `send`: the prefix followed by the message. */
    method Send(to: Recipient, path: string)
      modifies to
      ensures to.received == old(to.received) + [prefix + Get(path)]
    {
      to.received := to.received + [prefix + Get(path)];
    }

    /** `send` with a placeholder: the prefix followed by the replaced message. */
    method SendReplacing(to: Recipient, path: string, placeholder: string, value: string)
      modifies to
      ensures to.received == old(to.received) + [prefix + GetReplacing(path, placeholder, value)]
    {
      to.received := to.received + [prefix + GetReplacing(path, placeholder, value)];
    }

    /** `sendRaw`: the message without the prefix. */
    method SendRaw(to: Recipient, path: string)
      modifies to
      ensures to.received == old(to.received) + [Get(path)]
    {
      to.received := to.received + [Get(path)];
    }

    /** `sendRaw` with a placeholder. */
    method SendRawReplacing(to: Recipient, path: string, placeholder: string, value: string)
      modifies to
      ensures to.received == old(to.received) + [GetReplacing(path, placeholder, value)]
    {
      to.received := to.received + [GetReplacing(path, placeholder, value)];
    }
  }
}

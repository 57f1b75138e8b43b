/**
 * The message manager of the `commandblocker` package (`MessageManager`). A
 * message is looked up by its key in the language configuration, every `{key}`
 * naming another non-empty message is replaced by that message, expanded in
 * turn, and the result is coloured. A key is never expanded inside its own
 * expansion, which is what makes the expansion terminate.
 *
 * The loaded configuration is a flat map from keys to texts; reading the YAML
 * file, its nested sections and its defaults are not part of this model.
 */
module Messages {
  import opened Strings
  import opened Colors

  type Config = map<string, string>

  /** `getRaw`: the configured text, or "" when the key is absent. */
  function GetRaw(config: Config, path: string): (r: string)
    ensures path in config ==> r == config[path]
    ensures path !in config ==> r == ""
  {
    if path in config then config[path] else ""
  }

  /** `hasKey`: the key is configured, and not as the empty text. */
  predicate HasKey(config: Config, key: string)
    ensures HasKey(config, key) <==> key in config && config[key] != ""
  {
    key in config && GetRaw(config, key) != ""
  }

  /** `s` starts with a match of `\{([^}]+)}`: an opening brace, at least one
      character other than a closing brace, then a closing brace. */
  predicate StartsPlaceholder(s: string)
  {
    |s| >= 3 && s[0] == '{' && s[1] != '}' && '}' in s[1..]
  }

  /** The key inside the placeholder `s` starts with. */
  function PlaceholderKey(s: string): (key: string)
    requires StartsPlaceholder(s)
    ensures key != [] && '}' !in key
    ensures |key| + 2 <= |s| && s[..|key| + 2] == "{" + key + "}"
  {
    var j := IndexOf(s[1..], '}');
    assert s[1..][..j] == s[1..j + 1];
    s[1..j + 1]
  }

  /** One key fewer is left to expand once `key` is marked as processed. */
  lemma FewerKeysLeft(keys: set<string>, done: set<string>, key: string)
    ensures key in keys && key !in done ==> |keys - (done + {key})| < |keys - done|
  {
    if key in keys && key !in done {
      assert keys - done == (keys - (done + {key})) + {key};
    }
  }

  /** What `replaceConfigPlaceholders(s, done)` returns: placeholders are found left
      to right without overlap; one whose key is already processed, or is not a
      non-empty message, is kept as written; any other is replaced by its message
      expanded with the key added to the processed set. All other text is kept. */
  function Expand(config: Config, s: string, done: set<string>): string
    decreases |config.Keys - done|, |s|
  {
    if s == [] then []
    else if StartsPlaceholder(s) then
      var key := PlaceholderKey(s);
      FewerKeysLeft(config.Keys, done, key);
      var replacement :=
        if key in done || !HasKey(config, key) then "{" + key + "}"
        else Expand(config, config[key], done + {key});
      replacement + Expand(config, s[|key| + 2..], done)
    else [s[0]] + Expand(config, s[1..], done)
  }

  /** One step of the scan that meets a placeholder. */
  lemma ExpandPlaceholderStep(config: Config, s: string, done: set<string>, key: string, value: string)
    requires StartsPlaceholder(s) && key == PlaceholderKey(s)
    requires value == if key in done || !HasKey(config, key) then "{" + key + "}"
                      else Expand(config, config[key], done + {key})
    ensures Expand(config, s, done) == value + Expand(config, s[|key| + 2..], done)
  {
  }

  /** One step of the scan that copies a character. */
  lemma ExpandCharacterStep(config: Config, s: string, done: set<string>)
    requires s != [] && !StartsPlaceholder(s)
    ensures Expand(config, s, done) == [s[0]] + Expand(config, s[1..], done)
  {
  }

  /** Moving a piece from the front of what is left to the end of what is done. */
  lemma ShiftPiece(done: string, piece: string, left: string, after: string, whole: string)
    requires done + left == whole && left == piece + after
    ensures (done + piece) + after == whole
  {
    assert (done + piece) + after == done + (piece + after);
  }

  /** The text `get(path)` returns: a message that is missing or empty becomes a
      coloured "Missing message" line; otherwise the message is expanded with its
      own key pre-marked as processed, then coloured. */
  function Get(config: Config, path: string): (r: string)
    ensures '&' !in r
    ensures GetRaw(config, path) == "" ==> r == Colorized("&cMissing message: " + path)
    ensures GetRaw(config, path) != "" ==> r == Colorized(Expand(config, config[path], {path}))
  {
    var message := GetRaw(config, path);
    NoAmpersandAfterColorize("&cMissing message: " + path);
    NoAmpersandAfterColorize(Expand(config, message, {path}));
    if message == [] then Colorized("&cMissing message: " + path)
    else Colorized(Expand(config, message, {path}))
  }

  /** `get(path, placeholder, value)`: every occurrence of `placeholder` in the
      formatted message replaced by `value`. A placeholder the message does not
      contain, or one replaced by itself, leaves the message as it was. Otherwise its
      leftmost occurrence is replaced, the text before it kept, and the replacement
      goes on in the text after it. */
  function GetReplacing(config: Config, path: string, placeholder: string, value: string): (r: string)
    ensures placeholder != [] && !Occurs(Get(config, path), placeholder) ==> r == Get(config, path)
    ensures value == placeholder ==> r == Get(config, path)
    ensures forall i: nat :: placeholder != [] && OccursAt(Get(config, path), placeholder, i)
                             && (forall j :: 0 <= j < i ==> !OccursAt(Get(config, path), placeholder, j)) ==>
              r == Get(config, path)[..i] + value + Replace(Get(config, path)[i + |placeholder|..], placeholder, value)
  {
    var message := Get(config, path);
    ReplaceUnchanged(message, placeholder, value);
    ReplaceFirstOccurrence(message, placeholder, value);
    Replace(message, placeholder, value)
  }

  /** The message after replacing `{k}` by `values[k]` for each `k` of `order`, first
      to last. */
  function ReplaceInOrder(message: string, order: seq<string>, values: map<string, string>): string
    requires forall k :: k in order ==> k in values
  {
    if order == [] then message
    else
      var k := order[|order| - 1];
      Replace(ReplaceInOrder(message, order[..|order| - 1], values), "{" + k + "}", values[k])
  }

  lemma ReplaceInOrderAppend(message: string, order: seq<string>, k: string, values: map<string, string>)
    requires forall x :: x in order ==> x in values
    requires k in values
    ensures ReplaceInOrder(message, order + [k], values)
            == Replace(ReplaceInOrder(message, order, values), "{" + k + "}", values[k])
  {
    assert (order + [k])[..|order|] == order;
  }

  class MessageManager {
    var config: Config

    constructor (config: Config)
      ensures this.config == config
    {
      this.config := config;
    }

    /** `reload`, given the freshly loaded language configuration. */
    method Reload(config: Config)
      modifies this
      ensures this.config == config
    {
      this.config := config;
    }

    /** `replaceConfigPlaceholders`: a loop over the matches of the placeholder
        pattern, appending each piece of text and each replacement, recursing into
        the message a placeholder names. */
    method ReplaceConfigPlaceholders(message: string, processedKeys: set<string>) returns (result: string)
      ensures result == Expand(config, message, processedKeys)
      decreases |config.Keys - processedKeys|
    {
      if |message| == 0 {
        return message;
      }
      result := "";
      var rest := message;
      assert result + Expand(config, rest, processedKeys) == Expand(config, message, processedKeys);
      while rest != []
        invariant result + Expand(config, rest, processedKeys) == Expand(config, message, processedKeys)
        decreases |rest|
      {
        if StartsPlaceholder(rest) {
          var placeholder := PlaceholderKey(rest);
          var value: string;
          if placeholder in processedKeys || !HasKey(config, placeholder) {
            value := "{" + placeholder + "}";
          } else {
            FewerKeysLeft(config.Keys, processedKeys, placeholder);
            value := ReplaceConfigPlaceholders(config[placeholder], processedKeys + {placeholder});
          }
          ExpandPlaceholderStep(config, rest, processedKeys, placeholder, value);
          ShiftPiece(result, value, Expand(config, rest, processedKeys),
                     Expand(config, rest[|placeholder| + 2..], processedKeys), Expand(config, message, processedKeys));
          result := result + value;
          rest := rest[|placeholder| + 2..];
        } else {
          ExpandCharacterStep(config, rest, processedKeys);
          ShiftPiece(result, [rest[0]], Expand(config, rest, processedKeys),
                     Expand(config, rest[1..], processedKeys), Expand(config, message, processedKeys));
          result := result + [rest[0]];
          rest := rest[1..];
        }
      }
    }

    /** `get(path, placeholders)`: the formatted message with `{key}` replaced by its
        value for every entry of the map, in the map's (unspecified) iteration order,
        which `order` records. */
    method GetWithPlaceholders(path: string, placeholders: map<string, string>)
      returns (message: string, ghost order: seq<string>)
      ensures forall k :: k in order <==> k in placeholders
      ensures forall i, j :: 0 <= i < j < |order| ==> order[i] != order[j]
      ensures message == ReplaceInOrder(Get(config, path), order, placeholders)
      ensures placeholders == map[] ==> message == Get(config, path)
      ensures |order| == |placeholders|
      ensures |placeholders| == 1 ==>
                message == GetReplacing(config, path, "{" + order[0] + "}", placeholders[order[0]])
    {
      message := Get(config, path);
      order := [];
      var pending := placeholders.Keys;
      while pending != {}
        invariant pending <= placeholders.Keys
        invariant forall k :: k in order <==> k in placeholders && k !in pending
        invariant forall i, j :: 0 <= i < j < |order| ==> order[i] != order[j]
        invariant |order| == |placeholders.Keys| - |pending|
        invariant message == ReplaceInOrder(Get(config, path), order, placeholders)
        decreases pending
      {
        var key :| key in pending;
        ReplaceInOrderAppend(Get(config, path), order, key, placeholders);
        message := Replace(message, "{" + key + "}", placeholders[key]);
        order := order + [key];
        pending := pending - {key};
      }
      assert |placeholders.Keys| == |placeholders|;
    }
  }

  /** The first of two arguments paired by `placeholders`. */
  function KeyAt(keyValues: seq<string>, p: nat): string
    requires 2 * p + 1 < |keyValues|
  {
    keyValues[2 * p]
  }

  function ValueAt(keyValues: seq<string>, p: nat): string
    requires 2 * p + 1 < |keyValues|
  {
    keyValues[2 * p + 1]
  }

  /** `placeholders`: consecutive arguments paired as key and value. The keys are
      the first elements of the complete pairs, so a trailing odd argument is
      ignored, and a key's value comes from its last pair. */
  method Placeholders(keyValues: seq<string>) returns (m: map<string, string>)
    ensures forall k :: k in m <==> exists p :: 0 <= p < |keyValues| / 2 && KeyAt(keyValues, p) == k
    ensures forall p :: 0 <= p < |keyValues| / 2 ==>
              (forall q :: p < q < |keyValues| / 2 ==> KeyAt(keyValues, q) != KeyAt(keyValues, p)) ==>
              m[KeyAt(keyValues, p)] == ValueAt(keyValues, p)
  {
    m := map[];
    var i := 0;
    while i < |keyValues| - 1
      invariant 0 <= i && i % 2 == 0
      invariant i <= |keyValues| || (|keyValues| == 0 && i == 0)
      invariant forall k :: k in m <==> exists p :: 0 <= p < i / 2 && KeyAt(keyValues, p) == k
      invariant forall p :: 0 <= p < i / 2 ==>
                  (forall q :: p < q < i / 2 ==> KeyAt(keyValues, q) != KeyAt(keyValues, p)) ==>
                  m[KeyAt(keyValues, p)] == ValueAt(keyValues, p)
    {
      assert KeyAt(keyValues, i / 2) == keyValues[i];
      m := m[keyValues[i] := keyValues[i + 1]];
      i := i + 2;
    }
    assert i / 2 == |keyValues| / 2;
  }

  // ---------------------------------------------------------------------------
  // Properties of the expansion
  // ---------------------------------------------------------------------------

  /** Text without an opening brace is kept verbatim. */
  lemma {:induction false} ExpandWithoutBrace(config: Config, s: string, done: set<string>)
    requires '{' !in s
    ensures Expand(config, s, done) == s
    decreases |s|
  {
    if s != [] {
      assert s[0] != '{';
      assert forall c :: c in s[1..] ==> c in s;
      ExpandWithoutBrace(config, s[1..], done);
      assert s == [s[0]] + s[1..];
    }
  }

  /** Text in front of a brace is kept verbatim. */
  lemma {:induction false} ExpandKeepsText(config: Config, text: string, rest: string, done: set<string>)
    requires '{' !in text
    ensures Expand(config, text + rest, done) == text + Expand(config, rest, done)
    decreases |text|
  {
    if text != [] {
      var s := text + rest;
      assert s[0] == text[0] && s[0] != '{';
      assert s[1..] == text[1..] + rest;
      ExpandCharacterStep(config, s, done);
      assert forall c :: c in text[1..] ==> c in text;
      ExpandKeepsText(config, text[1..], rest, done);
      ghost var tail := Expand(config, rest, done);
      calc {
        Expand(config, s, done);
        [s[0]] + Expand(config, s[1..], done);
        [text[0]] + Expand(config, text[1..] + rest, done);
        [text[0]] + (text[1..] + tail);
        { assert text == [text[0]] + text[1..]; }
        text + tail;
      }
    } else {
      assert text + rest == rest;
    }
  }

  /** A placeholder is replaced by the expansion of the message it names, unless
      that key is already processed or names no non-empty message, in which case it
      stays as written. */
  lemma ExpandPlaceholder(config: Config, key: string, rest: string, done: set<string>)
    requires key != [] && '}' !in key
    ensures Expand(config, "{" + key + "}" + rest, done)
            == (if key in done || !HasKey(config, key) then "{" + key + "}"
                else Expand(config, config[key], done + {key}))
               + Expand(config, rest, done)
  {
    var s := "{" + key + "}" + rest;
    assert s[1..] == key + "}" + rest;
    assert s[|key| + 1] == '}';
    assert StartsPlaceholder(s) by {
      assert s[1] == key[0];
      assert s[1..][|key|] == '}';
    }
    assert s[1..][..|key|] == key;
    IndexOfIs(s[1..], '}', |key|);
    assert PlaceholderKey(s) == key;
    assert s[|key| + 2..] == rest;
  }

  /** A message that names only itself stays literal: `get` pre-marks its own key. */
  lemma SelfReferenceStaysLiteral(config: Config, path: string)
    requires path != [] && '}' !in path
    requires path in config && config[path] == "{" + path + "}"
    ensures Expand(config, config[path], {path}) == "{" + path + "}"
  {
    ExpandPlaceholder(config, path, "", {path});
    assert "{" + path + "}" + "" == "{" + path + "}";
  }

  /** Two messages naming each other expand once each and then stop: the inner
      reference to the first key is already processed. */
  lemma MutualReferenceStops(config: Config, a: string, b: string)
    requires a != b && a != [] && b != [] && '}' !in a && '}' !in b
    requires a in config && b in config && config[a] == "{" + b + "}" && config[b] == "{" + a + "}"
    ensures Expand(config, config[a], {a}) == "{" + a + "}"
  {
    ExpandPlaceholder(config, b, "", {a});
    assert "{" + b + "}" + "" == "{" + b + "}";
    ExpandPlaceholder(config, a, "", {a, b});
    assert "{" + a + "}" + "" == "{" + a + "}";
    assert {a} + {b} == {a, b};
  }

  /** A placeholder naming an unknown key is kept, so runtime placeholders such as
      `{player}` survive for later replacement. */
  lemma UnknownPlaceholderKept(config: Config, key: string, done: set<string>)
    requires key != [] && '}' !in key && key !in config
    ensures Expand(config, "{" + key + "}", done) == "{" + key + "}"
  {
    ExpandPlaceholder(config, key, "", done);
    assert "{" + key + "}" + "" == "{" + key + "}";
  }
}

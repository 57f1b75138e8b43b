/**
 * Colour-code translation (`colorize`, identical in both message managers):
 * every `&#RRGGBB` becomes the Bukkit hex form `§x§R§R§G§G§B§B`, then every
 * remaining `&` becomes the section sign `§`.
 */
module Colors {
  import opened Strings

  /** The section sign Minecraft uses to introduce a formatting code. */
  const SECTION: char := '§'

  predicate HexDigit(c: char)
  {
    ('0' <= c <= '9') || ('a' <= c <= 'f') || ('A' <= c <= 'F')
  }

  /** `s` starts with a match of `&#([A-Fa-f0-9]{6})`. */
  predicate StartsHexRef(s: string)
  {
    |s| >= 8 && s[0] == '&' && s[1] == '#' && forall k :: 2 <= k < 8 ==> HexDigit(s[k])
  }

  /** A section sign in front of each character. */
  function Interleave(digits: string): (r: string)
    ensures |r| == 2 * |digits|
  {
    if digits == [] then [] else [SECTION, digits[0]] + Interleave(digits[1..])
  }

  lemma {:induction false} InterleaveAt(digits: string, k: nat)
    requires k < |digits|
    ensures Interleave(digits)[2 * k] == SECTION && Interleave(digits)[2 * k + 1] == digits[k]
  {
    if k > 0 {
      InterleaveAt(digits[1..], k - 1);
      var rest := Interleave(digits[1..]);
      assert Interleave(digits) == [SECTION, digits[0]] + rest;
      assert 2 * k == 2 * (k - 1) + 2;
    }
  }

  /** The first stage: each hex reference, scanning left to right without overlap,
      replaced by `§x` and its six digits each behind a section sign. */
  function HexExpanded(s: string): string
  {
    if s == [] then []
    else if StartsHexRef(s) then [SECTION, 'x'] + Interleave(s[2..8]) + HexExpanded(s[8..])
    else [s[0]] + HexExpanded(s[1..])
  }

  /** What `colorize` returns: "" for the empty text, otherwise the hex stage
      followed by `replace("&", "§")`. */
  function Colorized(text: string): string
  {
    if text == [] then [] else Replace(HexExpanded(text), "&", [SECTION])
  }

  /** `colorize`: walks the matches of the hex pattern, appending the text between
      them and each rewritten match to a buffer, then replaces every `&`. */
  method Colorize(text: string) returns (r: string)
    ensures r == Colorized(text)
    ensures '&' !in r
  {
    if text == [] {
      return "";
    }
    var buffer := "";
    var i := 0;
    while i < |text|
      invariant 0 <= i <= |text|
      invariant buffer + HexExpanded(text[i..]) == HexExpanded(text)
    {
      var rest := text[i..];
      if StartsHexRef(rest) {
        var replacement := HexReplacement(rest);
        HexStep(text, i, buffer, replacement);
        buffer := buffer + replacement;
        i := i + 8;
      } else {
        PlainStep(text, i, buffer);
        buffer := buffer + [text[i]];
        i := i + 1;
      }
    }
    assert text[i..] == [];
    assert buffer == HexExpanded(text);
    r := Replace(buffer, "&", [SECTION]);
    NoAmpersandAfterColorize(text);
  }

  /** The rewritten form of the hex reference at the start of `rest`. */
  method HexReplacement(rest: string) returns (replacement: string)
    requires StartsHexRef(rest)
    ensures replacement == [SECTION, 'x'] + Interleave(rest[2..8])
  {
    replacement := [SECTION, 'x'];
    for k := 2 to 8
      invariant replacement == [SECTION, 'x'] + Interleave(rest[2..k])
    {
      InterleaveAppend(rest[2..k], rest[k]);
      assert rest[2..k + 1] == rest[2..k] + [rest[k]];
      replacement := replacement + [SECTION, rest[k]];
    }
  }

  lemma HexStep(text: string, i: nat, buffer: string, replacement: string)
    requires i < |text| && StartsHexRef(text[i..])
    requires replacement == [SECTION, 'x'] + Interleave(text[i..][2..8])
    requires buffer + HexExpanded(text[i..]) == HexExpanded(text)
    ensures i + 8 <= |text|
    ensures (buffer + replacement) + HexExpanded(text[i + 8..]) == HexExpanded(text)
  {
    var rest := text[i..];
    assert rest[8..] == text[i + 8..];
    assert HexExpanded(rest) == replacement + HexExpanded(rest[8..]);
    assert (buffer + replacement) + HexExpanded(rest[8..]) == buffer + (replacement + HexExpanded(rest[8..]));
  }

  lemma PlainStep(text: string, i: nat, buffer: string)
    requires i < |text| && !StartsHexRef(text[i..])
    requires buffer + HexExpanded(text[i..]) == HexExpanded(text)
    ensures (buffer + [text[i]]) + HexExpanded(text[i + 1..]) == HexExpanded(text)
  {
    var rest := text[i..];
    assert rest[1..] == text[i + 1..];
    assert HexExpanded(rest) == [text[i]] + HexExpanded(rest[1..]);
    assert (buffer + [text[i]]) + HexExpanded(rest[1..]) == buffer + ([text[i]] + HexExpanded(rest[1..]));
  }

  lemma {:induction false} InterleaveAppend(digits: string, c: char)
    ensures Interleave(digits + [c]) == Interleave(digits) + [SECTION, c]
  {
    if digits != [] {
      assert (digits + [c])[1..] == digits[1..] + [c];
      InterleaveAppend(digits[1..], c);
    }
  }

  /** Interleaving adds only section signs. */
  lemma {:induction false} InterleaveNoAmpersand(digits: string)
    requires '&' !in digits
    ensures '&' !in Interleave(digits)
  {
    if digits != [] {
      assert digits[0] != '&';
      assert forall c :: c in digits[1..] ==> c in digits;
      InterleaveNoAmpersand(digits[1..]);
    }
  }

  // ---------------------------------------------------------------------------
  // Properties
  // ---------------------------------------------------------------------------

  /** No `&` survives colouring. */
  lemma NoAmpersandAfterColorize(text: string)
    ensures '&' !in Colorized(text)
  {
    if text != [] {
      var h := HexExpanded(text);
      ReplaceChar(h, '&', SECTION);
      var r := Colorized(text);
      forall j | 0 <= j < |r| ensures r[j] != '&' {
        assert r[j] == if h[j] == '&' then SECTION else h[j];
      }
    }
  }

  /** Text without `&` has no hex reference and nothing to replace. */
  lemma {:induction false} HexExpandedWithoutAmpersand(s: string)
    requires '&' !in s
    ensures HexExpanded(s) == s
  {
    if s != [] {
      assert s[0] != '&';
      assert forall c :: c in s[1..] ==> c in s;
      HexExpandedWithoutAmpersand(s[1..]);
      assert s == [s[0]] + s[1..];
    }
  }

  lemma ReplaceAmpersandAbsent(s: string)
    requires '&' !in s
    ensures Replace(s, "&", [SECTION]) == s
  {
    ReplaceChar(s, '&', SECTION);
    var r := Replace(s, "&", [SECTION]);
    forall j | 0 <= j < |s| ensures r[j] == s[j] {
      assert s[j] in s;
    }
  }

  /** Text without `&` comes back unchanged. */
  lemma ColorizeWithoutAmpersand(text: string)
    requires '&' !in text
    ensures Colorized(text) == text
  {
    if text != [] {
      HexExpandedWithoutAmpersand(text);
      ReplaceAmpersandAbsent(text);
    }
  }

  /** Colouring twice is colouring once. */
  lemma ColorizeIdempotent(text: string)
    ensures Colorized(Colorized(text)) == Colorized(text)
  {
    NoAmpersandAfterColorize(text);
    ColorizeWithoutAmpersand(Colorized(text));
  }

  /** A hex reference becomes `§x` and its six digits, each behind a section sign;
      the text after it is kept when it holds no `&`. */
  lemma HexReference(digits: string, rest: string)
    requires |digits| == 6 && forall k :: 0 <= k < 6 ==> HexDigit(digits[k])
    requires '&' !in rest
    ensures Colorized("&#" + digits + rest) == [SECTION, 'x'] + Interleave(digits) + rest
  {
    var s := "&#" + digits + rest;
    assert s[2..8] == digits && s[8..] == rest;
    assert StartsHexRef(s) by {
      forall k | 2 <= k < 8 ensures HexDigit(s[k]) {
        assert s[k] == digits[k - 2];
      }
    }
    HexExpandedWithoutAmpersand(rest);
    var out := [SECTION, 'x'] + Interleave(digits) + rest;
    assert HexExpanded(s) == out;
    assert '&' !in digits by {
      forall k | 0 <= k < 6 ensures digits[k] != '&' {
        assert HexDigit(digits[k]);
      }
    }
    InterleaveNoAmpersand(digits);
    ReplaceAmpersandAbsent(out);
  }

  /** Text with no hex reference anywhere keeps its length, and each `&` in it, and
      nothing else, becomes a section sign. */
  lemma PlainAmpersands(text: string)
    requires forall i :: 0 <= i < |text| ==> !StartsHexRef(text[i..])
    ensures |Colorized(text)| == |text|
    ensures forall i :: 0 <= i < |text| ==> Colorized(text)[i] == if text[i] == '&' then SECTION else text[i]
  {
    if text != [] {
      HexExpandedNoRef(text);
      ReplaceChar(text, '&', SECTION);
    }
  }

  lemma {:induction false} HexExpandedNoRef(s: string)
    requires forall i :: 0 <= i < |s| ==> !StartsHexRef(s[i..])
    ensures HexExpanded(s) == s
  {
    if s != [] {
      assert !StartsHexRef(s[0..]);
      assert s[0..] == s;
      forall i | 0 <= i < |s[1..]| ensures !StartsHexRef(s[1..][i..]) {
        assert s[1..][i..] == s[i + 1..];
      }
      HexExpandedNoRef(s[1..]);
      assert s == [s[0]] + s[1..];
    }
  }
}

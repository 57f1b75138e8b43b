/**
 * The few `java.lang.String` operations the plugin relies on, with Java's
 * semantics written out: ASCII `toLowerCase`, `indexOf(char)`, `startsWith`,
 * `replace(CharSequence, CharSequence)` and the single-character `split`.
 */
module Strings {

  /** `Character.toLowerCase` on the ASCII letters; every other character is kept. */
  function LowerChar(c: char): char
  {
    if 'A' <= c <= 'Z' then (c as int + 32) as char else c
  }

  /** `String.toLowerCase()`, restricted to ASCII case folding. */
  function Lower(s: string): (r: string)
    ensures |r| == |s|
    ensures forall i :: 0 <= i < |s| ==> r[i] == LowerChar(s[i])
  {
    seq(|s|, i requires 0 <= i < |s| => LowerChar(s[i]))
  }

  lemma LowerIdempotent(s: string)
    ensures Lower(Lower(s)) == Lower(s)
  {
  }

  /** Text without upper-case ASCII letters is already lowercase. */
  lemma LowerOfLowercase(s: string)
    requires forall i :: 0 <= i < |s| ==> !('A' <= s[i] <= 'Z')
    ensures Lower(s) == s
  {
  }

  /** Lowercasing never creates or removes a character that is not an upper-case letter. */
  lemma LowerKeepsSeparator(s: string, sep: char)
    requires !('A' <= sep <= 'Z') && !('a' <= sep <= 'z')
    ensures sep in Lower(s) <==> sep in s
  {
    if sep in s {
      var i :| 0 <= i < |s| && s[i] == sep;
      assert Lower(s)[i] == sep;
    }
    if sep in Lower(s) {
      var i :| 0 <= i < |s| && Lower(s)[i] == sep;
      assert s[i] == sep;
    }
  }

  /** `String.indexOf(char)`: the first index of `c`, or -1. */
  function IndexOf(s: string, c: char): (r: int)
    ensures r == -1 <==> c !in s
    ensures r != -1 ==> 0 <= r < |s| && s[r] == c
    ensures forall j :: 0 <= j < r ==> s[j] != c
  {
    if s == [] then -1
    else if s[0] == c then 0
    else
      var k := IndexOf(s[1..], c);
      if k == -1 then -1 else k + 1
  }

  /** The first occurrence determines `indexOf`. */
  lemma IndexOfIs(s: string, c: char, i: int)
    requires 0 <= i < |s| && s[i] == c && c !in s[..i]
    ensures IndexOf(s, c) == i
  {
    assert s[..i + 1][i] == c;
  }

  /** `String.startsWith(prefix)`. */
  predicate StartsWith(s: string, prefix: string)
  {
    |prefix| <= |s| && s[..|prefix|] == prefix
  }

  /** The text before the first `sep`, or all of `s` when there is none. */
  function TakeUntil(s: string, sep: char): (r: string)
    ensures sep !in r && StartsWith(s, r)
    ensures |r| < |s| ==> s[|r|] == sep
  {
    if sep in s then s[..IndexOf(s, sep)] else s
  }

  /** True when every character of `s` is `sep` (vacuously for the empty string). */
  predicate AllSep(s: string, sep: char)
  {
    forall i :: 0 <= i < |s| ==> s[i] == sep
  }

  // ---------------------------------------------------------------------------
  // String.replace(CharSequence target, CharSequence replacement)
  // ---------------------------------------------------------------------------

  /** `s.replace(target, replacement)`: the leftmost non-overlapping occurrences of
      `target` are replaced from left to right; an empty target inserts the
      replacement before every character and at the end. */
  function Replace(s: string, target: string, replacement: string): string
    decreases |s|
  {
    if target == [] then InsertEverywhere(s, replacement)
    else if |s| < |target| then s
    else if s[..|target|] == target then replacement + Replace(s[|target|..], target, replacement)
    else [s[0]] + Replace(s[1..], target, replacement)
  }

  function InsertEverywhere(s: string, v: string): string
  {
    if s == [] then v else v + [s[0]] + InsertEverywhere(s[1..], v)
  }

  /** `target` occurs somewhere in `s`. */
  ghost predicate Occurs(s: string, target: string)
  {
    exists i :: OccursAt(s, target, i)
  }

  predicate OccursAt(s: string, target: string, i: int)
  {
    0 <= i && i + |target| <= |s| && s[i..i + |target|] == target
  }

  /** Text in which the (non-empty) target does not occur comes back unchanged. */
  lemma {:induction false} ReplaceAbsent(s: string, target: string, replacement: string)
    requires target != [] && !Occurs(s, target)
    ensures Replace(s, target, replacement) == s
  {
    if |s| >= |target| {
      assert !OccursAt(s, target, 0);
      assert s[0..|target|] == s[..|target|];
      forall i ensures !OccursAt(s[1..], target, i) {
        if 0 <= i && i + |target| <= |s| - 1 {
          assert s[1..][i..i + |target|] == s[i + 1..i + 1 + |target|];
          assert !OccursAt(s, target, i + 1);
        }
      }
      ReplaceAbsent(s[1..], target, replacement);
    }
  }

  /** Replacing a target by itself changes nothing. */
  lemma {:induction false} ReplaceSelf(s: string, target: string)
    ensures Replace(s, target, target) == s
  {
    if target == [] {
      InsertNothing(s);
    } else if |s| >= |target| {
      if s[..|target|] == target {
        ReplaceSelf(s[|target|..], target);
        assert s == s[..|target|] + s[|target|..];
      } else {
        ReplaceSelf(s[1..], target);
        assert s == [s[0]] + s[1..];
      }
    }
  }

  /** A replacement that cannot change the text: the target is absent, or is
      replaced by itself. */
  lemma ReplaceUnchanged(s: string, target: string, replacement: string)
    ensures target != [] && !Occurs(s, target) ==> Replace(s, target, replacement) == s
    ensures replacement == target ==> Replace(s, target, replacement) == s
  {
    if target != [] && !Occurs(s, target) {
      ReplaceAbsent(s, target, replacement);
    }
    ReplaceSelf(s, target);
  }

  /** The leftmost occurrence of a non-empty target is replaced, and the scan goes on
      after it: the text before it is kept and the rest is replaced in turn. */
  lemma ReplaceAtFirst(s: string, target: string, replacement: string, i: nat)
    requires target != [] && OccursAt(s, target, i)
    requires forall j :: 0 <= j < i ==> !OccursAt(s, target, j)
    ensures Replace(s, target, replacement)
            == s[..i] + replacement + Replace(s[i + |target|..], target, replacement)
  {
    SplitAround(s, target, i);
    ReplaceAfterClean(s, s[..i], target, s[i + |target|..], replacement);
  }

  /** A text cut around an occurrence of the target. */
  lemma SplitAround(s: string, target: string, i: nat)
    requires OccursAt(s, target, i)
    ensures s == s[..i] + target + s[i + |target|..]
  {
    assert s == s[..i] + s[i..i + |target|] + s[i + |target|..];
  }

  /** `Replace` on `s == p + target + q`, where the target occurs nowhere before
      `|p|`: `p` is kept, the target is replaced and the scan goes on in `q`. */
  lemma {:induction false} ReplaceAfterClean(s: string, p: string, target: string, q: string, replacement: string)
    requires target != [] && s == p + target + q
    requires forall j :: 0 <= j < |p| ==> !OccursAt(s, target, j)
    ensures Replace(s, target, replacement) == p + replacement + Replace(q, target, replacement)
    decreases |p|
  {
    if p == [] {
      assert s[..|target|] == target && s[|target|..] == q;
    } else {
      CleanTail(s, p, target, q);
      ReplaceAfterClean(s[1..], p[1..], target, q, replacement);
      ReplaceKeepsFirst(s, target, replacement);
      ConsPrefix(p, replacement, Replace(q, target, replacement));
    }
  }

  /** Dropping the first character of a clean prefix keeps it clean. */
  lemma CleanTail(s: string, p: string, target: string, q: string)
    requires target != [] && s == p + target + q && p != []
    requires forall j :: 0 <= j < |p| ==> !OccursAt(s, target, j)
    ensures s[1..] == p[1..] + target + q && s[0] == p[0]
    ensures |target| < |s| && !OccursAt(s, target, 0)
    ensures forall j :: 0 <= j < |p| - 1 ==> !OccursAt(s[1..], target, j)
  {
    assert !OccursAt(s, target, 0);
    forall j | 0 <= j < |p| - 1 ensures !OccursAt(s[1..], target, j) {
      OccursAtTail(s, target, j);
    }
  }

  /** Where the target does not start the text, its first character is kept. */
  lemma ReplaceKeepsFirst(s: string, target: string, replacement: string)
    requires target != [] && |target| < |s| && !OccursAt(s, target, 0)
    ensures Replace(s, target, replacement) == [s[0]] + Replace(s[1..], target, replacement)
  {
    assert s[..|target|] == s[0..|target|];
  }

  lemma ConsPrefix(p: string, x: string, y: string)
    requires p != []
    ensures [p[0]] + (p[1..] + x + y) == p + x + y
  {
    assert p == [p[0]] + p[1..];
  }

  /** An occurrence in the tail is an occurrence one place later in the whole. */
  lemma OccursAtTail(s: string, target: string, j: nat)
    requires s != []
    ensures OccursAt(s[1..], target, j) <==> OccursAt(s, target, j + 1)
  {
    if j + 1 + |target| <= |s| {
      assert s[1..][j..j + |target|] == s[j + 1..j + 1 + |target|];
    }
  }

  /** `ReplaceAtFirst` for every position that is the first occurrence. */
  lemma ReplaceFirstOccurrence(s: string, target: string, replacement: string)
    ensures forall i: nat :: target != [] && OccursAt(s, target, i)
                             && (forall j :: 0 <= j < i ==> !OccursAt(s, target, j)) ==>
              Replace(s, target, replacement)
              == s[..i] + replacement + Replace(s[i + |target|..], target, replacement)
  {
    forall i: nat | target != [] && OccursAt(s, target, i) && (forall j :: 0 <= j < i ==> !OccursAt(s, target, j)) {
      ReplaceAtFirst(s, target, replacement, i);
    }
  }

  lemma {:induction false} InsertNothing(s: string)
    ensures InsertEverywhere(s, "") == s
  {
    if s != [] {
      InsertNothing(s[1..]);
      assert s == [s[0]] + s[1..];
    }
  }

  /** A one-character target is replaced character by character: every `a` becomes `b`
      and every other character is kept, so no `a` survives when `a != b`. */
  lemma {:induction false} ReplaceChar(s: string, a: char, b: char)
    ensures |Replace(s, [a], [b])| == |s|
    ensures forall i :: 0 <= i < |s| ==> Replace(s, [a], [b])[i] == if s[i] == a then b else s[i]
  {
    if s != [] {
      ReplaceChar(s[1..], a, b);
      var r := Replace(s, [a], [b]);
      assert s[..1] == [s[0]];
      assert r == (if s[0] == a then [b] else [s[0]]) + Replace(s[1..], [a], [b]);
    }
  }

  /** Replacing one character distributes over concatenation. */
  lemma ReplaceCharConcat(x: string, y: string, a: char, b: char)
    ensures Replace(x + y, [a], [b]) == Replace(x, [a], [b]) + Replace(y, [a], [b])
  {
    ReplaceChar(x + y, a, b);
    ReplaceChar(x, a, b);
    ReplaceChar(y, a, b);
    var l, r := Replace(x + y, [a], [b]), Replace(x, [a], [b]) + Replace(y, [a], [b]);
    assert |l| == |r|;
    forall i | 0 <= i < |l| ensures l[i] == r[i] {
      if i < |x| {
        assert (x + y)[i] == x[i];
      } else {
        assert (x + y)[i] == y[i - |x|];
      }
    }
  }

  // ---------------------------------------------------------------------------
  // String.split(sep) for a one-character separator (limit 0)
  // ---------------------------------------------------------------------------

  /** All the pieces of `s` between occurrences of `sep`, empty ones included. */
  function Segments(s: string, sep: char): (r: seq<string>)
    ensures |r| >= 1
    decreases |s|
  {
    if sep !in s then [s]
    else
      var i := IndexOf(s, sep);
      [s[..i]] + Segments(s[i + 1..], sep)
  }

  /** Java drops the trailing empty strings of a split with limit 0. */
  function DropTrailingEmpty(xs: seq<string>): seq<string>
  {
    if xs == [] then []
    else if xs[|xs| - 1] == "" then DropTrailingEmpty(xs[..|xs| - 1])
    else xs
  }

  /** `s.split(String.valueOf(sep))`: a string without the separator is returned whole
      (even the empty string); otherwise the segments without the trailing empty ones. */
  function JavaSplit(s: string, sep: char): seq<string>
  {
    if sep !in s then [s] else DropTrailingEmpty(Segments(s, sep))
  }

  predicate AllEmpty(xs: seq<string>)
  {
    forall k :: 0 <= k < |xs| ==> xs[k] == ""
  }

  lemma {:induction false} DropTrailingEmptyShape(xs: seq<string>)
    ensures DropTrailingEmpty(xs) == [] <==> AllEmpty(xs)
    ensures |DropTrailingEmpty(xs)| <= |xs| && DropTrailingEmpty(xs) == xs[..|DropTrailingEmpty(xs)|]
  {
    if xs != [] && xs[|xs| - 1] == "" {
      var ys := xs[..|xs| - 1];
      DropTrailingEmptyShape(ys);
      if AllEmpty(ys) {
        assert AllEmpty(xs) by {
          forall k | 0 <= k < |xs| ensures xs[k] == "" {
            if k < |ys| { assert xs[k] == ys[k]; }
          }
        }
      }
      if AllEmpty(xs) {
        assert forall k :: 0 <= k < |ys| ==> ys[k] == xs[k];
      }
    }
  }

  lemma {:induction false} DropTrailingEmptyAppend(xs: seq<string>, ys: seq<string>)
    requires !AllEmpty(ys)
    ensures DropTrailingEmpty(xs + ys) == xs + DropTrailingEmpty(ys)
    decreases |ys|
  {
    var n := |xs + ys|;
    if ys[|ys| - 1] == "" {
      var ys' := ys[..|ys| - 1];
      assert (xs + ys)[..n - 1] == xs + ys';
      assert !AllEmpty(ys') by {
        var k :| 0 <= k < |ys| && ys[k] != "";
        assert k < |ys'| && ys'[k] == ys[k];
      }
      DropTrailingEmptyAppend(xs, ys');
    }
  }

  lemma {:induction false} SegmentsAllEmpty(s: string, sep: char)
    ensures AllEmpty(Segments(s, sep)) <==> AllSep(s, sep)
    decreases |s|
  {
    if sep in s {
      var i := IndexOf(s, sep);
      var rest := s[i + 1..];
      SegmentsAllEmpty(rest, sep);
      var segs := Segments(s, sep);
      assert segs == [s[..i]] + Segments(rest, sep);
      if AllSep(s, sep) {
        assert i == 0;
        assert AllSep(rest, sep);
        forall k | 0 <= k < |segs| ensures segs[k] == "" {
          if k > 0 { assert segs[k] == Segments(rest, sep)[k - 1]; }
        }
      }
      if AllEmpty(segs) {
        assert segs[0] == "";
        assert AllEmpty(Segments(rest, sep)) by {
          forall k | 0 <= k < |Segments(rest, sep)| ensures Segments(rest, sep)[k] == "" {
            assert segs[k + 1] == Segments(rest, sep)[k];
          }
        }
        forall j | 0 <= j < |s| ensures s[j] == sep {
          if j > 0 { assert s[j] == rest[j - 1]; }
        }
      }
    } else if s != [] {
      assert Segments(s, sep) == [s] && s[0] != sep;
      assert Segments(s, sep)[0] != "";
    }
  }

  /** Element 0 of a split is the text before the first separator, unless the string
      is made of separators only, in which case the split is empty. */
  lemma SplitFirst(s: string, sep: char)
    ensures s != [] && AllSep(s, sep) ==> JavaSplit(s, sep) == []
    ensures !(s != [] && AllSep(s, sep)) ==>
              |JavaSplit(s, sep)| >= 1 && JavaSplit(s, sep)[0] == TakeUntil(s, sep)
  {
    if s != [] && AllSep(s, sep) {
      assert s[0] == sep;
    }
    if sep in s {
      var segs := Segments(s, sep);
      SegmentsAllEmpty(s, sep);
      DropTrailingEmptyShape(segs);
      assert segs[0] == TakeUntil(s, sep);
    }
  }

  /** Element 1 of the split of `first + [sep] + after`, where `sep` does not occur in
      `first`, exists exactly when something other than separators is in `after`, and
      it is the text of `after` before its first separator. */
  lemma SplitSecond(first: string, after: string, sep: char)
    requires sep !in first
    ensures |JavaSplit(first + [sep] + after, sep)| >= 2 <==> !AllSep(after, sep)
    ensures !AllSep(after, sep) ==> JavaSplit(first + [sep] + after, sep)[1] == TakeUntil(after, sep)
  {
    SplitJoined(first, after, sep);
    SplitSecondOf(JavaSplit(first + [sep] + after, sep), first, after, sep);
  }

  /** `SplitSecond` once the split is known to start with `first` and go on with the
      segments of `after`. */
  lemma SplitSecondOf(parts: seq<string>, first: string, after: string, sep: char)
    requires parts == DropTrailingEmpty([first] + Segments(after, sep))
    ensures |parts| >= 2 <==> !AllSep(after, sep)
    ensures !AllSep(after, sep) ==> parts[1] == TakeUntil(after, sep)
  {
    var later := Segments(after, sep);
    SegmentsAllEmpty(after, sep);
    if AllSep(after, sep) {
      SplitSecondMissing(first, later);
    } else {
      SplitSecondPresent(first, later);
      SegmentsHead(after, sep);
    }
  }

  /** A split at the first separator: the text before it, then the segments after it. */
  lemma SplitJoined(first: string, after: string, sep: char)
    requires sep !in first
    ensures JavaSplit(first + [sep] + after, sep) == DropTrailingEmpty([first] + Segments(after, sep))
  {
    var s := first + [sep] + after;
    assert s[..|first|] == first && s[|first|] == sep;
    IndexOfIs(s, sep, |first|);
    assert s[|first| + 1..] == after;
  }

  /** The first segment is the text before the first separator. */
  lemma SegmentsHead(s: string, sep: char)
    ensures Segments(s, sep)[0] == TakeUntil(s, sep)
  {
  }

  /** Only the first segment survives when every later one is empty. */
  lemma SplitSecondMissing(first: string, later: seq<string>)
    requires AllEmpty(later)
    ensures |DropTrailingEmpty([first] + later)| < 2
  {
    var segs := [first] + later;
    DropTrailingEmptyShape(segs);
    var d := DropTrailingEmpty(segs);
    assert forall k :: 1 <= k < |d| ==> d[k] == later[k - 1] == "";
    DropTrailingLastNonEmpty(segs);
  }

  /** Element 1 is the first later segment when some later segment is non-empty. */
  lemma SplitSecondPresent(first: string, later: seq<string>)
    requires !AllEmpty(later)
    ensures |DropTrailingEmpty([first] + later)| >= 2
    ensures DropTrailingEmpty([first] + later)[1] == later[0]
  {
    DropTrailingEmptyAppend([first], later);
    DropTrailingEmptyShape(later);
    var tail := DropTrailingEmpty(later);
    assert tail != [] && tail[0] == later[0];
  }

  /** What DropTrailingEmpty keeps ends in a non-empty string. */
  lemma {:induction false} DropTrailingLastNonEmpty(xs: seq<string>)
    ensures var d := DropTrailingEmpty(xs); d != [] ==> d[|d| - 1] != ""
  {
    if xs != [] && xs[|xs| - 1] == "" {
      DropTrailingLastNonEmpty(xs[..|xs| - 1]);
    }
  }
}

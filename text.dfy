/**
 * The fragments of Python's `str` and `re` semantics that the extractor relies on,
 * over fixed character classes: `str.isspace` (also what `\s` matches), ASCII digits,
 * ASCII word characters, `str.strip`, `str.replace`, `str.splitlines` and the
 * code-point order used by `sorted`.
 */
module Text {

  /** Python's `str.isspace()`; `\s` in a `str` pattern matches the same characters. */
  predicate IsSpace(c: char) {
    ('\t' <= c <= '\r') || ('\U{1C}' <= c <= '\U{1F}') || c == ' ' || c == '\U{85}'
    || c == '\U{A0}' || c == '\U{1680}' || ('\U{2000}' <= c <= '\U{200A}')
    || c == '\U{2028}' || c == '\U{2029}' || c == '\U{202F}' || c == '\U{205F}'
    || c == '\U{3000}'
  }

  /** `[0-9]` */
  predicate IsDigit(c: char) {
    '0' <= c <= '9'
  }

  /** `\w`, restricted to ASCII: letters, digits and underscore. */
  predicate IsWordChar(c: char) {
    ('a' <= c <= 'z') || ('A' <= c <= 'Z') || IsDigit(c) || c == '_'
  }

  /** The line boundaries of `str.splitlines()` (`\r\n` counts as one boundary). */
  predicate IsLineBreak(c: char) {
    c == '\n' || c == '\r' || c == '\U{0B}' || c == '\U{0C}' || ('\U{1C}' <= c <= '\U{1E}')
    || c == '\U{85}' || c == '\U{2028}' || c == '\U{2029}'
  }

  predicate AllSpace(s: string) {
    forall i :: 0 <= i < |s| ==> IsSpace(s[i])
  }

  predicate AllDigits(s: string) {
    forall i :: 0 <= i < |s| ==> IsDigit(s[i])
  }

  /** No whitespace at either end. */
  predicate Trimmed(s: string) {
    s == [] || (!IsSpace(s[0]) && !IsSpace(s[|s| - 1]))
  }

  /** The number of whitespace characters starting at index `i`. */
  function SpaceRun(s: string, i: nat): (n: nat)
    requires i <= |s|
    ensures i + n <= |s|
    ensures forall k :: i <= k < i + n ==> IsSpace(s[k])
    ensures i + n == |s| || !IsSpace(s[i + n])
    decreases |s| - i
  {
    if i < |s| && IsSpace(s[i]) then 1 + SpaceRun(s, i + 1) else 0
  }

  /** The number of whitespace characters ending just before index `j`. */
  function SpaceRunBefore(s: string, j: nat): (n: nat)
    requires j <= |s|
    ensures n <= j
    ensures forall k :: j - n <= k < j ==> IsSpace(s[k])
    ensures n == j || !IsSpace(s[j - n - 1])
  {
    if j > 0 && IsSpace(s[j - 1]) then 1 + SpaceRunBefore(s, j - 1) else 0
  }

  /** `str.lstrip()` */
  function TrimStart(s: string): string {
    s[SpaceRun(s, 0)..]
  }

  /** `str.rstrip()` */
  function TrimEnd(s: string): string {
    s[..|s| - SpaceRunBefore(s, |s|)]
  }

  /** `str.strip()` */
  function Strip(s: string): string {
    TrimEnd(TrimStart(s))
  }

  /** What `str.strip()` returns: the slice `s[a..a + |r|]` between a whitespace prefix and
      a whitespace suffix, neither starting nor ending with whitespace. */
  lemma StripSpec(s: string) returns (a: nat)
    ensures var r := Strip(s);
      Trimmed(r) && a + |r| <= |s| && r == s[a..a + |r|]
      && (forall k :: 0 <= k < a ==> IsSpace(s[k]))
      && (forall k :: a + |r| <= k < |s| ==> IsSpace(s[k]))
  {
    a := SpaceRun(s, 0);
    var t := s[a..];
    var b := SpaceRunBefore(t, |t|);
    var r := t[..|t| - b];
    assert r == Strip(s);
    assert r == s[a..a + |r|];
    if r != [] {
      assert r[0] == s[a];
      assert r[|r| - 1] == t[|t| - b - 1];
    }
    forall k | a + |r| <= k < |s|
      ensures IsSpace(s[k])
    {
      assert s[k] == t[k - a];
    }
  }

  /** The text with every whitespace character removed. */
  function NonSpace(s: string): string {
    if s == [] then [] else (if IsSpace(s[0]) then [] else [s[0]]) + NonSpace(s[1..])
  }

  lemma {:induction false} NonSpaceConcat(a: string, b: string)
    ensures NonSpace(a + b) == NonSpace(a) + NonSpace(b)
  {
    if a == [] {
      assert a + b == b;
    } else {
      assert (a + b)[1..] == a[1..] + b;
      NonSpaceConcat(a[1..], b);
    }
  }

  lemma {:induction false} NonSpaceOfSpaces(s: string)
    requires AllSpace(s)
    ensures NonSpace(s) == []
  {
    if s != [] {
      NonSpaceOfSpaces(s[1..]);
    }
  }

  /** Stripping removes only whitespace: every other character survives, in order. */
  lemma NonSpaceStrip(s: string)
    ensures NonSpace(Strip(s)) == NonSpace(s)
  {
    var a := StripSpec(s);
    var r := Strip(s);
    assert s == s[..a] + r + s[a + |r|..];
    NonSpaceConcat(s[..a] + r, s[a + |r|..]);
    NonSpaceConcat(s[..a], r);
    NonSpaceOfSpaces(s[..a]);
    NonSpaceOfSpaces(s[a + |r|..]);
  }

  /** A stripped string is its own strip. */
  lemma StripTrimmed(s: string)
    requires Trimmed(s)
    ensures Strip(s) == s
  {
  }

  /** Stripping a text whose last character is not whitespace leaves something. */
  lemma StripKeepsLast(s: string)
    requires s != [] && !IsSpace(s[|s| - 1])
    ensures Strip(s) != ""
  {
    var a := StripSpec(s);
  }

  /** `s.replace(c, repl)` for a one-character pattern. */
  function Replace(s: string, c: char, repl: string): string {
    if s == [] then [] else (if s[0] == c then repl else [s[0]]) + Replace(s[1..], c, repl)
  }

  lemma {:induction false} ReplaceConcat(a: string, b: string, c: char, repl: string)
    ensures Replace(a + b, c, repl) == Replace(a, c, repl) + Replace(b, c, repl)
  {
    if a == [] {
      assert a + b == b;
    } else {
      assert (a + b)[1..] == a[1..] + b;
      ReplaceConcat(a[1..], b, c, repl);
    }
  }

  /** Replacing a character that does not occur changes nothing. */
  lemma {:induction false} ReplaceAbsent(s: string, c: char, repl: string)
    requires c !in s
    ensures Replace(s, c, repl) == s
  {
    if s != [] {
      ReplaceAbsent(s[1..], c, repl);
    }
  }

  /** After `replace(c, repl)` the character `c` is gone, unless `repl` brings it back,
      and every other character is kept or comes from `repl`. */
  lemma {:induction false} ReplaceRemoves(s: string, c: char, repl: string)
    requires c !in repl
    ensures c !in Replace(s, c, repl)
    ensures forall d :: d in Replace(s, c, repl) ==> d in repl || (d in s && d != c)
  {
    if s != [] {
      ReplaceRemoves(s[1..], c, repl);
    }
  }

  /** The index of the first line boundary at or after `i` (or `|s|`). */
  function NextBreak(s: string, i: nat): (k: nat)
    requires i <= |s|
    ensures i <= k <= |s| && (k < |s| ==> IsLineBreak(s[k]))
    ensures forall j :: i <= j < k ==> !IsLineBreak(s[j])
    decreases |s| - i
  {
    if i == |s| || IsLineBreak(s[i]) then i else NextBreak(s, i + 1)
  }

  /** `str.splitlines()`: split at every line boundary; a final boundary does not open
      another (empty) line, and `\r\n` is one boundary. */
  function SplitLines(s: string): (lines: seq<string>)
    decreases |s|
  {
    if s == [] then []
    else
      var k := NextBreak(s, 0);
      if k == |s| then [s]
      else
        var w := if s[k] == '\r' && k + 1 < |s| && s[k + 1] == '\n' then 2 else 1;
        [s[..k]] + SplitLines(s[k + w..])
  }

  predicate NoBreaks(s: string) {
    forall i :: 0 <= i < |s| ==> !IsLineBreak(s[i])
  }

  /** No line returned by `splitlines` contains a line boundary. */
  lemma {:induction false} SplitLinesNoBreaks(s: string)
    ensures forall j :: 0 <= j < |SplitLines(s)| ==> NoBreaks(SplitLines(s)[j])
    decreases |s|
  {
    if s != [] {
      var k := NextBreak(s, 0);
      if k < |s| {
        var w := if s[k] == '\r' && k + 1 < |s| && s[k + 1] == '\n' then 2 else 1;
        SplitLinesNoBreaks(s[k + w..]);
      }
    }
  }

  /** The lines written out, each ended by `\n`. */
  function Terminated(lines: seq<string>): string {
    if lines == [] then [] else lines[0] + "\n" + Terminated(lines[1..])
  }

  /** `splitlines` undoes writing the lines out with a `\n` after each. */
  lemma {:induction false} SplitLinesRoundTrip(lines: seq<string>)
    requires forall j :: 0 <= j < |lines| ==> NoBreaks(lines[j])
    ensures SplitLines(Terminated(lines)) == lines
  {
    if lines != [] {
      SplitLinesCons(lines[0], Terminated(lines[1..]));
      SplitLinesRoundTrip(lines[1..]);
    }
  }

  /** A line without breaks, then `\n`: `splitlines` takes off that line. */
  lemma SplitLinesCons(l: string, rest: string)
    requires NoBreaks(l)
    ensures SplitLines(l + "\n" + rest) == [l] + SplitLines(rest)
  {
    var s := l + "\n" + rest;
    assert s[|l|] == '\n';
    assert forall j :: 0 <= j < |l| ==> s[j] == l[j];
    NextBreakFirst(s, l);
    assert s[..|l|] == l;
    assert s[|l| + 1..] == rest;
  }

  lemma NextBreakFirst(s: string, l: string)
    requires |l| < |s| && NoBreaks(l) && IsLineBreak(s[|l|])
    requires forall j :: 0 <= j < |l| ==> s[j] == l[j]
    ensures NextBreak(s, 0) == |l|
  {
  }

  /** Every line boundary, `\r\n` counted once, written as `\n`. */
  function Unified(s: string): string
    decreases |s|
  {
    if s == [] then []
    else if s[0] == '\r' && |s| > 1 && s[1] == '\n' then "\n" + Unified(s[2..])
    else if IsLineBreak(s[0]) then "\n" + Unified(s[1..])
    else [s[0]] + Unified(s[1..])
  }

  /** The text with its line boundaries written as `\n`, and a final `\n` when a last line
      is not ended by one. */
  function UnifyBreaks(s: string): string {
    if s == [] || IsLineBreak(s[|s| - 1]) then Unified(s) else Unified(s) + "\n"
  }

  /** The lines of `splitlines`, each ended by `\n`, are the text with every boundary written
      as `\n` (and the last line ended): nothing is lost, and the lines fall between the
      boundaries of the text. */
  lemma {:induction false} SplitLinesUnify(s: string)
    ensures Terminated(SplitLines(s)) == UnifyBreaks(s)
    decreases |s|, 1
  {
    if s != [] {
      var k := NextBreak(s, 0);
      if k == |s| {
        UnifyOneLine(s);
      } else {
        var w := if s[k] == '\r' && k + 1 < |s| && s[k + 1] == '\n' then 2 else 1;
        UnifyAtBreak(s, k, w);
      }
    }
  }

  /** A text without boundaries is one line. */
  lemma UnifyOneLine(s: string)
    requires s != [] && NextBreak(s, 0) == |s|
    ensures Terminated(SplitLines(s)) == UnifyBreaks(s)
  {
    UnifiedNoBreaks(s, []);
    assert s + [] == s && s + Unified([]) == s;
    assert SplitLines(s) == [s];
    assert Terminated([s]) == s + "\n" + Terminated([]);
  }

  /** At the first boundary: the first line, `\n`, then the rest. */
  lemma {:induction false} UnifyAtBreak(s: string, k: nat, w: nat)
    requires k == NextBreak(s, 0) && k < |s|
    requires w == if s[k] == '\r' && k + 1 < |s| && s[k + 1] == '\n' then 2 else 1
    ensures Terminated(SplitLines(s)) == UnifyBreaks(s)
    decreases |s|, 0
  {
    var rest := s[k + w..];
    SplitLinesUnify(rest);
    SplitLinesAt(s, k, w);
    TerminatedCons(s[..k], SplitLines(rest));
    UnifiedSplit(s, k, w);
    UnifyBreaksSplit(s, k, w);
  }

  lemma SplitLinesAt(s: string, k: nat, w: nat)
    requires k == NextBreak(s, 0) && k < |s|
    requires w == if s[k] == '\r' && k + 1 < |s| && s[k + 1] == '\n' then 2 else 1
    ensures SplitLines(s) == [s[..k]] + SplitLines(s[k + w..])
  {
  }

  /** `UnifyBreaks` adds the final `\n` to the text exactly when it adds it to the rest after
      the first boundary, or the rest is empty. */
  lemma UnifyBreaksSplit(s: string, k: nat, w: nat)
    requires k == NextBreak(s, 0) && k < |s|
    requires w == if s[k] == '\r' && k + 1 < |s| && s[k + 1] == '\n' then 2 else 1
    requires Unified(s) == s[..k] + "\n" + Unified(s[k + w..])
    ensures UnifyBreaks(s) == s[..k] + "\n" + UnifyBreaks(s[k + w..])
  {
    var rest := s[k + w..];
    if rest == [] {
      assert s[|s| - 1] == s[k + w - 1];
      assert IsLineBreak(s[k + w - 1]);
    } else {
      assert s[|s| - 1] == rest[|rest| - 1];
      SeqAssoc(s[..k] + "\n", Unified(rest), "\n");
    }
  }

  lemma TerminatedCons(l: string, lines: seq<string>)
    ensures Terminated([l] + lines) == l + "\n" + Terminated(lines)
  {
    assert ([l] + lines)[1..] == lines;
  }

  /** The text up to its first boundary is kept, the boundary becomes `\n`. */
  lemma UnifiedSplit(s: string, k: nat, w: nat)
    requires k == NextBreak(s, 0) && k < |s|
    requires w == if s[k] == '\r' && k + 1 < |s| && s[k + 1] == '\n' then 2 else 1
    ensures Unified(s) == s[..k] + "\n" + Unified(s[k + w..])
  {
    var t := s[k..];
    assert s == s[..k] + t;
    UnifiedNoBreaks(s[..k], t);
    UnifiedBreakHead(t, w);
    assert t[w..] == s[k + w..];
    SeqAssoc(s[..k], "\n", Unified(s[k + w..]));
  }

  /** A text starting with a boundary of width `w` (`\r\n` or one character). */
  lemma UnifiedBreakHead(t: string, w: nat)
    requires t != [] && IsLineBreak(t[0])
    requires w == if t[0] == '\r' && 1 < |t| && t[1] == '\n' then 2 else 1
    ensures Unified(t) == "\n" + Unified(t[w..])
  {
  }

  /** Text without boundaries passes through `Unified` unchanged. */
  lemma {:induction false} UnifiedNoBreaks(l: string, r: string)
    requires NoBreaks(l)
    ensures Unified(l + r) == l + Unified(r)
    decreases |l|
  {
    if l == [] {
      assert l + r == r;
    } else {
      UnifiedNoBreaks(l[1..], r);
      SliceConcat(l, r, 1);
      assert (l + r)[0] == l[0];
      assert !IsLineBreak(l[0]);
      SeqAssoc([l[0]], l[1..], Unified(r));
      assert [l[0]] + l[1..] == l;
    }
  }

  lemma SliceConcat(v: string, t: string, k: nat)
    requires k <= |v|
    ensures (v + t)[k..] == v[k..] + t
  {
  }

  lemma SeqAssoc(a: string, b: string, c: string)
    ensures a + (b + c) == (a + b) + c
  {
  }

  /** Python's `<` on `str`: code-point lexicographic order, a prefix first. */
  predicate StrLe(a: string, b: string) {
    a == [] || (b != [] && (a[0] < b[0] || (a[0] == b[0] && StrLe(a[1..], b[1..]))))
  }

  lemma {:induction false} StrLeTotal(a: string, b: string)
    ensures StrLe(a, b) || StrLe(b, a)
  {
    if a != [] && b != [] && a[0] == b[0] {
      StrLeTotal(a[1..], b[1..]);
    }
  }

  lemma {:induction false} StrLeTrans(a: string, b: string, c: string)
    requires StrLe(a, b) && StrLe(b, c)
    ensures StrLe(a, c)
  {
    if a != [] && b != [] && c != [] && a[0] == b[0] == c[0] {
      StrLeTrans(a[1..], b[1..], c[1..]);
    }
  }

  lemma {:induction false} StrLeAntisym(a: string, b: string)
    requires StrLe(a, b) && StrLe(b, a)
    ensures a == b
  {
    if a != [] && b != [] {
      StrLeAntisym(a[1..], b[1..]);
      assert a == [a[0]] + a[1..];
      assert b == [b[0]] + b[1..];
    }
  }
}

/**
 * The two patterns `find` (format.py) uses for the total: the line pattern
 * `\btotal\b\s*[:\-]?\s*(.+)$` under `re.I`, searched leftmost-first with the
 * backtracking order of Python's `re`, and the amount pattern
 * `(?P<symbol>[€£¥$])?\s*(?P<number>[0-9][0-9,]*(?:\.[0-9]{1,2})?)\s*(?P<code>[A-Za-z]{3})?`
 * searched in the captured rest of the line. Positions are returned rather than strings,
 * so that what was captured can be related back to the line.
 */
module Total {
  import opened Wrappers
  import opened Text

  /** ASCII lower case: `re.I` makes `total` match in any mix of cases. */
  function Lower(c: char): char {
    if 'A' <= c <= 'Z' then (c as int + 32) as char else c
  }

  /** `\btotal\b` at index `i`. */
  predicate TotalWordAt(s: string, i: nat) {
    i + 5 <= |s|
    && (i == 0 || !IsWordChar(s[i - 1]))
    && Lower(s[i]) == 't' && Lower(s[i + 1]) == 'o' && Lower(s[i + 2]) == 't'
    && Lower(s[i + 3]) == 'a' && Lower(s[i + 4]) == 'l'
    && (i + 5 == |s| || !IsWordChar(s[i + 5]))
  }

  /** The number of characters other than `\n` starting at `q`. */
  function LineRun(s: string, q: nat): (n: nat)
    requires q <= |s|
    ensures q + n <= |s|
    ensures forall k :: q <= k < q + n ==> s[k] != '\n'
    ensures q + n == |s| || s[q + n] == '\n'
    decreases |s| - q
  {
    if q < |s| && s[q] != '\n' then 1 + LineRun(s, q + 1) else 0
  }

  /** `(.+)$` at `q`: the greedy `.+` stops at the first `\n` and cannot give anything back
      that `$` would accept, so it succeeds exactly when it takes at least one character and
      ends the text or stands before a final `\n`. */
  predicate TailOk(s: string, q: nat)
    requires q <= |s|
  {
    var e := q + LineRun(s, q);
    e > q && (e == |s| || e + 1 == |s|)
  }

  /** The captured group for a tail starting at `q`. */
  function Group(s: string, q: nat): string
    requires q <= |s|
  {
    s[q..q + LineRun(s, q)]
  }

  /** `\s*` then `(.+)$`, the `\s*` giving back one character at a time from `k`. */
  function TailAfterSpaces(s: string, b: nat, k: nat): (r: Option<nat>)
    requires b + k <= |s|
    ensures r.Some? ==> b <= r.value <= b + k && TailOk(s, r.value)
    decreases k
  {
    if TailOk(s, b + k) then Some(b + k)
    else if k == 0 then None
    else TailAfterSpaces(s, b, k - 1)
  }

  /** A `:` or `-`, the characters of `[:\-]`. */
  predicate IsSeparator(c: char) {
    c == ':' || c == '-'
  }

  /** `[:\-]?\s*(.+)$` at `a`: with the separator first, then without it. */
  function TailAfterSep(s: string, a: nat): (r: Option<nat>)
    requires a <= |s|
    ensures r.Some? ==> a <= r.value <= |s| && TailOk(s, r.value)
  {
    var withSep :=
      if a < |s| && IsSeparator(s[a]) then TailAfterSpaces(s, a + 1, SpaceRun(s, a + 1)) else None;
    if withSep.Some? then withSep else TailAfterSpaces(s, a, SpaceRun(s, a))
  }

  /** `\s*[:\-]?\s*(.+)$` after the word, the first `\s*` giving back from `k`. */
  function TailAfterWord(s: string, e: nat, k: nat): (r: Option<nat>)
    requires e + k <= |s|
    ensures r.Some? ==> e <= r.value <= |s| && TailOk(s, r.value)
    decreases k
  {
    var r := TailAfterSep(s, e + k);
    if r.Some? then r
    else if k == 0 then None
    else TailAfterWord(s, e, k - 1)
  }

  /** The whole pattern tried at `i`: where its group starts, if it matches there. */
  function TotalAt(s: string, i: nat): (r: Option<nat>)
    requires i <= |s|
    ensures r.Some? ==> TotalWordAt(s, i) && i + 5 <= r.value <= |s| && TailOk(s, r.value)
  {
    if TotalWordAt(s, i) then TailAfterWord(s, i + 5, SpaceRun(s, i + 5)) else None
  }

  /** `search`: the leftmost position from `i` on where the pattern matches. */
  function TotalSearch(s: string, i: nat): (r: Option<nat>)
    requires i <= |s|
    ensures r.Some? ==> r.value <= |s| && TailOk(s, r.value)
    decreases |s| - i
  {
    if i == |s| then None
    else if TotalAt(s, i).Some? then TotalAt(s, i)
    else TotalSearch(s, i + 1)
  }

  /** `tlm.group(1)` of `total_line_pattern.search(line)`, or None when it does not match. */
  function TotalRest(line: string): Option<string> {
    match TotalSearch(line, 0)
    case None => None
    case Some(q) => Some(Group(line, q))
  }

  /** What may stand between the word and the group: `\s*[:\-]?\s*`. */
  predicate IsGap(g: string) {
    AllSpace(g) || exists k :: 0 <= k < |g| && AllSpace(g[..k]) && IsSeparator(g[k]) && AllSpace(g[k + 1..])
  }

  /** A whole-word `total` with something after it. */
  predicate OpenTotalAt(s: string, i: nat) {
    TotalWordAt(s, i) && i + 5 < |s|
  }

  // ---- the line pattern on a line without `\n` (every normalised line) ----

  lemma TailOkNoNewline(s: string, q: nat)
    requires q <= |s| && '\n' !in s
    ensures TailOk(s, q) <==> q < |s|
    ensures q < |s| ==> Group(s, q) == s[q..]
  {
    assert forall k :: 0 <= k < |s| ==> s[k] != '\n';
  }

  /** Without `\n`, the second `\s*` gives back at most one character, and only at the end. */
  lemma {:induction false} AfterSpacesNoNewline(s: string, b: nat, k: nat)
    requires b + k <= |s| && '\n' !in s
    ensures b + k < |s| ==> TailAfterSpaces(s, b, k) == Some(b + k)
    ensures b + k == |s| && k > 0 ==> TailAfterSpaces(s, b, k) == Some(|s| - 1)
    ensures b + k == |s| && k == 0 ==> TailAfterSpaces(s, b, k) == None
  {
    TailOkNoNewline(s, b + k);
    if b + k == |s| && k > 0 {
      TailOkNoNewline(s, b + k - 1);
    }
  }

  /** The greedy end of `[:\-]?\s*` at `a`. */
  function SepEnd(s: string, a: nat): (g: nat)
    requires a <= |s|
    ensures a <= g <= |s|
  {
    if a < |s| && IsSeparator(s[a]) then a + 1 + SpaceRun(s, a + 1) else a + SpaceRun(s, a)
  }

  /** Without `\n`, `[:\-]?\s*(.+)$` at `a` leaves the greedy gap, or the last character. */
  lemma AfterSepNoNewline(s: string, a: nat)
    requires a <= |s| && '\n' !in s
    ensures a < |s| ==> TailAfterSep(s, a) == Some(if SepEnd(s, a) < |s| then SepEnd(s, a) else |s| - 1)
    ensures a == |s| ==> TailAfterSep(s, a) == None
  {
    if a < |s| && IsSeparator(s[a]) {
      AfterSpacesNoNewline(s, a + 1, SpaceRun(s, a + 1));
      assert !IsSpace(s[a]);
      AfterSpacesNoNewline(s, a, SpaceRun(s, a));
    } else {
      AfterSpacesNoNewline(s, a, SpaceRun(s, a));
    }
  }

  /** Without `\n`, the group after a word ending at `e` starts after the longest gap that
      leaves at least one character. */
  lemma AfterWordNoNewline(s: string, e: nat)
    requires e <= |s| && '\n' !in s
    ensures var g := SepEnd(s, e + SpaceRun(s, e));
      e < |s| ==> TailAfterWord(s, e, SpaceRun(s, e)) == Some(if g < |s| then g else |s| - 1)
    ensures e == |s| ==> TailAfterWord(s, e, SpaceRun(s, e)) == None
  {
    var k := SpaceRun(s, e);
    if e + k < |s| {
      WordTailInside(s, e, k);
    } else if k > 0 {
      WordTailAtEnd(s, e, k);
    } else {
      AfterSepNoNewline(s, e + k);
    }
  }

  /** Before the end of the text, the separator part matches at once. */
  lemma WordTailInside(s: string, e: nat, k: nat)
    requires e + k < |s| && '\n' !in s
    ensures TailAfterWord(s, e, k) == Some(if SepEnd(s, e + k) < |s| then SepEnd(s, e + k) else |s| - 1)
  {
    AfterSepNoNewline(s, e + k);
  }

  /** Spaces up to the end of the text: the first `\s*` gives back the last one. */
  lemma WordTailAtEnd(s: string, e: nat, k: nat)
    requires 0 < k && e + k == |s| && '\n' !in s && IsSpace(s[|s| - 1])
    ensures TailAfterWord(s, e, k) == Some(|s| - 1)
    ensures SepEnd(s, e + k) == |s|
  {
    AfterSepNoNewline(s, e + k);
    LastSpaceAtEnd(s, e + k - 1);
    assert TailAfterWord(s, e, k - 1) == Some(|s| - 1);
  }

  /** A trailing space is the last character the tail can take. */
  lemma LastSpaceAtEnd(s: string, a: nat)
    requires a + 1 == |s| && IsSpace(s[a]) && '\n' !in s
    ensures TailAfterSep(s, a) == Some(a)
  {
    AfterSepNoNewline(s, a);
    assert !IsSeparator(s[a]);
    assert SpaceRun(s, a + 1) == 0;
  }

  /** The greedy gap is a gap. */
  lemma GreedyGap(s: string, e: nat)
    requires e <= |s|
    ensures var a := e + SpaceRun(s, e);
      forall q :: e <= q <= SepEnd(s, a) ==> IsGap(s[e..q])
  {
    var a := e + SpaceRun(s, e);
    forall q | e <= q <= SepEnd(s, a)
      ensures IsGap(s[e..q])
    {
      var g := s[e..q];
      if q <= a {
        assert AllSpace(g);
      } else {
        assert IsSeparator(s[a]);
        var k := a - e;
        assert AllSpace(g[..k]) && IsSeparator(g[k]) && AllSpace(g[k + 1..]);
      }
    }
  }

  /** A stretch of whitespace from `e` lies within the whitespace run at `e`. */
  lemma SpacesWithinRun(s: string, e: nat, q: nat)
    requires e <= q <= |s| && forall j :: e <= j < q ==> IsSpace(s[j])
    ensures q <= e + SpaceRun(s, e)
  {
    var a := e + SpaceRun(s, e);
    assert a == |s| || !IsSpace(s[a]);
  }

  /** No gap reaches past the greedy one. */
  lemma GreedyGapLongest(s: string, e: nat, q: nat)
    requires e <= q <= |s| && IsGap(s[e..q])
    ensures q <= SepEnd(s, e + SpaceRun(s, e))
  {
    var g := s[e..q];
    if AllSpace(g) {
      SpaceGapLongest(s, e, q);
    } else {
      var k :| 0 <= k < |g| && AllSpace(g[..k]) && IsSeparator(g[k]) && AllSpace(g[k + 1..]);
      assert g[..k] == s[e..e + k] && g[k] == s[e + k] && g[k + 1..] == s[e + k + 1..q];
      SepGapLongest(s, e, q, k);
    }
  }

  lemma SpaceGapLongest(s: string, e: nat, q: nat)
    requires e <= q <= |s| && AllSpace(s[e..q])
    ensures q <= e + SpaceRun(s, e)
  {
    forall j | e <= j < q
      ensures IsSpace(s[j])
    {
      assert s[j] == s[e..q][j - e];
    }
    SpacesWithinRun(s, e, q);
  }

  lemma SepGapLongest(s: string, e: nat, q: nat, k: nat)
    requires e + k < q <= |s|
    requires AllSpace(s[e..e + k]) && IsSeparator(s[e + k]) && AllSpace(s[e + k + 1..q])
    ensures q <= SepEnd(s, e + SpaceRun(s, e))
  {
    SpaceGapLongest(s, e, e + k);
    assert !IsSpace(s[e + k]);
    var a := e + SpaceRun(s, e);
    assert e + k == a;
    SpaceGapLongest(s, a + 1, q);
  }

  /** What the line pattern captures in a line without `\n`: it matches exactly when the line
      has a whole-word `total` (in any case) with something after it; the word is the first
      such, and the group is the rest of the line after the longest `\s*[:\-]?\s*` gap that
      still leaves at least one character. */
  lemma {:induction false} TotalSearchSpec(s: string, i: nat)
    requires i <= |s| && '\n' !in s
    ensures TotalSearch(s, i).None? <==> forall j :: i <= j < |s| ==> !OpenTotalAt(s, j)
    ensures TotalSearch(s, i).Some? ==>
      exists j :: i <= j && OpenTotalAt(s, j) && (forall j' :: i <= j' < j ==> !OpenTotalAt(s, j'))
        && FirstGroupAfter(s, j + 5, TotalSearch(s, i).value)
    decreases |s| - i
  {
    if i < |s| {
      TotalAtSpec(s, i);
      TotalSearchSpec(s, i + 1);
      if TotalAt(s, i).None? {
        assert TotalSearch(s, i) == TotalSearch(s, i + 1);
        if TotalSearch(s, i + 1).Some? {
          var j :| i + 1 <= j && OpenTotalAt(s, j) && (forall j' :: i + 1 <= j' < j ==> !OpenTotalAt(s, j'))
            && FirstGroupAfter(s, j + 5, TotalSearch(s, i + 1).value);
          assert forall j' :: i <= j' < j ==> !OpenTotalAt(s, j');
        }
      }
    }
  }

  /** Without `\n`, the pattern matches at `i` exactly when a whole-word `total` with something
      after it stands there. */
  lemma TotalAtSpec(s: string, i: nat)
    requires i < |s| && '\n' !in s
    ensures TotalAt(s, i).Some? <==> OpenTotalAt(s, i)
    ensures TotalAt(s, i).Some? ==> FirstGroupAfter(s, i + 5, TotalAt(s, i).value)
  {
    if TotalWordAt(s, i) {
      AfterWordNoNewline(s, i + 5);
      if i + 5 < |s| {
        GroupAfterWord(s, i + 5);
      }
    }
  }

  /** `q` is where the group starts after a word ending at `e`: a gap leads to it, something
      follows it, and no longer gap does. */
  predicate FirstGroupAfter(s: string, e: nat, q: nat) {
    e <= q < |s| && IsGap(s[e..q]) && forall q' :: q < q' < |s| ==> !IsGap(s[e..q'])
  }

  lemma GroupAfterWord(s: string, e: nat)
    requires e < |s| && '\n' !in s
    ensures TailAfterWord(s, e, SpaceRun(s, e)).Some?
    ensures FirstGroupAfter(s, e, TailAfterWord(s, e, SpaceRun(s, e)).value)
  {
    AfterWordNoNewline(s, e);
    var a := e + SpaceRun(s, e);
    var g := SepEnd(s, a);
    var q := if g < |s| then g else |s| - 1;
    GreedyGap(s, e);
    GapBound(s, e);
  }

  /** Every gap after `e` ends at or before the greedy one. */
  lemma GapBound(s: string, e: nat)
    requires e <= |s|
    ensures forall q' :: e <= q' <= |s| && IsGap(s[e..q']) ==> q' <= SepEnd(s, e + SpaceRun(s, e))
  {
    forall q' | e <= q' <= |s| && IsGap(s[e..q'])
      ensures q' <= SepEnd(s, e + SpaceRun(s, e))
    {
      GreedyGapLongest(s, e, q');
    }
  }

  // ---- the amount pattern ----

  /** The currency symbols of `[€£¥$]`. */
  predicate IsCurrency(c: char) {
    c == '\U{20AC}' || c == '\U{A3}' || c == '\U{A5}' || c == '$'
  }

  /** The amount pattern tried at `p`: where its `number` group starts, if it matches there.
      The optional symbol is tried first; the trailing `\s*` and optional code always match
      and do not change the number. */
  function AmountAt(rest: string, p: nat): (r: Option<nat>)
    requires p <= |rest|
    ensures r.Some? ==> p <= r.value < |rest| && IsDigit(rest[r.value])
    ensures r.Some? ==> forall k :: p < k < r.value ==> IsSpace(rest[k])
  {
    if p < |rest| && IsCurrency(rest[p]) && p + 1 + SpaceRun(rest, p + 1) < |rest|
       && IsDigit(rest[p + 1 + SpaceRun(rest, p + 1)])
    then Some(p + 1 + SpaceRun(rest, p + 1))
    else if p + SpaceRun(rest, p) < |rest| && IsDigit(rest[p + SpaceRun(rest, p)])
    then Some(p + SpaceRun(rest, p))
    else None
  }

  /** `search` for the amount pattern from `p` on. */
  function AmountSearch(rest: string, p: nat): (r: Option<nat>)
    requires p <= |rest|
    ensures r.Some? ==> p <= r.value < |rest| && IsDigit(rest[r.value])
    decreases |rest| - p
  {
    if p == |rest| then None
    else if AmountAt(rest, p).Some? then AmountAt(rest, p)
    else AmountSearch(rest, p + 1)
  }

  /** The number of characters of `[0-9,]` starting at `i`. */
  function DigitCommaRun(s: string, i: nat): (n: nat)
    requires i <= |s|
    ensures i + n <= |s|
    ensures forall k :: i <= k < i + n ==> IsDigit(s[k]) || s[k] == ','
    ensures i + n == |s| || !(IsDigit(s[i + n]) || s[i + n] == ',')
    decreases |s| - i
  {
    if i < |s| && (IsDigit(s[i]) || s[i] == ',') then 1 + DigitCommaRun(s, i + 1) else 0
  }

  /** Where the integer part `[0-9][0-9,]*` of a number starting at `d` ends. */
  function IntegerEnd(s: string, d: nat): (e: nat)
    requires d < |s|
    ensures d < e <= |s|
  {
    d + 1 + DigitCommaRun(s, d + 1)
  }

  /** Where the `number` group starting at `d` ends: the integer part, then `.` and one or two
      digits when they follow. */
  function NumberEnd(s: string, d: nat): (e: nat)
    requires d < |s|
    ensures IntegerEnd(s, d) <= e <= |s|
  {
    var i := IntegerEnd(s, d);
    if i + 1 < |s| && s[i] == '.' && IsDigit(s[i + 1]) then
      if i + 2 < |s| && IsDigit(s[i + 2]) then i + 3 else i + 2
    else i
  }

  /** `num.replace(',', '')` */
  function RemoveCommas(s: string): string {
    Replace(s, ',', "")
  }

  /** The amount string for the rest of a total line: the number without its commas, or the
      stripped rest when there is no number. */
  function Amount(rest: string): string {
    match AmountSearch(rest, 0)
    case Some(d) => RemoveCommas(rest[d..NumberEnd(rest, d)])
    case None => Strip(rest)
  }

  /** The `number` group starts at the first digit of the text, and there is one exactly when
      the text has a digit: a match starting earlier would need a digit earlier. */
  lemma {:induction false} AmountSearchFirstDigit(rest: string, p: nat)
    requires p <= |rest|
    ensures AmountSearch(rest, p).None? <==> forall k :: p <= k < |rest| ==> !IsDigit(rest[k])
    ensures AmountSearch(rest, p).Some? ==> forall k :: p <= k < AmountSearch(rest, p).value ==> !IsDigit(rest[k])
    decreases |rest| - p
  {
    if p < |rest| {
      AmountSearchFirstDigit(rest, p + 1);
      AmountAtDigit(rest, p);
    }
  }

  /** The amount pattern tried at `p` takes the digit standing there, and otherwise its number
      starts at a digit after `p` with none in between. */
  lemma AmountAtDigit(rest: string, p: nat)
    requires p < |rest|
    ensures IsDigit(rest[p]) ==> AmountAt(rest, p) == Some(p)
    ensures AmountAt(rest, p).Some? ==> forall k :: p <= k < AmountAt(rest, p).value ==> !IsDigit(rest[k])
  {
    if IsDigit(rest[p]) {
      assert SpaceRun(rest, p) == 0;
    }
  }

  /** `[0-9][0-9,]*`: a digit, then digits and commas. */
  predicate IsIntegerPart(t: string) {
    |t| > 0 && IsDigit(t[0]) && forall k :: 1 <= k < |t| ==> IsDigit(t[k]) || t[k] == ','
  }

  /** The whole text matches the `number` group `[0-9][0-9,]*(?:\.[0-9]{1,2})?`. */
  predicate IsNumber(t: string) {
    IsIntegerPart(t)
    || exists i :: 0 < i < |t| && IsIntegerPart(t[..i]) && t[i] == '.' && 2 <= |t| - i <= 3
         && forall k :: i < k < |t| ==> IsDigit(t[k])
  }

  /** The `number` group is greedy: starting at a digit, `NumberEnd` ends a match of the
      group, and every match from there ends at or before it. */
  lemma NumberEndLongest(s: string, d: nat)
    requires d < |s| && IsDigit(s[d])
    ensures IsNumber(s[d..NumberEnd(s, d)])
    ensures forall e :: d < e <= |s| && IsNumber(s[d..e]) ==> e <= NumberEnd(s, d)
  {
    NumberEndMatches(s, d);
    forall e | d < e <= |s| && IsNumber(s[d..e])
      ensures e <= NumberEnd(s, d)
    {
      NumberWithin(s, d, e);
    }
  }

  lemma NumberEndMatches(s: string, d: nat)
    requires d < |s| && IsDigit(s[d])
    ensures IsNumber(s[d..NumberEnd(s, d)])
  {
    var i := IntegerEnd(s, d);
    var e := NumberEnd(s, d);
    IntegerPartAt(s, d);
    if e > i {
      var t := s[d..e];
      assert t[..i - d] == s[d..i];
      assert t[i - d] == s[i] == '.';
      assert forall k :: i - d < k < |t| ==> t[k] == s[d + k];
      FractionMatches(t, i - d);
    }
  }

  lemma IntegerPartAt(s: string, d: nat)
    requires d < |s| && IsDigit(s[d])
    ensures IsIntegerPart(s[d..IntegerEnd(s, d)])
  {
    var t := s[d..IntegerEnd(s, d)];
    assert forall k :: 1 <= k < |t| ==> t[k] == s[d + k];
  }

  lemma FractionMatches(t: string, m: nat)
    requires 0 < m < |t| && IsIntegerPart(t[..m]) && t[m] == '.' && 2 <= |t| - m <= 3
    requires forall k :: m < k < |t| ==> IsDigit(t[k])
    ensures IsNumber(t)
  {
  }

  /** A run of digits and commas from `j` to `x` lies within the run `DigitCommaRun` counts. */
  lemma {:induction false} DigitCommaRunCovers(s: string, j: nat, x: nat)
    requires j <= x <= |s|
    requires forall k :: j <= k < x ==> IsDigit(s[k]) || s[k] == ','
    ensures x <= j + DigitCommaRun(s, j)
    decreases x - j
  {
    if j < x {
      DigitCommaRunCovers(s, j + 1, x);
    }
  }

  /** A match of the `number` group at a digit ends at or before `NumberEnd`. */
  lemma NumberWithin(s: string, d: nat, e': nat)
    requires d < e' <= |s| && IsDigit(s[d]) && IsNumber(s[d..e'])
    ensures e' <= NumberEnd(s, d)
  {
    var t := s[d..e'];
    if IsIntegerPart(t) {
      assert forall k :: d + 1 <= k < e' ==> s[k] == t[k - d];
      DigitCommaRunCovers(s, d + 1, e');
    } else {
      var m :| 0 < m < |t| && IsIntegerPart(t[..m]) && t[m] == '.' && 2 <= |t| - m <= 3
         && forall k :: m < k < |t| ==> IsDigit(t[k]);
      assert t[..m] == s[d..d + m] && t[m] == s[d + m];
      assert forall k :: d + m < k < e' ==> s[k] == t[k - d];
      FractionWithin(s, d, e', m);
    }
  }

  lemma FractionWithin(s: string, d: nat, e': nat, m: nat)
    requires d < e' <= |s| && 0 < m < e' - d
    requires IsIntegerPart(s[d..d + m]) && s[d + m] == '.' && 2 <= e' - d - m <= 3
    requires forall k :: d + m < k < e' ==> IsDigit(s[k])
    ensures e' <= NumberEnd(s, d)
  {
    assert forall k :: d + 1 <= k < d + m ==> s[k] == s[d..d + m][k - d];
    DigitCommaRunCovers(s, d + 1, d + m);
    assert d + m == IntegerEnd(s, d);
  }

  /** The amount is the longest match of the `number` group at the first digit of the rest,
      with its commas removed: any `d` and `e` with those properties give it. */
  lemma AmountValue(rest: string, d: nat, e: nat)
    requires d < e <= |rest| && IsDigit(rest[d])
    requires forall k :: 0 <= k < d ==> !IsDigit(rest[k])
    requires IsNumber(rest[d..e])
    requires forall e' :: e < e' <= |rest| ==> !IsNumber(rest[d..e'])
    ensures Amount(rest) == RemoveCommas(rest[d..e])
  {
    AmountSearchFirstDigit(rest, 0);
    assert AmountSearch(rest, 0) == Some(d);
    NumberEndLongest(rest, d);
    assert NumberEnd(rest, d) == e;
  }

  /** With a digit in the rest, the amount is the longest `number` match at the first digit,
      without its commas. */
  lemma AmountIsLongestNumber(rest: string) returns (d: nat, e: nat)
    requires exists k :: 0 <= k < |rest| && IsDigit(rest[k])
    ensures d < e <= |rest| && IsDigit(rest[d])
    ensures forall k :: 0 <= k < d ==> !IsDigit(rest[k])
    ensures IsNumber(rest[d..e])
    ensures forall e' :: d < e' <= |rest| && IsNumber(rest[d..e']) ==> e' <= e
    ensures Amount(rest) == RemoveCommas(rest[d..e])
  {
    AmountSearchFirstDigit(rest, 0);
    d := AmountSearch(rest, 0).value;
    e := NumberEnd(rest, d);
    NumberEndLongest(rest, d);
  }

  /** A plain decimal amount: digits, then optionally `.` and one or two digits. */
  predicate IsAmount(a: string) {
    (|a| > 0 && AllDigits(a))
    || (exists k :: 0 < k < |a| && AllDigits(a[..k]) && a[k] == '.' && 2 <= |a| - k <= 3 && AllDigits(a[k + 1..]))
  }

  lemma {:induction false} RemoveCommasDigits(s: string)
    requires forall k :: 0 <= k < |s| ==> IsDigit(s[k]) || s[k] == ','
    ensures AllDigits(RemoveCommas(s))
    ensures s != [] && IsDigit(s[0]) ==> RemoveCommas(s) != []
  {
    if s != [] {
      RemoveCommasDigits(s[1..]);
      assert RemoveCommas(s) == (if s[0] == ',' then "" else [s[0]]) + RemoveCommas(s[1..]);
    }
  }

  /** When the rest of the line holds a number, the amount is a plain decimal: digits with
      the commas removed, then `.` and one or two digits if the number had them. */
  lemma AmountShape(rest: string)
    requires exists k :: 0 <= k < |rest| && IsDigit(rest[k])
    ensures IsAmount(Amount(rest))
  {
    AmountSearchFirstDigit(rest, 0);
    NumberShape(rest, AmountSearch(rest, 0).value);
  }

  /** The `number` group starting at a digit, without its commas, is a plain decimal. */
  lemma NumberShape(s: string, d: nat)
    requires d < |s| && IsDigit(s[d])
    ensures IsAmount(RemoveCommas(s[d..NumberEnd(s, d)]))
  {
    var i := IntegerEnd(s, d);
    var e := NumberEnd(s, d);
    var whole := s[d..i];
    var frac := s[i..e];
    assert s[d..e] == whole + frac;
    ReplaceConcat(whole, frac, ',', "");
    assert whole[0] == s[d];
    RemoveCommasDigits(whole);
    if e == i {
      assert frac == [];
      assert RemoveCommas(s[d..e]) == RemoveCommas(whole) + [];
    } else {
      FractionShape(s, i, e);
      ReplaceAbsent(frac, ',', "");
      DecimalShape(RemoveCommas(whole), frac);
    }
  }

  lemma FractionShape(s: string, i: nat, e: nat)
    requires i < e <= |s| && s[i] == '.' && 2 <= e - i <= 3
    requires forall k :: i < k < e ==> IsDigit(s[k])
    ensures ',' !in s[i..e] && s[i..e][0] == '.' && AllDigits(s[i..e][1..])
  {
  }

  lemma DecimalShape(w: string, frac: string)
    requires w != [] && AllDigits(w)
    requires 2 <= |frac| <= 3 && frac[0] == '.' && AllDigits(frac[1..])
    ensures IsAmount(w + frac)
  {
    var a := w + frac;
    assert a[..|w|] == w && a[|w| + 1..] == frac[1..];
  }

  // ---- examples ----

  /** `Subtotal` does not count: there is no word boundary before its `total`. */
  lemma ExampleSubtotal()
    ensures TotalRest("Subtotal 5") == None
  {
    var s := "Subtotal 5";
    TotalSearchSpec(s, 0);
    assert !TotalWordAt(s, 3);
  }

  /** A line that ends with the word has nothing to capture. */
  lemma ExampleTrailingWord()
    ensures TotalRest("Grand total") == None
  {
    var s := "Grand total";
    TotalSearchSpec(s, 0);
  }

  /** A total line with a currency symbol, thousands separator and code. */
  lemma ExampleAmount(r: string)
    requires r == "$1,234.50 USD"
    ensures Amount(r) == "1234.50"
  {
    assert SpaceRun(r, 1) == 0;
    assert AmountAt(r, 0) == Some(1);
    assert DigitCommaRun(r, 6) == 0;
    assert DigitCommaRun(r, 5) == 1;
    assert DigitCommaRun(r, 4) == 2;
    assert DigitCommaRun(r, 3) == 3;
    assert DigitCommaRun(r, 2) == 4;
    assert IntegerEnd(r, 1) == 6;
    assert NumberEnd(r, 1) == 9;
    CommasRemoved(r[1..9]);
  }

  /** The comma of the example's number is dropped and nothing else changes. */
  lemma CommasRemoved(n: string)
    requires n == "1,234.50"
    ensures RemoveCommas(n) == "1234.50"
  {
    var whole, frac := n[..2], n[2..];
    assert RemoveCommas(n) == Replace(whole, ',', "") + Replace(frac, ',', "") by {
      assert n == whole + frac;
      ReplaceConcat(whole, frac, ',', "");
    }
    assert Replace(whole, ',', "") == "1" by {
      assert whole == ['1'] + [','] && [','][1..] == [];
    }
    assert Replace(frac, ',', "") == "234.50" by {
      ReplaceAbsent(frac, ',', "");
    }
  }

}

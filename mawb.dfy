/**
 * `_extract_mawb_from_text` (format.py): the "4-step" MAWB rule. The pattern
 * `([0-9]+)-([0-9]+)` is searched left to right without overlap, as `re.finditer` does;
 * the first match whose right run has at least 8 digits and whose left run has at least
 * 3 gives `left[-3:] + "-" + right[:8]`.
 */
module Mawb {
  import opened Wrappers
  import opened Text

  /** One match of `([0-9]+)-([0-9]+)`: the left run is `s[start..hyphen]`, the hyphen is
      at `hyphen` and the right run is `s[hyphen + 1..end]`. */
  datatype Match = Match(start: nat, hyphen: nat, end: nat)

  /** The number of ASCII digits starting at index `i`. */
  function DigitRun(s: string, i: nat): (n: nat)
    requires i <= |s|
    ensures i + n <= |s|
    ensures forall k :: i <= k < i + n ==> IsDigit(s[k])
    ensures i + n == |s| || !IsDigit(s[i + n])
    decreases |s| - i
  {
    if i < |s| && IsDigit(s[i]) then 1 + DigitRun(s, i + 1) else 0
  }

  /** `m` is an occurrence of the pattern in `s` whose right run cannot be extended. */
  predicate IsMatch(s: string, m: Match) {
    m.start < m.hyphen && m.hyphen + 1 < m.end <= |s|
    && (forall k :: m.start <= k < m.hyphen ==> IsDigit(s[k]))
    && s[m.hyphen] == '-'
    && (forall k :: m.hyphen < k < m.end ==> IsDigit(s[k]))
    && (m.end == |s| || !IsDigit(s[m.end]))
  }

  /** The pattern tried at index `i`: greedy digits, `-`, greedy digits (giving digits back
      to the first run can never put a `-` after it, so only the greedy split can match). */
  function MatchAt(s: string, i: nat): (r: Option<Match>)
    requires i <= |s|
    ensures r.Some? ==> r.value.start == i && IsMatch(s, r.value)
  {
    var j := i + DigitRun(s, i);
    if j > i && j + 1 < |s| && s[j] == '-' && IsDigit(s[j + 1])
    then Some(Match(i, j, j + 1 + DigitRun(s, j + 1)))
    else None
  }

  /** `re.finditer(r'([0-9]+)-([0-9]+)', s)` from index `i`: the leftmost match, then the
      search resumes where that match ended. Every match found starts a digit run, and the
      matches come in order without overlapping. */
  function FindIter(s: string, i: nat): (ms: seq<Match>)
    requires i <= |s|
    ensures forall t :: 0 <= t < |ms| ==> i <= ms[t].start && IsMatch(s, ms[t])
    ensures forall t :: 0 <= t < |ms| - 1 ==> ms[t].end < ms[t + 1].start
    decreases |s| - i
  {
    if i == |s| then []
    else
      match MatchAt(s, i)
      case None => FindIter(s, i + 1)
      case Some(m) => [m] + FindIter(s, m.end)
  }

  /** Every match of `ms` starts a digit run, except possibly one starting at `i`. */
  predicate StartsRuns(s: string, ms: seq<Match>, i: nat) {
    forall t :: 0 <= t < |ms| ==>
      ms[t].start == i || (0 < ms[t].start <= |s| && !IsDigit(s[ms[t].start - 1]))
  }

  /** Every match the scan finds starts a digit run: the digit before it, if any, would
      have started the same match one position earlier. */
  lemma {:induction false} FindIterStartsRuns(s: string, i: nat)
    requires i <= |s|
    ensures StartsRuns(s, FindIter(s, i), i)
    decreases |s| - i
  {
    if i < |s| {
      match MatchAt(s, i)
      case None =>
        FindIterStartsRuns(s, i + 1);
        StartsRunsSkip(s, i);
      case Some(m) =>
        FindIterStartsRuns(s, m.end);
        StartsRunsCons(s, m, FindIter(s, m.end));
    }
  }

  /** Where no match starts, the scan moves on one position: a match starting right after a
      digit would have started at that digit. */
  lemma StartsRunsSkip(s: string, i: nat)
    requires i < |s| && MatchAt(s, i).None?
    requires StartsRuns(s, FindIter(s, i + 1), i + 1)
    ensures StartsRuns(s, FindIter(s, i), i)
  {
    assert FindIter(s, i) == FindIter(s, i + 1);
    if IsDigit(s[i]) {
      NoMatchAfterDigit(s, i);
    }
  }

  /** A match followed by the matches found after it: the later ones start past the
      non-digit that ends it, so they too start digit runs. */
  lemma StartsRunsCons(s: string, m: Match, rest: seq<Match>)
    requires IsMatch(s, m)
    requires forall t :: 0 <= t < |rest| ==> m.end <= rest[t].start && IsMatch(s, rest[t])
    requires StartsRuns(s, rest, m.end)
    ensures StartsRuns(s, [m] + rest, m.start)
  {
    var ms := [m] + rest;
    forall t | 0 < t < |ms|
      ensures !IsDigit(s[ms[t].start - 1])
    {
      var n := rest[t - 1];
      assert ms[t] == n;
      assert IsDigit(s[n.start]);
    }
  }

  /** A digit followed by a hyphen between digits starts a match. */
  lemma MatchBeforeHyphen(s: string, i: nat)
    requires HyphenBetweenDigits(s, i + 1)
    ensures MatchAt(s, i).Some?
  {
    assert DigitRun(s, i + 1) == 0;
    assert DigitRun(s, i) == 1;
  }

  /** No match of `ms` starts at index `p`. */
  predicate NoneStartsAt(ms: seq<Match>, p: nat) {
    forall t :: 0 <= t < |ms| ==> ms[t].start != p
  }

  /** Where no match starts at a digit, none starts right after it either. */
  lemma NoMatchAfterDigit(s: string, i: nat)
    requires i < |s| && IsDigit(s[i]) && MatchAt(s, i).None?
    ensures NoneStartsAt(FindIter(s, i + 1), i + 1)
  {
    assert DigitRun(s, i) == 1 + DigitRun(s, i + 1);
    assert MatchAt(s, i + 1).None?;
    if i + 1 < |s| {
      assert FindIter(s, i + 1) == FindIter(s, i + 2);
    }
  }

  /** A hyphen with a digit on each side. */
  predicate HyphenBetweenDigits(s: string, p: int) {
    0 < p < |s| - 1 && IsDigit(s[p - 1]) && s[p] == '-' && IsDigit(s[p + 1])
  }

  /** Some match of `ms` has its hyphen at `p` or ends at `p`. */
  predicate Covered(ms: seq<Match>, p: int) {
    exists t :: 0 <= t < |ms| && (ms[t].hyphen == p || ms[t].end == p)
  }

  /** The scan misses no hyphen between digits: each one either separates the runs of a
      match or comes right after a match's right run (where the non-overlapping search
      cannot use it, since the digits before it are already consumed). */
  lemma {:induction false} FindIterCovers(s: string, i: nat)
    requires i <= |s|
    ensures forall p :: i < p && HyphenBetweenDigits(s, p) ==> Covered(FindIter(s, i), p)
    decreases |s| - i
  {
    if i < |s| {
      match MatchAt(s, i)
      case None =>
        FindIterCovers(s, i + 1);
        if HyphenBetweenDigits(s, i + 1) {
          MatchBeforeHyphen(s, i);
        }
      case Some(m) =>
        FindIterCovers(s, m.end);
        CoveredCons(s, m, FindIter(s, m.end));
    }
  }

  /** A match followed by the matches found after it covers what they cover, and the
      hyphens inside and at the end of it. */
  lemma CoveredCons(s: string, m: Match, rest: seq<Match>)
    requires IsMatch(s, m)
    requires forall p :: m.end < p && HyphenBetweenDigits(s, p) ==> Covered(rest, p)
    ensures forall p :: m.start < p && HyphenBetweenDigits(s, p) ==> Covered([m] + rest, p)
  {
    var ms := [m] + rest;
    forall p | m.start < p && HyphenBetweenDigits(s, p)
      ensures Covered(ms, p)
    {
      if p <= m.end {
        assert p == m.hyphen || p == m.end;
        assert ms[0] == m;
      } else {
        var t :| 0 <= t < |rest| && (rest[t].hyphen == p || rest[t].end == p);
        assert ms[t + 1] == rest[t];
      }
    }
  }

  /** `re.sub(r'\D', '', s)`: the ASCII digits of `s`. */
  function KeepDigits(s: string): (r: string)
    ensures AllDigits(r) && |r| <= |s|
  {
    if s == [] then [] else (if IsDigit(s[0]) then [s[0]] else []) + KeepDigits(s[1..])
  }

  lemma {:induction false} KeepDigitsOfDigits(s: string)
    requires AllDigits(s)
    ensures KeepDigits(s) == s
  {
    if s != [] {
      KeepDigitsOfDigits(s[1..]);
    }
  }

  /** Both groups of a match are digit runs, so `re.sub(r'\D', '', ...)` keeps them whole. */
  lemma RunDigits(s: string, m: Match)
    requires IsMatch(s, m)
    ensures KeepDigits(s[m.start..m.hyphen]) == s[m.start..m.hyphen]
    ensures KeepDigits(s[m.hyphen + 1..m.end]) == s[m.hyphen + 1..m.end]
  {
    KeepDigitsOfDigits(s[m.start..m.hyphen]);
    KeepDigitsOfDigits(s[m.hyphen + 1..m.end]);
  }

  /** Steps 2 and 3 of the rule: the right run has at least 8 digits, the left at least 3. */
  predicate Qualifies(m: Match) {
    m.end - (m.hyphen + 1) >= 8 && m.hyphen - m.start >= 3
  }

  /** Step 4: the last 3 digits of the left run, `-`, the first 8 of the right run. */
  function MawbOf(s: string, m: Match): string
    requires IsMatch(s, m) && Qualifies(m)
  {
    s[m.hyphen - 3..m.hyphen] + "-" + s[m.hyphen + 1..m.hyphen + 9]
  }

  /** A MAWB number: 3 ASCII digits, `-`, 8 ASCII digits. */
  predicate IsMawb(r: string) {
    |r| == 12 && AllDigits(r[..3]) && r[3] == '-' && AllDigits(r[4..])
  }

  /** The first qualifying match in `ms`, turned into a MAWB. */
  function FirstQualifying(s: string, ms: seq<Match>): (r: Option<string>)
    requires forall t :: 0 <= t < |ms| ==> IsMatch(s, ms[t])
  {
    if ms == [] then None
    else if Qualifies(ms[0]) then Some(MawbOf(s, ms[0]))
    else FirstQualifying(s, ms[1..])
  }

  /** What `_extract_mawb_from_text` returns for `text`. */
  function MawbIn(text: string): Option<string> {
    if text == [] then None
    else if '-' !in text then None
    else FirstQualifying(text, FindIter(text, 0))
  }

  /** `_extract_mawb_from_text`: the early exits, then the loop over the matches. */
  method ExtractMawb(text: string) returns (r: Option<string>)
    ensures r == MawbIn(text)
  {
    if |text| == 0 {
      return None;
    }
    if '-' !in text {
      return None;
    }
    var ms := FindIter(text, 0);
    var t := 0;
    while t < |ms|
      invariant 0 <= t <= |ms|
      invariant FirstQualifying(text, ms) == FirstQualifying(text, ms[t..])
    {
      var m := ms[t];
      var left := KeepDigits(text[m.start..m.hyphen]);
      var right := KeepDigits(text[m.hyphen + 1..m.end]);
      MatchStep(text, ms, t);
      if |right| >= 8 && |left| >= 3 {
        return Some(left[|left| - 3..] + "-" + right[..8]);
      }
      t := t + 1;
    }
    return None;
  }

  /** One pass of the loop over the matches: the digit-only groups have the lengths of the
      runs, a qualifying match yields its MAWB, and any other match is skipped. */
  lemma MatchStep(s: string, ms: seq<Match>, t: nat)
    requires forall u :: 0 <= u < |ms| ==> IsMatch(s, ms[u])
    requires t < |ms| && IsMatch(s, ms[t])
    ensures var m := ms[t];
      var left := KeepDigits(s[m.start..m.hyphen]);
      var right := KeepDigits(s[m.hyphen + 1..m.end]);
      (|right| >= 8 && |left| >= 3 <==> Qualifies(m))
      && (Qualifies(m) ==> FirstQualifying(s, ms[t..]) == Some(left[|left| - 3..] + "-" + right[..8]))
      && (!Qualifies(m) ==> FirstQualifying(s, ms[t..]) == FirstQualifying(s, ms[t + 1..]))
  {
    var m := ms[t];
    assert ms[t..][0] == m && ms[t..][1..] == ms[t + 1..];
    RunDigits(s, m);
    var left := s[m.start..m.hyphen];
    var right := s[m.hyphen + 1..m.end];
    if Qualifies(m) {
      assert left[|left| - 3..] == s[m.hyphen - 3..m.hyphen];
      assert right[..8] == s[m.hyphen + 1..m.hyphen + 9];
    }
  }

  /** Every MAWB found has the fixed shape `DDD-DDDDDDDD`. */
  lemma {:induction false} FirstQualifyingShape(s: string, ms: seq<Match>)
    requires forall t :: 0 <= t < |ms| ==> IsMatch(s, ms[t])
    ensures FirstQualifying(s, ms).Some? ==> IsMawb(FirstQualifying(s, ms).value)
  {
    if ms != [] {
      if Qualifies(ms[0]) {
        var m := ms[0];
        var r := MawbOf(s, m);
        assert r[..3] == s[m.hyphen - 3..m.hyphen];
        assert r[4..] == s[m.hyphen + 1..m.hyphen + 9];
      } else {
        FirstQualifyingShape(s, ms[1..]);
      }
    }
  }

  lemma MawbInShape(text: string)
    ensures MawbIn(text).Some? ==> IsMawb(MawbIn(text).value)
  {
    if text != [] && '-' in text {
      FirstQualifyingShape(text, FindIter(text, 0));
    }
  }

  /** `r` is None exactly when no match of `ms` qualifies, and otherwise the MAWB of the
      first match (in scan order) that qualifies. */
  predicate FirstQualifyingChoice(s: string, ms: seq<Match>, r: Option<string>)
    requires forall t :: 0 <= t < |ms| ==> IsMatch(s, ms[t])
  {
    (r.None? <==> forall t :: 0 <= t < |ms| ==> !Qualifies(ms[t]))
    && (r.Some? ==>
          exists t :: 0 <= t < |ms| && Qualifies(ms[t])
            && (forall u :: 0 <= u < t ==> !Qualifies(ms[u]))
            && r.value == MawbOf(s, ms[t]))
  }

  /** The result is the first qualifying match, in scan order, or None when none qualifies. */
  lemma {:induction false} FirstQualifyingIsFirst(s: string, ms: seq<Match>)
    requires forall t :: 0 <= t < |ms| ==> IsMatch(s, ms[t])
    ensures FirstQualifyingChoice(s, ms, FirstQualifying(s, ms))
  {
    if ms != [] && !Qualifies(ms[0]) {
      FirstQualifyingIsFirst(s, ms[1..]);
      if FirstQualifying(s, ms).Some? {
        var t :| 0 <= t < |ms[1..]| && Qualifies(ms[1..][t])
          && (forall u :: 0 <= u < t ==> !Qualifies(ms[1..][u]))
          && FirstQualifying(s, ms[1..]).value == MawbOf(s, ms[1..][t]);
        assert ms[t + 1] == ms[1..][t];
        forall u | 0 <= u < t + 1
          ensures !Qualifies(ms[u])
        {
          if u > 0 {
            assert ms[u] == ms[1..][u - 1];
          }
        }
      } else {
        forall t | 0 <= t < |ms|
          ensures !Qualifies(ms[t])
        {
          if t > 0 {
            assert ms[t] == ms[1..][t - 1];
          }
        }
      }
    }
  }

  /** A text without `-` has no match at all. */
  lemma {:induction false} NoHyphenNoMatch(text: string, i: nat)
    requires i <= |text| && '-' !in text
    ensures FindIter(text, i) == []
    decreases |text| - i
  {
    if i < |text| {
      assert MatchAt(text, i).None?;
      NoHyphenNoMatch(text, i + 1);
    }
  }

  /** The MAWB found in `text` comes from the first match of the left-to-right scan with
      right run >= 8 and left run >= 3; None exactly when no match qualifies (which covers
      the empty text and a text with no `-`). */
  lemma MawbInSpec(text: string)
    ensures FirstQualifyingChoice(text, FindIter(text, 0), MawbIn(text))
  {
    if '-' !in text {
      NoHyphenNoMatch(text, 0);
    } else {
      FirstQualifyingIsFirst(text, FindIter(text, 0));
    }
  }

  /** The scan finds a match exactly when some `-` has a digit on each side; so a hyphen
      with a space (or any non-digit) beside it joins nothing, and a text like
      `180 - 50446970` yields no MAWB. */
  lemma JoinedHyphenMatches(text: string)
    ensures FindIter(text, 0) != [] <==> exists p :: HyphenBetweenDigits(text, p)
    ensures (forall p :: !HyphenBetweenDigits(text, p)) ==> MawbIn(text) == None
  {
    FindIterCovers(text, 0);
    var ms := FindIter(text, 0);
    if ms != [] {
      assert HyphenBetweenDigits(text, ms[0].hyphen);
    }
  }

  /** A hyphenated run of 8 and 8 digits: the last 3 of the left and the 8 of the right. */
  lemma ExampleLongLeftRun(s: string)
    requires s == "60701180-50446970"
    ensures MawbIn(s) == Some("180-50446970")
  {
    var m := Match(0, 8, 17);
    DigitRunOf(s, 9, 17);
    DigitRunOf(s, 0, 8);
    assert MatchAt(s, 0) == Some(m);
    assert FindIter(s, 17) == [];
    assert FindIter(s, 0) == [m];
    assert s[8] == '-';
    assert s[5..8] == "180" && s[9..17] == "50446970";
    assert MawbOf(s, m) == "180-50446970";
    assert FirstQualifying(s, [m]) == Some(MawbOf(s, m));
  }

  /** The scan does not overlap: `12-345` consumes the `345`, so `345-67890123` is never
      tried and no MAWB is found. */
  lemma ExampleNoOverlap(s: string)
    requires s == "12-345-67890123"
    ensures MawbIn(s) == None
  {
    DigitRunOf(s, 3, 6);
    DigitRunOf(s, 0, 2);
    assert MatchAt(s, 0) == Some(Match(0, 2, 6));
    NoMatchInTail(s, 6);
    var ms := FindIter(s, 0);
    assert ms == [Match(0, 2, 6)];
    assert s[2] == '-';
    assert !Qualifies(ms[0]) && ms[1..] == [];
    assert FirstQualifying(s, ms) == FirstQualifying(s, []);
  }

  /** A digit run is as long as the digits that make it up. */
  lemma {:induction false} DigitRunOf(s: string, i: nat, j: nat)
    requires i <= j <= |s| && (j == |s| || !IsDigit(s[j]))
    requires forall k :: i <= k < j ==> IsDigit(s[k])
    ensures DigitRun(s, i) == j - i
    decreases j - i
  {
    if i < j {
      DigitRunOf(s, i + 1, j);
    }
  }

  /** After the last hyphen and one position before it, no match can start. */
  lemma {:induction false} NoMatchInTail(s: string, i: nat)
    requires i <= |s| && forall k :: i < k < |s| ==> s[k] != '-'
    ensures FindIter(s, i) == []
    decreases |s| - i
  {
    if i < |s| {
      var j := i + DigitRun(s, i);
      assert j == i || s[j - 1] != '-';
      assert MatchAt(s, i).None?;
      NoMatchInTail(s, i + 1);
    }
  }
}

/**
 * `_normalize_text` (format.py): canonicalises one extracted line before any pattern is
 * matched against it. Invisible characters go, dash variants become `-`, whitespace runs
 * become one space and the ends are trimmed.
 */
module Normalize {
  import opened Text

  const NoBreakSpace: char := '\U{A0}'
  const ZeroWidthSpace: char := '\U{200B}'
  const ByteOrderMark: char := '\U{FEFF}'
  const EnDash: char := '\U{2013}'
  const EmDash: char := '\U{2014}'

  /** The hyphen and minus variants the replacement loop turns into `-`, in its order. */
  const Dashes: seq<char> := ['\U{2010}', '\U{2011}', '\U{2012}', EnDash, EmDash, '\U{2015}', '\U{2212}']

  /** Every character the normaliser rewrites, in the order it rewrites them. */
  const Special: seq<char> := Invisible + Dashes

  /** What one special character becomes; any other character stays itself. */
  function MapChar(c: char): string {
    if c == NoBreakSpace then " "
    else if c == ZeroWidthSpace || c == ByteOrderMark then ""
    else if c in Dashes then "-"
    else [c]
  }

  /** The text with the characters listed in `done` rewritten and all others kept. */
  function MapSome(s: string, done: seq<char>): string {
    if s == [] then [] else (if s[0] in done then MapChar(s[0]) else [s[0]]) + MapSome(s[1..], done)
  }

  /** Reference for the replacement chain: every special character rewritten in one pass. */
  function CharMap(s: string): string {
    MapSome(s, Special)
  }

  /** `re.sub(r'\s+', ' ', s)`: every maximal run of whitespace becomes one space. */
  function CollapseWhitespace(s: string): (r: string)
    ensures r == [] <==> s == []
    ensures r != [] ==> (IsSpace(r[0]) <==> IsSpace(s[0]))
    ensures SingleSpaced(r)
    ensures forall c :: c in r ==> c == ' ' || c in s
    decreases |s|
  {
    if s == [] then []
    else if IsSpace(s[0]) then " " + CollapseWhitespace(TrimStart(s[1..]))
    else [s[0]] + CollapseWhitespace(s[1..])
  }

  /** Every whitespace character is an ASCII space and no two are adjacent. */
  predicate SingleSpaced(s: string) {
    (forall i :: 0 <= i < |s| && IsSpace(s[i]) ==> s[i] == ' ')
    && (forall i :: 0 <= i < |s| - 1 ==> !(IsSpace(s[i]) && IsSpace(s[i + 1])))
  }

  /** The canonical form of a line: what `_normalize_text` returns. */
  function Normalized(s: string): string {
    Strip(CollapseWhitespace(CharMap(s)))
  }

  /** The shape every normalised line has. */
  predicate IsNormal(r: string) {
    Trimmed(r) && SingleSpaced(r) && forall i :: 0 <= i < |r| ==> r[i] !in Special
  }

  /** The characters removed or replaced before the dash loop. */
  const Invisible: seq<char> := [NoBreakSpace, ZeroWidthSpace, ByteOrderMark]

  /** `_normalize_text`: the replacement chain of the source, then collapse and trim. */
  method NormalizeText(s: string) returns (r: string)
    ensures r == Normalized(s)
  {
    var t := Replace(s, NoBreakSpace, " ");
    t := Replace(t, ZeroWidthSpace, "");
    t := Replace(t, ByteOrderMark, "");
    InvisibleReplaced(s);
    for k := 0 to |Dashes|
      invariant t == MapSome(s, Invisible + Dashes[..k])
    {
      DashReplaced(s, k);
      t := Replace(t, Dashes[k], "-");
    }
    // the explicit em- and en-dash replacements find nothing left to replace
    DashesGone(s);
    t := Replace(t, EmDash, "-");
    t := Replace(t, EnDash, "-");
    t := CollapseWhitespace(t);
    r := Strip(t);
  }

  /** The three replacements before the loop rewrite the invisible characters. */
  lemma InvisibleReplaced(s: string)
    ensures Replace(Replace(Replace(s, NoBreakSpace, " "), ZeroWidthSpace, ""), ByteOrderMark, "")
         == MapSome(s, Invisible + Dashes[..0])
  {
    MapSomeNone(s);
    assert MapChar(NoBreakSpace) == " " && MapChar(ZeroWidthSpace) == "" && MapChar(ByteOrderMark) == "";
    MapSomeStep(s, [], NoBreakSpace);
    assert [] + [NoBreakSpace] == [NoBreakSpace];
    MapSomeStep(s, [NoBreakSpace], ZeroWidthSpace);
    assert [NoBreakSpace] + [ZeroWidthSpace] == [NoBreakSpace, ZeroWidthSpace];
    MapSomeStep(s, [NoBreakSpace, ZeroWidthSpace], ByteOrderMark);
    assert [NoBreakSpace, ZeroWidthSpace] + [ByteOrderMark] == Invisible + Dashes[..0];
  }

  /** One pass of the dash loop rewrites one more dash variant. */
  lemma DashReplaced(s: string, k: nat)
    requires k < |Dashes|
    ensures Replace(MapSome(s, Invisible + Dashes[..k]), Dashes[k], "-")
         == MapSome(s, Invisible + Dashes[..k + 1])
  {
    assert MapChar(Dashes[k]) == "-";
    MapSomeStep(s, Invisible + Dashes[..k], Dashes[k]);
    assert Invisible + Dashes[..k + 1] == Invisible + Dashes[..k] + [Dashes[k]];
  }

  /** After the loop, the em- and en-dash replacements change nothing. */
  lemma DashesGone(s: string)
    ensures var t := MapSome(s, Invisible + Dashes[..|Dashes|]);
      Replace(Replace(t, EmDash, "-"), EnDash, "-") == CharMap(s)
  {
    assert Invisible + Dashes[..|Dashes|] == Special;
    MapSomeOmits(s, Special, EmDash);
    ReplaceAbsent(CharMap(s), EmDash, "-");
    MapSomeOmits(s, Special, EnDash);
    ReplaceAbsent(CharMap(s), EnDash, "-");
  }

  lemma {:induction false} MapSomeNone(s: string)
    ensures MapSome(s, []) == s
  {
    if s != [] {
      MapSomeNone(s[1..]);
    }
  }

  /** One `replace` of the chain rewrites one more special character. */
  lemma {:induction false} MapSomeStep(s: string, done: seq<char>, c: char)
    requires c in Special && c !in done
    requires forall d :: d in done ==> d in Special
    ensures Replace(MapSome(s, done), c, MapChar(c)) == MapSome(s, done + [c])
  {
    if s != [] {
      var head := if s[0] in done then MapChar(s[0]) else [s[0]];
      ReplaceConcat(head, MapSome(s[1..], done), c, MapChar(c));
      MapCharStep(s[0], done, c);
      MapSomeStep(s[1..], done, c);
    }
  }

  /** The step of `MapSomeStep` for one character. */
  lemma MapCharStep(x: char, done: seq<char>, c: char)
    requires c in Special && c !in done
    requires forall d :: d in done ==> d in Special
    ensures Replace(if x in done then MapChar(x) else [x], c, MapChar(c))
         == (if x in done + [c] then MapChar(x) else [x])
  {
    if x in done {
      assert x != c && x in Special;
      ReplaceAbsent(MapChar(x), c, MapChar(c));
    } else {
      assert Replace([x], c, MapChar(c)) == (if x == c then MapChar(c) else [x]) + Replace([], c, MapChar(c));
    }
  }

  /** A rewritten character no longer occurs. */
  lemma {:induction false} MapSomeOmits(s: string, done: seq<char>, c: char)
    requires c in done && c in Special
    ensures c !in MapSome(s, done)
  {
    if s != [] {
      MapSomeOmits(s[1..], done, c);
    }
  }

  /** A text without special characters is its own character map. */
  lemma {:induction false} MapSomeIdentity(s: string, done: seq<char>)
    requires forall i :: 0 <= i < |s| ==> s[i] !in done
    ensures MapSome(s, done) == s
  {
    if s != [] {
      MapSomeIdentity(s[1..], done);
    }
  }

  /** The character map leaves no special character behind. */
  lemma {:induction false} CharMapClean(s: string)
    ensures forall c :: c in CharMap(s) ==> c !in Special
  {
    if s != [] {
      CharMapClean(s[1..]);
      assert CharMap(s) == MapSome(s, Special);
    }
  }

  /** Collapsing keeps every character that is not whitespace, in order. */
  lemma {:induction false} CollapseKeepsText(s: string)
    ensures NonSpace(CollapseWhitespace(s)) == NonSpace(s)
    decreases |s|
  {
    if s != [] {
      if IsSpace(s[0]) {
        var t := TrimStart(s[1..]);
        CollapseKeepsText(t);
        NonSpaceConcat(" ", CollapseWhitespace(t));
        var u := s[1..];
        assert u == u[..SpaceRun(u, 0)] + t;
        NonSpaceConcat(u[..SpaceRun(u, 0)], t);
        NonSpaceOfSpaces(u[..SpaceRun(u, 0)]);
      } else {
        CollapseKeepsText(s[1..]);
        NonSpaceConcat([s[0]], CollapseWhitespace(s[1..]));
      }
    }
  }

  /** A whitespace run starting at `i` in `u` is the same run in `u + t`, unless it reaches
      the end of `u`; then it stops there too when `t` does not start with whitespace. */
  lemma {:induction false} SpaceRunConcat(u: string, t: string, i: nat)
    requires i <= |u|
    requires i + SpaceRun(u, i) == |u| ==> t == [] || !IsSpace(t[0])
    ensures SpaceRun(u + t, i) == SpaceRun(u, i)
    decreases |u| - i
  {
    if i < |u| {
      assert (u + t)[i] == u[i];
      if IsSpace(u[i]) {
        SpaceRunConcat(u, t, i + 1);
      }
    } else if t != [] {
      assert (u + t)[i] == t[0];
    }
  }

  /** `re.sub` works run by run: collapsing two texts that do not meet inside a whitespace
      run is collapsing each. */
  lemma {:induction false} CollapseConcat(u: string, t: string)
    requires u == [] || t == [] || !IsSpace(u[|u| - 1]) || !IsSpace(t[0])
    ensures CollapseWhitespace(u + t) == CollapseWhitespace(u) + CollapseWhitespace(t)
    decreases |u|, 1
  {
    if u == [] {
      assert u + t == t;
    } else if !IsSpace(u[0]) {
      CollapseConcatChar(u, t);
    } else {
      CollapseConcatSpace(u, t);
    }
  }

  lemma {:induction false} CollapseConcatChar(u: string, t: string)
    requires u != [] && !IsSpace(u[0])
    requires t == [] || !IsSpace(u[|u| - 1]) || !IsSpace(t[0])
    ensures CollapseWhitespace(u + t) == CollapseWhitespace(u) + CollapseWhitespace(t)
    decreases |u|, 0
  {
    if |u| > 1 {
      assert u[1..][|u| - 2] == u[|u| - 1];
    }
    CollapseConcat(u[1..], t);
    SliceConcat(u, t, 1);
    assert (u + t)[0] == u[0];
    CollapseCharHead(u + t);
    CollapseCharHead(u);
  }

  lemma {:induction false} CollapseConcatSpace(u: string, t: string)
    requires u != [] && IsSpace(u[0])
    requires t == [] || !IsSpace(u[|u| - 1]) || !IsSpace(t[0])
    ensures CollapseWhitespace(u + t) == CollapseWhitespace(u) + CollapseWhitespace(t)
    decreases |u|, 0
  {
    var v := u[1..];
    if |v| > 0 {
      assert u[|u| - 1] == v[|v| - 1];
    }
    CollapseHead(u, t);
    CollapseSpaceHead(u);
    var w := TrimStart(v);
    var cw, ct := CollapseWhitespace(w), CollapseWhitespace(t);
    if SpaceRun(v, 0) < |v| {
      assert w[|w| - 1] == u[|u| - 1];
      CollapseConcat(w, t);
      SeqAssoc(" ", cw, ct);
    } else {
      assert w == [] && w + t == t && cw == [];
      assert " " + cw == " ";
    }
  }

  lemma CollapseCharHead(x: string)
    requires x != [] && !IsSpace(x[0])
    ensures CollapseWhitespace(x) == [x[0]] + CollapseWhitespace(x[1..])
  {
  }

  /** A leading whitespace run of `u` in `u + t` collapses to one space before the rest. */
  lemma CollapseHead(u: string, t: string)
    requires u != [] && IsSpace(u[0])
    requires SpaceRun(u[1..], 0) == |u| - 1 ==> t == [] || !IsSpace(t[0])
    ensures CollapseWhitespace(u + t) == " " + CollapseWhitespace(TrimStart(u[1..]) + t)
  {
    CollapseSpaceHead(u + t);
    SliceConcat(u, t, 1);
    TrimStartConcat(u[1..], t);
  }

  lemma CollapseSpaceHead(x: string)
    requires x != [] && IsSpace(x[0])
    ensures CollapseWhitespace(x) == " " + CollapseWhitespace(TrimStart(x[1..]))
  {
  }

  /** Stripping the front of `v + t` strips the front of `v` when its run ends inside `v`. */
  lemma TrimStartConcat(v: string, t: string)
    requires SpaceRun(v, 0) == |v| ==> t == [] || !IsSpace(t[0])
    ensures TrimStart(v + t) == TrimStart(v) + t
  {
    SpaceRunConcat(v, t, 0);
    var k := SpaceRun(v, 0);
    SliceConcat(v, t, k);
  }

  /** A whitespace run between two other characters becomes exactly one space: it is
      neither dropped nor kept longer. */
  lemma CollapseSplit(a: string, w: string, b: string)
    requires a == [] || !IsSpace(a[|a| - 1])
    requires w != [] && AllSpace(w)
    requires b == [] || !IsSpace(b[0])
    ensures CollapseWhitespace(a + w + b) == CollapseWhitespace(a) + " " + CollapseWhitespace(b)
  {
    SeqAssoc(a, w, b);
    CollapseConcat(a, w + b);
    var v := w[1..];
    SpaceRunAll(v, 0);
    CollapseHead(w, b);
    assert TrimStart(v) == [] && TrimStart(v) + b == b;
    SeqAssoc(CollapseWhitespace(a), " ", CollapseWhitespace(b));
  }

  lemma {:induction false} SpaceRunAll(s: string, i: nat)
    requires i <= |s| && AllSpace(s)
    ensures SpaceRun(s, i) == |s| - i
    decreases |s| - i
  {
    if i < |s| {
      SpaceRunAll(s, i + 1);
    }
  }

  /** Collapsing keeps a last character that is not whitespace. */
  lemma CollapseKeepsLast(s: string)
    requires s != [] && !IsSpace(s[|s| - 1])
    ensures CollapseWhitespace(s) != [] && !IsSpace(CollapseWhitespace(s)[|CollapseWhitespace(s)| - 1])
  {
    var c := s[|s| - 1];
    assert s == s[..|s| - 1] + [c];
    CollapseConcat(s[..|s| - 1], [c]);
    assert CollapseWhitespace([c]) == [c] + CollapseWhitespace([]);
  }

  /** Normalising keeps words apart: two ordinary texts separated by whitespace normalise to
      their own normal forms joined by one space. So `180 - 50446970` keeps both spaces. */
  lemma NormalizedSplit(a: string, w: string, b: string)
    requires forall i :: 0 <= i < |a + w + b| ==> (a + w + b)[i] !in Special
    requires a != [] && Trimmed(a) && b != [] && Trimmed(b)
    requires w != [] && AllSpace(w)
    ensures Normalized(a + w + b) == Normalized(a) + " " + Normalized(b)
  {
    var s := a + w + b;
    MapSomeIdentity(s, Special);
    assert forall i :: 0 <= i < |a| ==> a[i] == s[i];
    assert forall i :: 0 <= i < |b| ==> b[i] == s[|a| + |w| + i];
    MapSomeIdentity(a, Special);
    MapSomeIdentity(b, Special);
    CollapseSplit(a, w, b);
    CollapseKeepsLast(a);
    CollapseKeepsLast(b);
    var ca := CollapseWhitespace(a);
    var cb := CollapseWhitespace(b);
    StripTrimmed(ca);
    StripTrimmed(cb);
    assert (ca + " " + cb)[0] == ca[0];
    assert (ca + " " + cb)[|ca + " " + cb| - 1] == cb[|cb| - 1];
    StripTrimmed(ca + " " + cb);
  }

  /** A single-spaced text is its own collapse. */
  lemma {:induction false} CollapseIdentity(s: string)
    requires SingleSpaced(s)
    ensures CollapseWhitespace(s) == s
  {
    if s != [] {
      if IsSpace(s[0]) {
        assert s[1..] == [] || !IsSpace(s[1..][0]);
        CollapseIdentity(s[1..]);
      } else {
        CollapseIdentity(s[1..]);
      }
    }
  }

  /** Every normalised line has no whitespace at its ends, only single ASCII spaces inside,
      and none of the invisible or dash characters. */
  lemma NormalizedIsNormal(s: string)
    ensures IsNormal(Normalized(s))
  {
    CollapsedClean(s);
    StripKeepsShape(CollapseWhitespace(CharMap(s)));
  }

  lemma CollapsedClean(s: string)
    ensures forall x :: x in CollapseWhitespace(CharMap(s)) ==> x !in Special
  {
    var m := CharMap(s);
    CharMapClean(s);
    assert ' ' !in Special;
    forall x | x in CollapseWhitespace(m)
      ensures x !in Special
    {
      assert x == ' ' || x in m;
    }
  }

  lemma StripKeepsShape(c: string)
    requires SingleSpaced(c)
    requires forall x :: x in c ==> x !in Special
    ensures IsNormal(Strip(c))
  {
    var a := StripSpec(c);
    SliceKeepsShape(c, a, a + |Strip(c)|);
  }

  lemma SliceKeepsShape(c: string, a: nat, b: nat)
    requires a <= b <= |c| && SingleSpaced(c)
    requires forall x :: x in c ==> x !in Special
    ensures SingleSpaced(c[a..b])
    ensures forall i :: 0 <= i < b - a ==> c[a..b][i] !in Special
  {
    var r := c[a..b];
    forall i | 0 <= i < |r|
      ensures r[i] !in Special
      ensures IsSpace(r[i]) ==> r[i] == ' '
    {
      assert r[i] == c[a + i];
    }
    forall i | 0 <= i < |r| - 1
      ensures !(IsSpace(r[i]) && IsSpace(r[i + 1]))
    {
      assert r[i] == c[a + i] && r[i + 1] == c[a + i + 1];
    }
  }

  /** Normalising keeps the text: apart from whitespace, the line is its character map. */
  lemma NormalizedKeepsText(s: string)
    ensures NonSpace(Normalized(s)) == NonSpace(CharMap(s))
  {
    NonSpaceStrip(CollapseWhitespace(CharMap(s)));
    CollapseKeepsText(CharMap(s));
  }

  /** Normalising twice is normalising once. */
  lemma NormalizedIdempotent(s: string)
    ensures Normalized(Normalized(s)) == Normalized(s)
  {
    var r := Normalized(s);
    NormalizedIsNormal(s);
    MapSomeIdentity(r, Special);
    CollapseIdentity(r);
    StripTrimmed(r);
  }

  /** A normalised line holds no line break (every whitespace left is a plain space). */
  lemma NormalizedSingleLine(s: string)
    ensures forall i :: 0 <= i < |Normalized(s)| ==> Normalized(s)[i] != '\n'
  {
    NormalizedIsNormal(s);
    assert IsSpace('\n');
  }
}

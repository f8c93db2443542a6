/**
 * read.py: `split_line_by_separators`, the shaping of extracted page texts into pages of
 * lines (or of token lists) in `read_pdf_to_array`, and `read`. The text extraction itself
 * (PyPDF2) is an input: either the page texts or a failure.
 */
module Read {
  import opened Wrappers
  import opened Text

  /** What the PDF library gives for a file: one text per page, or a failure (the library
      is missing or cannot open the file). */
  datatype Extraction = Extracted(texts: seq<string>) | ExtractFailed

  /** The exceptions `read_pdf_to_array` lets through. */
  datatype ReadError = FileNotFound | ExtractError

  /** One entry of `pages_out`: the lines of a page, or with `split_tokens` the tokens of
      each line. */
  datatype Page = Lines(lines: seq<string>) | TokenLines(tokens: seq<seq<string>>)

  /** The separators used when none are given. */
  const DefaultSeparators: string := ",;|\t"

  /** `re.split(pattern, line)` for the character class of `seps`: the pieces between
      separator characters, empty ones included. */
  function Pieces(line: string, seps: string): (r: seq<string>)
    ensures |r| >= 1
    ensures forall j :: 0 <= j < |r| ==> forall k :: 0 <= k < |r[j]| ==> r[j][k] !in seps
  {
    if line == [] then [[]]
    else
      var tail := Pieces(line[1..], seps);
      if line[0] in seps then [[]] + tail else [[line[0]] + tail[0]] + tail[1..]
  }

  /** `[t.strip() for t in pieces]` followed by `[t for t in tokens if t != ""]`. */
  function StripNonEmpty(pieces: seq<string>): (r: seq<string>)
    ensures |r| <= |pieces|
  {
    if pieces == [] then []
    else
      var t := Strip(pieces[0]);
      (if t != "" then [t] else []) + StripNonEmpty(pieces[1..])
  }

  /** `split_line_by_separators(line, separators)` */
  function SplitLineBySeparators(line: string, seps: string): seq<string> {
    if seps == [] then (if Strip(line) != "" then [Strip(line)] else [])
    else StripNonEmpty(Pieces(line, seps))
  }

  /** The characters of `line` that are not separators, in order. */
  function WithoutSeparators(line: string, seps: string): string {
    if line == [] then [] else (if line[0] in seps then [] else [line[0]]) + WithoutSeparators(line[1..], seps)
  }

  /** The strings of `ts` written one after another. */
  function Concat(ts: seq<string>): string {
    if ts == [] then [] else ts[0] + Concat(ts[1..])
  }

  /** The pieces of a split are the line cut at its separators: written one after another
      they give back the line without its separators. */
  lemma {:induction false} PiecesConcat(line: string, seps: string)
    ensures Concat(Pieces(line, seps)) == WithoutSeparators(line, seps)
  {
    if line != [] {
      PiecesConcat(line[1..], seps);
      var tail := Pieces(line[1..], seps);
      if line[0] !in seps {
        ConcatCons(tail);
        assert Concat([[line[0]] + tail[0]] + tail[1..]) == [line[0]] + tail[0] + Concat(tail[1..]);
      }
    }
  }

  /** The separator characters of `line`, in order: where `re.split` cuts. */
  function SeparatorsIn(line: string, seps: string): string {
    if line == [] then [] else (if line[0] in seps then [line[0]] else []) + SeparatorsIn(line[1..], seps)
  }

  /** `pieces` written out with `delims[k]` between piece `k` and piece `k + 1`. */
  function Interleave(pieces: seq<string>, delims: string): string
    requires |pieces| == |delims| + 1
  {
    if delims == [] then pieces[0] else pieces[0] + [delims[0]] + Interleave(pieces[1..], delims[1..])
  }

  /** `re.split` cuts at every separator character and nowhere else: there is one piece more
      than the line has separators, and putting the separators back between the pieces, in
      order, gives back the line. With no piece holding a separator, this fixes the pieces. */
  lemma {:induction false} PiecesRoundTrip(line: string, seps: string)
    ensures |Pieces(line, seps)| == |SeparatorsIn(line, seps)| + 1
    ensures Interleave(Pieces(line, seps), SeparatorsIn(line, seps)) == line
  {
    if line != [] {
      PiecesRoundTrip(line[1..], seps);
      var tail := Pieces(line[1..], seps);
      var ds := SeparatorsIn(line[1..], seps);
      assert line == [line[0]] + line[1..];
      if line[0] in seps {
        var ps := [[]] + tail;
        var d := [line[0]] + ds;
        assert ps[0] == [] && ps[1..] == tail && d[0] == line[0] && d[1..] == ds;
        assert Interleave(ps, d) == [] + [line[0]] + Interleave(tail, ds);
      } else {
        assert Pieces(line, seps) == [[line[0]] + tail[0]] + tail[1..];
        assert SeparatorsIn(line, seps) == ds;
        InterleaveHead([line[0]], tail, ds);
      }
    }
  }

  lemma InterleaveHead(h: string, pieces: seq<string>, delims: string)
    requires |pieces| == |delims| + 1
    ensures Interleave([h + pieces[0]] + pieces[1..], delims) == h + Interleave(pieces, delims)
  {
    var ps := [h + pieces[0]] + pieces[1..];
    assert ps[0] == h + pieces[0] && ps[1..] == pieces[1..];
  }

  lemma ConcatCons(ts: seq<string>)
    requires ts != []
    ensures Concat(ts) == ts[0] + Concat(ts[1..])
  {
  }

  /** Every token is non-empty, has no whitespace at either end and holds no separator. */
  lemma {:induction false} StripNonEmptyTokens(pieces: seq<string>, seps: string)
    requires forall j :: 0 <= j < |pieces| ==> forall k :: 0 <= k < |pieces[j]| ==> pieces[j][k] !in seps
    ensures forall j :: 0 <= j < |StripNonEmpty(pieces)| ==>
      var t := StripNonEmpty(pieces)[j];
      t != [] && Trimmed(t) && forall k :: 0 <= k < |t| ==> t[k] !in seps
  {
    if pieces != [] {
      StripNonEmptyTokens(pieces[1..], seps);
      var a := StripSpec(pieces[0]);
      var t := Strip(pieces[0]);
      forall k | 0 <= k < |t|
        ensures t[k] !in seps
      {
        assert t[k] == pieces[0][a + k];
      }
    }
  }

  /** Stripping and dropping empty tokens loses only whitespace. */
  lemma {:induction false} StripNonEmptyText(pieces: seq<string>)
    ensures NonSpace(Concat(StripNonEmpty(pieces))) == NonSpace(Concat(pieces))
  {
    if pieces != [] {
      StripNonEmptyText(pieces[1..]);
      var t := Strip(pieces[0]);
      var rest := StripNonEmpty(pieces[1..]);
      NonSpaceStrip(pieces[0]);
      NonSpaceConcat(pieces[0], Concat(pieces[1..]));
      if t != "" {
        assert StripNonEmpty(pieces) == [t] + rest;
        ConcatCons([t] + rest);
        assert ([t] + rest)[1..] == rest;
        NonSpaceConcat(t, Concat(rest));
      } else {
        assert StripNonEmpty(pieces) == rest;
        assert NonSpace(t) == [];
      }
    }
  }

  /** What `split_line_by_separators` promises of each token: not empty, no whitespace at
      either end, no separator inside. */
  predicate IsToken(t: string, seps: string) {
    t != [] && Trimmed(t) && forall k :: 0 <= k < |t| ==> t[k] !in seps
  }

  /** The tokens of a line: each is a token, there is at most one more of them than the line
      has separators, and apart from whitespace they are the line without its separators, in
      their left-to-right order. */
  lemma SplitLineTokens(line: string, seps: string)
    ensures var ts := SplitLineBySeparators(line, seps);
      forall j :: 0 <= j < |ts| ==> IsToken(ts[j], seps)
    ensures |SplitLineBySeparators(line, seps)| <= |SeparatorsIn(line, seps)| + 1
    ensures NonSpace(Concat(SplitLineBySeparators(line, seps))) == NonSpace(WithoutSeparators(line, seps))
  {
    if seps == [] {
      NoSeparatorsTokens(line, seps);
    } else {
      StripNonEmptyTokens(Pieces(line, seps), seps);
      StripNonEmptyText(Pieces(line, seps));
      PiecesConcat(line, seps);
      PiecesRoundTrip(line, seps);
    }
  }

  lemma NoSeparatorsTokens(line: string, seps: string)
    requires seps == []
    ensures var ts := SplitLineBySeparators(line, seps);
      forall j :: 0 <= j < |ts| ==> ts[j] != [] && Trimmed(ts[j])
    ensures NonSpace(Concat(SplitLineBySeparators(line, seps))) == NonSpace(WithoutSeparators(line, seps))
  {
    var a := StripSpec(line);
    NoSeparatorsText(line, seps);
  }

  lemma NoSeparatorsText(line: string, seps: string)
    requires seps == []
    ensures NonSpace(Concat(SplitLineBySeparators(line, seps))) == NonSpace(WithoutSeparators(line, seps))
  {
    var t := Strip(line);
    NonSpaceStrip(line);
    WithoutNoSeparators(line, seps);
    if t != [] {
      assert SplitLineBySeparators(line, seps) == [t];
      ConcatOne(t);
    } else {
      assert SplitLineBySeparators(line, seps) == [];
    }
  }

  lemma ConcatOne(t: string)
    ensures Concat([t]) == t
  {
    assert [t][1..] == [];
  }

  lemma {:induction false} WithoutNoSeparators(line: string, seps: string)
    requires seps == []
    ensures WithoutSeparators(line, seps) == line
  {
    if line != [] {
      WithoutNoSeparators(line[1..], seps);
    }
  }

  /** A line holding none of the separator characters, whichever they are, is one token: the
      line stripped, or none when it is blank. */
  lemma NoSeparatorsOneToken(line: string, seps: string)
    requires forall k :: 0 <= k < |line| ==> line[k] !in seps
    ensures SplitLineBySeparators(line, seps) == (if Strip(line) == "" then [] else [Strip(line)])
  {
    if seps != [] {
      PiecesNoSeparators(line, seps);
      assert [line][1..] == [];
    }
  }

  lemma PiecesKeep(c: char, rest: string, seps: string)
    requires c !in seps
    ensures var tail := Pieces(rest, seps); Pieces([c] + rest, seps) == [[c] + tail[0]] + tail[1..]
  {
    assert ([c] + rest)[1..] == rest;
  }

  lemma PiecesCut(c: char, rest: string, seps: string)
    requires c in seps
    ensures Pieces([c] + rest, seps) == [[]] + Pieces(rest, seps)
  {
    assert ([c] + rest)[1..] == rest;
  }

  /** `re.split` leaves a line without separators whole. */
  lemma {:induction false} PiecesNoSeparators(line: string, seps: string)
    requires forall k :: 0 <= k < |line| ==> line[k] !in seps
    ensures Pieces(line, seps) == [line]
  {
    if line != [] {
      PiecesNoSeparators(line[1..], seps);
      assert line == [line[0]] + line[1..];
    }
  }

  /** `split_line_by_separators("a, b;;c", ",;|\t")` gives the three fields stripped; the empty
      field between `;;` is dropped. */
  lemma ExampleSplit(line: string)
    requires line == "a, b;;c"
    ensures SplitLineBySeparators(line, DefaultSeparators) == ["a", "b", "c"]
  {
    ExamplePieces(line);
    StripExample();
    assert StripNonEmpty(["c"]) == ["c"];
    assert StripNonEmpty(["", "c"]) == ["c"];
    assert StripNonEmpty([" b", "", "c"]) == ["b", "c"];
  }

  lemma StripExample()
    ensures Strip(" b") == "b" && Strip("a") == "a" && Strip("c") == "c" && Strip("") == ""
  {
    assert SpaceRun(" b", 0) == 1;
  }

  /** `re.split` of the same line: four pieces, the third empty. */
  lemma ExamplePieces(line: string)
    requires line == "a, b;;c"
    ensures Pieces(line, DefaultSeparators) == ["a", " b", "", "c"]
  {
    PiecesOfComma();
    assert Pieces(line, DefaultSeparators) == [['a'] + ""] + ["", " b", "", "c"][1..] by {
      assert line == ['a'] + ", b;;c";
      PiecesKeep('a', ", b;;c", DefaultSeparators);
    }
    assert ['a'] + "" == "a";
  }

  lemma PiecesOfComma()
    ensures Pieces(", b;;c", DefaultSeparators) == ["", " b", "", "c"]
  {
    PiecesOfSpacedB();
    PiecesCut(',', " b;;c", DefaultSeparators);
  }

  lemma PiecesOfSpacedB()
    ensures Pieces(" b;;c", DefaultSeparators) == [" b", "", "c"]
  {
    PiecesOfSemicolons();
    PiecesKeep('b', ";;c", DefaultSeparators);
    assert ['b'] + "" == "b";
    PiecesKeep(' ', "b;;c", DefaultSeparators);
    assert [' '] + "b" == " b";
  }

  lemma PiecesOfSemicolons()
    ensures Pieces(";;c", DefaultSeparators) == ["", "", "c"]
  {
    assert Pieces("", DefaultSeparators) == [""];
    PiecesKeep('c', "", DefaultSeparators);
    assert ['c'] + "" == "c";
    PiecesCut(';', "c", DefaultSeparators);
    PiecesCut(';', ";c", DefaultSeparators);
  }

  /** A page of only whitespace (or nothing) gives no lines. */
  predicate Blank(text: string) {
    Strip(text) == ""
  }

  /** The entry of `pages_out` for one page text. */
  function ShapePage(text: string, seps: string, splitTokens: bool): Page {
    if Blank(text) then (if splitTokens then TokenLines([]) else Lines([]))
    else
      var lines := SplitLines(text);
      if splitTokens then TokenLines(seq(|lines|, j requires 0 <= j < |lines| => SplitLineBySeparators(lines[j], seps)))
      else Lines(lines)
  }

  /** The separators `read_pdf_to_array` uses. */
  function SeparatorsOf(separators: Option<string>): string {
    if separators.Some? then separators.value else DefaultSeparators
  }

  /** What `read_pdf_to_array(path, separators, split_tokens)` returns or raises. */
  function ReadPdfOf(pathExists: bool, extraction: Extraction, separators: Option<string>, splitTokens: bool)
    : Result<seq<Page>, ReadError>
  {
    if !pathExists then Err(FileNotFound)
    else match extraction
      case ExtractFailed => Err(ExtractError)
      case Extracted(texts) =>
        var seps := SeparatorsOf(separators);
        Ok(seq(|texts|, j requires 0 <= j < |texts| => ShapePage(texts[j], seps, splitTokens)))
  }

  /** `read_pdf_to_array`: the missing-file check before any extraction, then one entry per
      page text appended in order. */
  method ReadPdfToArray(pathExists: bool, extraction: Extraction, separators: Option<string>, splitTokens: bool)
    returns (r: Result<seq<Page>, ReadError>)
    ensures r == ReadPdfOf(pathExists, extraction, separators, splitTokens)
  {
    if !pathExists {
      return Err(FileNotFound);
    }
    if extraction.ExtractFailed? {
      return Err(ExtractError);
    }
    var texts := extraction.texts;
    var pagesOut: seq<Page> := [];
    var sep := if separators.Some? then separators.value else DefaultSeparators;
    for i := 0 to |texts|
      invariant |pagesOut| == i
      invariant forall j :: 0 <= j < i ==> pagesOut[j] == ShapePage(texts[j], sep, splitTokens)
    {
      var pageLines := ShapeOnePage(texts[i], sep, splitTokens);
      pagesOut := pagesOut + [pageLines];
    }
    assert pagesOut == seq(|texts|, j requires 0 <= j < |texts| => ShapePage(texts[j], SeparatorsOf(separators), splitTokens));
    return Ok(pagesOut);
  }

  /** The body of the loop of `read_pdf_to_array`: `[]` for a blank page, otherwise its
      `splitlines()`, each line split into tokens with `split_tokens`. */
  method ShapeOnePage(pageText: string, sep: string, splitTokens: bool) returns (pageLines: Page)
    ensures pageLines == ShapePage(pageText, sep, splitTokens)
  {
    if Strip(pageText) == "" {
      return if splitTokens then TokenLines([]) else Lines([]);
    }
    var lines := SplitLines(pageText);
    if splitTokens {
      pageLines := TokenLines(seq(|lines|, j requires 0 <= j < |lines| => SplitLineBySeparators(lines[j], sep)));
    } else {
      pageLines := Lines(lines);
    }
  }

  /** The lines of one page text as `read` gives them. */
  function PageLines(text: string): seq<string> {
    if Blank(text) then [] else SplitLines(text)
  }

  /** What `read(path)` returns or raises. */
  function ReadOf(pathExists: bool, extraction: Extraction): Result<seq<seq<string>>, ReadError> {
    if !pathExists then Err(FileNotFound)
    else match extraction
      case ExtractFailed => Err(ExtractError)
      case Extracted(texts) => Ok(seq(|texts|, j requires 0 <= j < |texts| => PageLines(texts[j])))
  }

  /** `read`: `read_pdf_to_array` without tokenising. */
  method ReadFile(pathExists: bool, extraction: Extraction) returns (r: Result<seq<seq<string>>, ReadError>)
    ensures r == ReadOf(pathExists, extraction)
  {
    var pages := ReadPdfToArray(pathExists, extraction, None, false);
    if pages.Err? {
      return Err(pages.error);
    }
    var out := seq(|pages.value|, j requires 0 <= j < |pages.value| => pages.value[j].lines);
    forall j | 0 <= j < |out|
      ensures out[j] == PageLines(extraction.texts[j])
    {
      assert pages.value[j] == ShapePage(extraction.texts[j], DefaultSeparators, false);
    }
    assert out == seq(|extraction.texts|, j requires 0 <= j < |extraction.texts| => PageLines(extraction.texts[j]));
    return Ok(out);
  }

  /** An entry of `pages_out` that holds no line. */
  predicate EmptyPage(page: Page) {
    if page.Lines? then page.lines == [] else page.tokens == []
  }

  /** `read_pdf_to_array` succeeds exactly when the file exists and the PDF library reads it.
      It then gives one entry per page, a token page exactly with `split_tokens`, empty
      exactly for a blank page. No line holds a line break; every token is a token for the
      separators given, or for `,;|\t` when none are. */
  lemma ReadPdfSpec(pathExists: bool, extraction: Extraction, separators: Option<string>, splitTokens: bool)
    ensures ReadPdfOf(pathExists, extraction, separators, splitTokens).Ok? <==> pathExists && extraction.Extracted?
    ensures ReadPdfOf(pathExists, extraction, separators, splitTokens).Ok? ==>
      var pages := ReadPdfOf(pathExists, extraction, separators, splitTokens).value;
      var texts := extraction.texts;
      |pages| == |texts|
      && forall j :: 0 <= j < |texts| ==>
           (pages[j].TokenLines? <==> splitTokens)
           && (EmptyPage(pages[j]) <==> Blank(texts[j]))
           && (pages[j].Lines? ==> forall k :: 0 <= k < |pages[j].lines| ==> NoBreaks(pages[j].lines[k]))
           && (pages[j].TokenLines? ==>
                 forall k, m :: 0 <= k < |pages[j].tokens| && 0 <= m < |pages[j].tokens[k]| ==>
                   IsToken(pages[j].tokens[k][m], SeparatorsOf(separators)))
  {
    if pathExists && extraction.Extracted? {
      var texts := extraction.texts;
      var seps := SeparatorsOf(separators);
      forall j | 0 <= j < |texts|
        ensures var page := ShapePage(texts[j], seps, splitTokens);
          (page.TokenLines? <==> splitTokens)
          && (EmptyPage(page) <==> Blank(texts[j]))
          && (page.Lines? ==> forall k :: 0 <= k < |page.lines| ==> NoBreaks(page.lines[k]))
          && (page.TokenLines? ==>
                forall k, m :: 0 <= k < |page.tokens| && 0 <= m < |page.tokens[k]| ==> IsToken(page.tokens[k][m], seps))
      {
        ShapePageSpec(texts[j], seps, splitTokens);
      }
    }
  }

  lemma ShapePageSpec(text: string, seps: string, splitTokens: bool)
    ensures var page := ShapePage(text, seps, splitTokens);
      (page.TokenLines? <==> splitTokens)
      && (EmptyPage(page) <==> Blank(text))
      && (page.Lines? ==> forall k :: 0 <= k < |page.lines| ==> NoBreaks(page.lines[k]))
      && (page.TokenLines? ==>
            forall k, m :: 0 <= k < |page.tokens| && 0 <= m < |page.tokens[k]| ==> IsToken(page.tokens[k][m], seps))
  {
    if !Blank(text) {
      var lines := SplitLines(text);
      SplitLinesNonEmpty(text);
      SplitLinesNoBreaks(text);
      forall k | 0 <= k < |lines|
        ensures forall m :: 0 <= m < |SplitLineBySeparators(lines[k], seps)| ==>
          IsToken(SplitLineBySeparators(lines[k], seps)[m], seps)
      {
        SplitLineTokens(lines[k], seps);
      }
    }
  }

  /** `read` gives, for each page, the lines of its text: none for a blank page; otherwise
      lines without breaks that, each ended by `\n`, are the page text with every line
      boundary written as `\n`. */
  lemma ReadSpec(pathExists: bool, texts: seq<string>)
    ensures var r := ReadOf(pathExists, Extracted(texts));
      pathExists ==>
        r.Ok? && |r.value| == |texts|
        && forall j :: 0 <= j < |texts| ==>
             (Blank(texts[j]) <==> r.value[j] == [])
             && (forall k :: 0 <= k < |r.value[j]| ==> NoBreaks(r.value[j][k]))
             && (!Blank(texts[j]) ==> Terminated(r.value[j]) == UnifyBreaks(texts[j]))
  {
    if pathExists {
      forall j | 0 <= j < |texts|
        ensures var lines := PageLines(texts[j]);
          (Blank(texts[j]) <==> lines == [])
          && (forall k :: 0 <= k < |lines| ==> NoBreaks(lines[k]))
          && (!Blank(texts[j]) ==> Terminated(lines) == UnifyBreaks(texts[j]))
      {
        SplitLinesNoBreaks(texts[j]);
        if !Blank(texts[j]) {
          SplitLinesNonEmpty(texts[j]);
          SplitLinesUnify(texts[j]);
        }
      }
    }
  }

  /** A text that is not blank has at least one line. */
  lemma SplitLinesNonEmpty(text: string)
    requires !Blank(text)
    ensures SplitLines(text) != []
  {
    assert text != [];
  }
}

/**
 * `find` and `format` (format.py): scan a document, given as pages of lines, for the first
 * line that yields a MAWB and for the first line that holds a total, in page-then-line order,
 * and project the two results into a `{mawb, total}` pair.
 */
module Format {
  import opened Wrappers
  import opened Text
  import opened Normalize
  import opened Mawb
  import opened Total
  import opened Read

  /** A value found on a line: where it was found (page and line, both 0-based) and the
      original, unnormalised text of that line. */
  datatype Hit<T> = Hit(value: T, page: nat, line: nat, text: string)

  /** `code_result`: the MAWB, the 1-based line number within its page, the original line. */
  datatype CodeHit = CodeHit(mawb: string, lineNo: nat, text: string)

  /** `total_result`: the amount, the 1-based page and line numbers, the original line. */
  datatype TotalHit = TotalHit(amount: string, pageNo: nat, lineNo: nat, text: string)

  /** What `format` returns: `{'mawb': ..., 'total': ...}`. */
  datatype Fields = Fields(mawb: Option<string>, total: Option<string>)

  /** The MAWB a line yields: normalise, skip it when empty, apply the 4-step rule. */
  function LineMawb(line: string): Option<string> {
    var norm := Normalized(line);
    if norm == [] then None else MawbIn(norm)
  }

  /** The total a line yields: normalise, skip it when empty, match the total line pattern;
      the amount is taken from what follows the word. */
  function LineTotal(line: string): Option<string> {
    var norm := Normalized(line);
    if norm == [] then None
    else match TotalRest(norm)
      case None => None
      case Some(rest) => Some(Amount(rest))
  }

  /** The first line of page `p`, from line `l` on, for which `f` yields a value. */
  function FirstInPage<T>(pages: seq<seq<string>>, f: string -> Option<T>, p: nat, l: nat): (r: Option<Hit<T>>)
    requires p < |pages| && l <= |pages[p]|
    ensures r.Some? ==>
      r.value.page == p && l <= r.value.line < |pages[p]|
      && r.value.text == pages[p][r.value.line] && f(r.value.text) == Some(r.value.value)
    decreases |pages[p]| - l
  {
    if l == |pages[p]| then None
    else match f(pages[p][l])
      case Some(v) => Some(Hit(v, p, l, pages[p][l]))
      case None => FirstInPage(pages, f, p, l + 1)
  }

  /** The first line, in page-then-line order from page `p` on, for which `f` yields a value. */
  function FirstFrom<T>(pages: seq<seq<string>>, f: string -> Option<T>, p: nat): (r: Option<Hit<T>>)
    requires p <= |pages|
    ensures r.Some? ==>
      p <= r.value.page < |pages| && r.value.line < |pages[r.value.page]|
      && r.value.text == pages[r.value.page][r.value.line] && f(r.value.text) == Some(r.value.value)
    decreases |pages| - p
  {
    if p == |pages| then None
    else match FirstInPage(pages, f, p, 0)
      case Some(h) => Some(h)
      case None => FirstFrom(pages, f, p + 1)
  }

  /** `code_result` for a hit: the MAWB, the 1-based line number, the original line. */
  function AsCode(h: Option<Hit<string>>): Option<CodeHit> {
    match h
    case None => None
    case Some(h) => Some(CodeHit(h.value, h.line + 1, h.text))
  }

  /** `total_result` for a hit: the amount, the 1-based page and line numbers, the line. */
  function AsTotal(h: Option<Hit<string>>): Option<TotalHit> {
    match h
    case None => None
    case Some(h) => Some(TotalHit(h.value, h.page + 1, h.line + 1, h.text))
  }

  /** The MAWB result of `find`: page 1 line by line first, then every page from the first. */
  function DocumentCode(pages: seq<seq<string>>): Option<CodeHit> {
    if pages == [] then None
    else if FirstInPage(pages, LineMawb, 0, 0).Some? then AsCode(FirstInPage(pages, LineMawb, 0, 0))
    else AsCode(FirstFrom(pages, LineMawb, 0))
  }

  /** The total result of `find`: the first line in page-then-line order that has one. */
  function DocumentTotal(pages: seq<seq<string>>): Option<TotalHit> {
    AsTotal(FirstFrom(pages, LineTotal, 0))
  }

  /** `find`, on the pages `read` returned: the MAWB scans, then the total scan. */
  method Find(pages: seq<seq<string>>) returns (code: Option<CodeHit>, total: Option<TotalHit>)
    ensures code == DocumentCode(pages)
    ensures total == DocumentTotal(pages)
  {
    if |pages| == 0 {
      return None, None;
    }
    code := FindCode(pages);
    total := FindTotal(pages);
  }

  /** The MAWB part of `find`: page 1 line by line, then every page from the first, each
      stopping at the first MAWB. */
  method FindCode(pages: seq<seq<string>>) returns (code: Option<CodeHit>)
    requires pages != []
    ensures code == DocumentCode(pages)
  {
    // 1) page 1, line by line
    code := ScanPageForMawb(pages, 0);
    if code.Some? {
      return;
    }
    // 2) every page, from the first
    var pno := 0;
    while pno < |pages|
      invariant pno <= |pages|
      invariant FirstFrom(pages, LineMawb, 0) == FirstFrom(pages, LineMawb, pno)
      invariant code == None
    {
      code := ScanPageForMawb(pages, pno);
      if code.Some? {
        break;
      }
      pno := pno + 1;
    }
  }

  /** The total part of `find`: every page, line by line, stopping at the first total line. */
  method FindTotal(pages: seq<seq<string>>) returns (total: Option<TotalHit>)
    ensures total == DocumentTotal(pages)
  {
    total := None;
    var pno := 0;
    while pno < |pages|
      invariant pno <= |pages|
      invariant FirstFrom(pages, LineTotal, 0) == FirstFrom(pages, LineTotal, pno)
      invariant total == None
    {
      total := ScanPageForTotal(pages, pno);
      if total.Some? {
        break;
      }
      pno := pno + 1;
    }
  }

  /** The line loop of the MAWB scans over page `p`, stopping at the first MAWB. */
  method ScanPageForMawb(pages: seq<seq<string>>, p: nat) returns (code: Option<CodeHit>)
    requires p < |pages|
    ensures code == AsCode(FirstInPage(pages, LineMawb, p, 0))
  {
    var page := pages[p];
    var idx := 0;
    while idx < |page|
      invariant idx <= |page|
      invariant FirstInPage(pages, LineMawb, p, 0) == FirstInPage(pages, LineMawb, p, idx)
    {
      var mawb := MawbOfLine(page[idx]);
      if mawb.Some? {
        var hit := Hit(mawb.value, p, idx, page[idx]);
        assert FirstInPage(pages, LineMawb, p, idx) == Some(hit);
        return AsCode(Some(hit));
      }
      idx := idx + 1;
    }
    assert FirstInPage(pages, LineMawb, p, idx) == None;
    return None;
  }

  /** The line loop of the total scan over page `p`, stopping at the first total line. */
  method ScanPageForTotal(pages: seq<seq<string>>, p: nat) returns (total: Option<TotalHit>)
    requires p < |pages|
    ensures total == AsTotal(FirstInPage(pages, LineTotal, p, 0))
  {
    var page := pages[p];
    var lno := 0;
    while lno < |page|
      invariant lno <= |page|
      invariant FirstInPage(pages, LineTotal, p, 0) == FirstInPage(pages, LineTotal, p, lno)
    {
      var amount := TotalOfLine(page[lno]);
      if amount.Some? {
        var hit := Hit(amount.value, p, lno, page[lno]);
        assert FirstInPage(pages, LineTotal, p, lno) == Some(hit);
        return AsTotal(Some(hit));
      }
      lno := lno + 1;
    }
    return None;
  }

  /** One line of the MAWB scans: normalise, skip an empty line, extract. */
  method MawbOfLine(line: string) returns (mawb: Option<string>)
    ensures mawb == LineMawb(line)
  {
    var norm := NormalizeText(line);
    if norm == [] {
      return None;
    }
    mawb := ExtractMawb(norm);
  }

  /** One line of the total scan: normalise, skip an empty line, search the line pattern and
      then the amount pattern in what it captured. */
  method TotalOfLine(line: string) returns (amount: Option<string>)
    ensures amount == LineTotal(line)
  {
    var norm := NormalizeText(line);
    if norm == [] {
      return None;
    }
    var rest := TotalRest(norm);
    if rest.None? {
      return None;
    }
    amount := Some(Amount(rest.value));
  }

  /** The projection `format` makes of what `find` returns. */
  function Project(code: Option<CodeHit>, total: Option<TotalHit>): (r: Fields)
    ensures r.mawb.Some? <==> code.Some?
    ensures r.total.Some? <==> total.Some?
    ensures code.Some? ==> r.mawb.value == code.value.mawb
    ensures total.Some? ==> r.total.value == total.value.amount
  {
    Fields(if code.Some? then Some(code.value.mawb) else None,
           if total.Some? then Some(total.value.amount) else None)
  }

  /** What `format(filename)` returns for a file, or the error `read` raises. */
  function FormatOf(pathExists: bool, extraction: Extraction): Result<Fields, ReadError> {
    match ReadOf(pathExists, extraction)
    case Err(e) => Err(e)
    case Ok(pages) => Ok(Project(DocumentCode(pages), DocumentTotal(pages)))
  }

  /** `format`: read the file, `find`, project; an error of `read` propagates. */
  method FormatFile(pathExists: bool, extraction: Extraction) returns (r: Result<Fields, ReadError>)
    ensures r == FormatOf(pathExists, extraction)
  {
    var pages := ReadFile(pathExists, extraction);
    if pages.Err? {
      return Err(pages.error);
    }
    var code, total := Find(pages.value);
    r := Ok(Project(code, total));
  }

  // ---- properties of the scans ----

  /** `(p, l)` comes before `(p', l')` in page-then-line order. */
  predicate Before(p: nat, l: nat, p': nat, l': nat) {
    p < p' || (p == p' && l < l')
  }

  /** The scan of one page finds the first line from `l` on that yields a value, and finds
      nothing exactly when no such line exists. */
  lemma {:induction false} FirstInPageSpec<T>(pages: seq<seq<string>>, f: string -> Option<T>, p: nat, l: nat)
    requires p < |pages| && l <= |pages[p]|
    ensures FirstInPage(pages, f, p, l).None? <==> forall l' :: l <= l' < |pages[p]| ==> f(pages[p][l']).None?
    ensures FirstInPage(pages, f, p, l).Some? ==>
      forall l' :: l <= l' < FirstInPage(pages, f, p, l).value.line ==> f(pages[p][l']).None?
    decreases |pages[p]| - l
  {
    if l < |pages[p]| {
      FirstInPageSpec(pages, f, p, l + 1);
    }
  }

  /** The document scan finds the first line in page-then-line order, from page `p` on, that
      yields a value, and finds nothing exactly when no line yields one. */
  lemma {:induction false} FirstFromSpec<T>(pages: seq<seq<string>>, f: string -> Option<T>, p: nat)
    requires p <= |pages|
    ensures FirstFrom(pages, f, p).None? <==>
      forall p', l' :: p <= p' < |pages| && 0 <= l' < |pages[p']| ==> f(pages[p'][l']).None?
    ensures FirstFrom(pages, f, p).Some? ==>
      var h := FirstFrom(pages, f, p).value;
      forall p', l' :: p <= p' < |pages| && 0 <= l' < |pages[p']| && Before(p', l', h.page, h.line) ==>
        f(pages[p'][l']).None?
    decreases |pages| - p
  {
    if p < |pages| {
      FirstInPageSpec(pages, f, p, 0);
      FirstFromSpec(pages, f, p + 1);
    }
  }

  /** Trying page 1 first changes nothing: the scan of every page finds the same line. */
  lemma FirstPageFirst<T>(pages: seq<seq<string>>, f: string -> Option<T>)
    requires pages != []
    ensures FirstInPage(pages, f, 0, 0).Some? ==> FirstInPage(pages, f, 0, 0) == FirstFrom(pages, f, 0)
  {
  }

  /** Line `l` of page `p` yields a value and no line before it does. */
  predicate FirstHitAt<T>(pages: seq<seq<string>>, f: string -> Option<T>, p: nat, l: nat) {
    p < |pages| && l < |pages[p]| && f(pages[p][l]).Some?
    && forall p', l' :: 0 <= p' < |pages| && 0 <= l' < |pages[p']| && Before(p', l', p, l) ==>
         f(pages[p'][l']).None?
  }

  /** No line of the document yields a value. */
  predicate NoHit<T>(pages: seq<seq<string>>, f: string -> Option<T>) {
    forall p, l :: 0 <= p < |pages| && 0 <= l < |pages[p]| ==> f(pages[p][l]).None?
  }

  /** The document scan finds the first line, in page-then-line order, that yields a value. */
  lemma FirstFromFirst<T>(pages: seq<seq<string>>, f: string -> Option<T>)
    ensures FirstFrom(pages, f, 0).None? <==> NoHit(pages, f)
    ensures FirstFrom(pages, f, 0).Some? ==>
      FirstHitAt(pages, f, FirstFrom(pages, f, 0).value.page, FirstFrom(pages, f, 0).value.line)
  {
    FirstFromSpec(pages, f, 0);
  }

  /** The MAWB result is the first line, in page-then-line order, whose normalised text yields a
      MAWB; it carries that MAWB (of the shape `DDD-DDDDDDDD`), the line's 1-based number within
      its page and the original line; and there is none exactly when no line yields one (in
      particular for no pages). */
  lemma DocumentCodeSpec(pages: seq<seq<string>>)
    ensures DocumentCode(pages).None? <==> NoHit(pages, LineMawb)
    ensures DocumentCode(pages).Some? ==>
      IsMawb(DocumentCode(pages).value.mawb)
      && exists p: nat, l: nat :: FirstHitAt(pages, LineMawb, p, l)
           && DocumentCode(pages).value == CodeHit(LineMawb(pages[p][l]).value, l + 1, pages[p][l])
  {
    FirstFromFirst(pages, LineMawb);
    if pages != [] {
      FirstPageFirst(pages, LineMawb);
      var h := FirstFrom(pages, LineMawb, 0);
      assert DocumentCode(pages) == AsCode(h);
      if h.Some? {
        LineMawbShape(h.value.text);
        assert FirstHitAt(pages, LineMawb, h.value.page, h.value.line);
      }
    }
  }

  /** A line's MAWB has the shape `DDD-DDDDDDDD`. */
  lemma LineMawbShape(line: string)
    ensures LineMawb(line).Some? ==> IsMawb(LineMawb(line).value)
  {
    MawbInShape(Normalized(line));
  }

  /** The total result is the first line, in page-then-line order, that has one; it carries
      the amount and the line's 1-based page and line numbers; later lines are not looked at. */
  lemma DocumentTotalSpec(pages: seq<seq<string>>)
    ensures DocumentTotal(pages).None? <==> NoHit(pages, LineTotal)
    ensures DocumentTotal(pages).Some? ==>
      exists p: nat, l: nat :: FirstHitAt(pages, LineTotal, p, l)
        && DocumentTotal(pages).value == TotalHit(LineTotal(pages[p][l]).value, p + 1, l + 1, pages[p][l])
  {
    FirstFromFirst(pages, LineTotal);
    var h := FirstFrom(pages, LineTotal, 0);
    if h.Some? {
      assert FirstHitAt(pages, LineTotal, h.value.page, h.value.line);
    }
  }

  /** A line has a total exactly when its normalised text holds `total` as a whole word, in any
      case, with at least one character after it; whether a number follows does not matter. */
  lemma LineTotalSpec(line: string)
    ensures var norm := Normalized(line);
      LineTotal(line).Some? <==> exists i :: 0 <= i < |norm| && OpenTotalAt(norm, i)
  {
    var norm := Normalized(line);
    NormalizedSingleLine(line);
    TotalSearchSpec(norm, 0);
    if LineTotal(line).Some? {
      var j :| 0 <= j && OpenTotalAt(norm, j) && (forall j' :: 0 <= j' < j ==> !OpenTotalAt(norm, j'))
        && FirstGroupAfter(norm, j + 5, TotalSearch(norm, 0).value);
      assert j < |norm|;
    }
  }

  /** The amount of a total line: with a digit in what follows the word, the longest match of
      the `number` group at the first digit, `rest[d..e]`, without its commas, a plain decimal;
      with none, that text stripped. */
  lemma LineTotalAmount(line: string) returns (d: nat, e: nat)
    requires LineTotal(line).Some?
    ensures var rest := TotalRest(Normalized(line)).value;
      (exists k :: 0 <= k < |rest| && IsDigit(rest[k])) ==>
        d < e <= |rest| && IsDigit(rest[d]) && (forall k :: 0 <= k < d ==> !IsDigit(rest[k]))
        && IsNumber(rest[d..e])
        && (forall e' :: d < e' <= |rest| && IsNumber(rest[d..e']) ==> e' <= e)
        && LineTotal(line).value == RemoveCommas(rest[d..e])
        && IsAmount(LineTotal(line).value)
    ensures var rest := TotalRest(Normalized(line)).value;
      (forall k :: 0 <= k < |rest| ==> !IsDigit(rest[k])) ==> LineTotal(line).value == Strip(rest)
  {
    var rest := TotalRest(Normalized(line)).value;
    AmountSearchFirstDigit(rest, 0);
    d, e := 0, 0;
    if exists k :: 0 <= k < |rest| && IsDigit(rest[k]) {
      d, e := AmountIsLongestNumber(rest);
      AmountShape(rest);
    }
  }

  /** The amount of a total line is never empty: with a number it is a plain decimal, and
      otherwise it is the captured text stripped, a non-empty tail of a line that does not end
      in whitespace. So `total or ''` writes `''` only when no line has a total. */
  lemma LineTotalNonEmpty(line: string)
    requires LineTotal(line).Some?
    ensures LineTotal(line).value != ""
  {
    var norm := Normalized(line);
    NormalizedIsNormal(line);
    NormalizedSingleLine(line);
    var q := TotalSearch(norm, 0).value;
    TailOkNoNewline(norm, q);
    var rest := TotalRest(norm).value;
    assert rest == norm[q..];
    var d, e := LineTotalAmount(line);
    if forall k :: 0 <= k < |rest| ==> !IsDigit(rest[k]) {
      assert rest[|rest| - 1] == norm[|norm| - 1];
      StripKeepsLast(rest);
    }
  }

  /** `format` reports a MAWB and a total exactly when `find` found them, with their values;
      an empty document has neither. */
  lemma FormatOfSpec(pathExists: bool, extraction: Extraction)
    ensures FormatOf(pathExists, extraction).Ok? <==> ReadOf(pathExists, extraction).Ok?
    ensures FormatOf(pathExists, extraction).Ok? ==>
      var pages := ReadOf(pathExists, extraction).value;
      var fields := FormatOf(pathExists, extraction).value;
      (fields.mawb.Some? <==> !NoHit(pages, LineMawb))
      && (fields.total.Some? <==> !NoHit(pages, LineTotal))
      && (pages == [] ==> fields == Fields(None, None))
  {
    if ReadOf(pathExists, extraction).Ok? {
      var pages := ReadOf(pathExists, extraction).value;
      DocumentCodeSpec(pages);
      DocumentTotalSpec(pages);
    }
  }
}

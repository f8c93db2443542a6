/**
 * main.py: `process_directory` lists the `*.pdf` then the `*.PDF` files of a directory, each
 * list sorted, drops repeated paths keeping the first, and writes one CSV row per file;
 * `main` picks the directory and output path from the arguments and returns the exit status.
 * The file system is an input: which paths exist and are directories, what the two globs
 * list, and what the PDF library extracts from each file.
 */
module Report {
  import opened Wrappers
  import opened Text
  import opened Read
  import opened Mawb
  import opened Format

  /** The parts of the file system the program looks at. */
  datatype FileSystem = FileSystem(
    pathExists: string -> bool,
    isDir: string -> bool,
    globLower: string -> seq<string>,
    globUpper: string -> seq<string>,
    extraction: string -> Extraction)

  /** One CSV row: `{'filename': ..., 'mawb': ..., 'total': ...}`. */
  datatype Row = Row(filename: string, mawb: string, total: string)

  /** The CSV header. */
  const FieldNames: seq<string> := ["filename", "mawb", "total"]

  /** Where the report goes: the path given, or `summary.csv` inside the directory. */
  datatype OutTarget = Explicit(path: string) | DefaultIn(directory: string)

  /** The report `main` writes: its target, its header line and its rows. */
  datatype Written = Written(target: OutTarget, header: seq<string>, rows: seq<Row>)

  // ---- sorted(...) ----

  predicate Sorted(xs: seq<string>) {
    forall i, j :: 0 <= i < j < |xs| ==> StrLe(xs[i], xs[j])
  }

  /** `x` put into a sorted list before the first element it is not above. */
  function Insert(x: string, xs: seq<string>): seq<string> {
    if xs == [] then [x]
    else if StrLe(x, xs[0]) then [x] + xs
    else [xs[0]] + Insert(x, xs[1..])
  }

  /** `sorted(paths)`: the paths in code-point order. */
  function SortPaths(xs: seq<string>): seq<string> {
    if xs == [] then [] else Insert(xs[0], SortPaths(xs[1..]))
  }

  lemma {:induction false} InsertMultiset(x: string, xs: seq<string>)
    ensures multiset(Insert(x, xs)) == multiset(xs) + multiset{x}
  {
    if xs != [] && !StrLe(x, xs[0]) {
      InsertMultiset(x, xs[1..]);
      assert xs == [xs[0]] + xs[1..];
    }
  }

  /** Every element after the head of a sorted list is at least the head. */
  lemma HeadLeast(h: string, xs: seq<string>, x: string)
    requires Sorted([h] + xs) && StrLe(h, x)
    ensures forall k :: 0 <= k < |Insert(x, xs)| ==> StrLe(h, Insert(x, xs)[k])
  {
    InsertMultiset(x, xs);
    forall k | 0 <= k < |Insert(x, xs)|
      ensures StrLe(h, Insert(x, xs)[k])
    {
      var y := Insert(x, xs)[k];
      assert y in multiset(xs) + multiset{x};
      if y != x {
        var m :| 0 <= m < |xs| && xs[m] == y;
        assert ([h] + xs)[0] == h && ([h] + xs)[m + 1] == y;
      }
    }
  }

  lemma {:induction false} InsertSorted(x: string, xs: seq<string>)
    requires Sorted(xs)
    ensures Sorted(Insert(x, xs))
  {
    if xs == [] {
    } else if StrLe(x, xs[0]) {
      forall j | 0 < j < |xs|
        ensures StrLe(x, xs[j])
      {
        StrLeTrans(x, xs[0], xs[j]);
      }
    } else {
      InsertSorted(x, xs[1..]);
      StrLeTotal(x, xs[0]);
      assert xs == [xs[0]] + xs[1..];
      HeadLeast(xs[0], xs[1..], x);
      var r := Insert(x, xs[1..]);
      forall i, j | 0 <= i < j < |[xs[0]] + r|
        ensures StrLe(([xs[0]] + r)[i], ([xs[0]] + r)[j])
      {
        if i > 0 {
          assert ([xs[0]] + r)[i] == r[i - 1];
        }
      }
    }
  }

  /** `sorted` returns the same paths, each as often, in order. */
  lemma {:induction false} SortPathsSpec(xs: seq<string>)
    ensures Sorted(SortPaths(xs))
    ensures multiset(SortPaths(xs)) == multiset(xs)
  {
    if xs != [] {
      SortPathsSpec(xs[1..]);
      InsertSorted(xs[0], SortPaths(xs[1..]));
      InsertMultiset(xs[0], SortPaths(xs[1..]));
      assert xs == [xs[0]] + xs[1..];
    }
  }

  /** The list `process_directory` starts from: the sorted `*.pdf` matches, then the sorted
      `*.PDF` matches. */
  function Candidates(directory: string, fs: FileSystem): seq<string> {
    SortPaths(fs.globLower(directory)) + SortPaths(fs.globUpper(directory))
  }

  // ---- the order-preserving dedup ----

  /** The paths of `xs`, each at its first occurrence. */
  function Dedup(xs: seq<string>): seq<string> {
    if xs == [] then []
    else
      var init := xs[..|xs| - 1];
      Dedup(init) + (if xs[|xs| - 1] in init then [] else [xs[|xs| - 1]])
  }

  /** The dedup loop of `process_directory`, with its `seen` set. */
  method DedupPaths(files: seq<string>) returns (pdfs: seq<string>)
    ensures pdfs == Dedup(files)
  {
    var seen: set<string> := {};
    pdfs := [];
    for i := 0 to |files|
      invariant pdfs == Dedup(files[..i])
      invariant seen == set j | 0 <= j < i :: files[j]
    {
      var sp := files[i];
      assert files[..i + 1][..i] == files[..i];
      assert sp in files[..i] <==> sp in seen;
      if sp !in seen {
        seen := seen + {sp};
        pdfs := pdfs + [sp];
      }
    }
    assert files[..|files|] == files;
  }

  /** Where `x` first occurs in `xs`. */
  function FirstIndex(xs: seq<string>, x: string): (k: nat)
    requires x in xs
    ensures k < |xs| && xs[k] == x
    ensures forall j :: 0 <= j < k ==> xs[j] != x
  {
    if xs[0] == x then 0 else 1 + FirstIndex(xs[1..], x)
  }

  lemma FirstIndexInit(xs: seq<string>, x: string)
    requires xs != [] && x in xs[..|xs| - 1]
    ensures FirstIndex(xs, x) == FirstIndex(xs[..|xs| - 1], x)
  {
    var init := xs[..|xs| - 1];
    var a := FirstIndex(xs, x);
    var b := FirstIndex(init, x);
    assert xs[b] == x;
    assert a <= b;
    assert init[a] == x;
  }

  /** After the dedup no path occurs twice, every path of the list occurs, and the paths keep
      the order of their first occurrences. */
  lemma {:induction false} DedupSpec(xs: seq<string>)
    ensures forall i, j :: 0 <= i < j < |Dedup(xs)| ==> Dedup(xs)[i] != Dedup(xs)[j]
    ensures forall x :: x in Dedup(xs) <==> x in xs
    ensures forall i, j :: 0 <= i < j < |Dedup(xs)| ==>
      Dedup(xs)[i] in xs && Dedup(xs)[j] in xs && FirstIndex(xs, Dedup(xs)[i]) < FirstIndex(xs, Dedup(xs)[j])
  {
    if xs != [] {
      var init := xs[..|xs| - 1];
      var x := xs[|xs| - 1];
      DedupSpec(init);
      var d := Dedup(init);
      assert xs == init + [x];
      var r := Dedup(xs);
      assert r == d + (if x in init then [] else [x]);
      forall i, j | 0 <= i < j < |r|
        ensures r[i] != r[j]
        ensures r[i] in xs && r[j] in xs && FirstIndex(xs, r[i]) < FirstIndex(xs, r[j])
      {
        assert r[i] == d[i] && r[i] in init;
        FirstIndexInit(xs, r[i]);
        if j < |d| {
          assert r[j] == d[j];
          FirstIndexInit(xs, r[j]);
        } else {
          assert r[j] == x && x !in init;
          assert FirstIndex(xs, x) == |xs| - 1;
        }
      }
    }
  }

  /** In processing order every `*.pdf` match comes before every other file, and the
      `*.pdf` matches come in sorted order; the files after them are `*.PDF` matches only,
      also in sorted order. */
  lemma ProcessingOrder(directory: string, fs: FileSystem)
    ensures var pdfs := Dedup(Candidates(directory, fs));
      var lower := fs.globLower(directory);
      forall i, j :: 0 <= i < j < |pdfs| && pdfs[j] in lower ==> pdfs[i] in lower && StrLe(pdfs[i], pdfs[j])
    ensures var pdfs := Dedup(Candidates(directory, fs));
      var lower := fs.globLower(directory);
      var upper := fs.globUpper(directory);
      forall i, j :: 0 <= i < j < |pdfs| && pdfs[i] !in lower ==>
        pdfs[i] in upper && pdfs[j] in upper && pdfs[j] !in lower && StrLe(pdfs[i], pdfs[j])
  {
    var lower := fs.globLower(directory);
    var upper := fs.globUpper(directory);
    var c := Candidates(directory, fs);
    DedupSpec(c);
    SortPathsSpec(lower);
    SortPathsSpec(upper);
    var pdfs := Dedup(c);
    assert forall i :: 0 <= i < |pdfs| ==> pdfs[i] in c;
    LowerFirst(Dedup(c), c, SortPaths(lower), SortPaths(upper), lower);
    UpperAfter(Dedup(c), c, SortPaths(lower), SortPaths(upper), lower, upper);
  }

  /** Two paths of the dedup, the later a `*.pdf` match: the earlier one is one too, and the
      two are in sorted order. */
  lemma LowerFirst(pdfs: seq<string>, c: seq<string>, sl: seq<string>, su: seq<string>, lower: seq<string>)
    requires c == sl + su && Sorted(sl) && multiset(sl) == multiset(lower)
    requires forall i :: 0 <= i < |pdfs| ==> pdfs[i] in c
    requires forall i, j :: 0 <= i < j < |pdfs| ==> FirstIndex(c, pdfs[i]) < FirstIndex(c, pdfs[j])
    ensures forall i, j :: 0 <= i < j < |pdfs| && pdfs[j] in lower ==> pdfs[i] in lower && StrLe(pdfs[i], pdfs[j])
  {
    forall i, j | 0 <= i < j < |pdfs| && pdfs[j] in lower
      ensures pdfs[i] in lower && StrLe(pdfs[i], pdfs[j])
    {
      var a := FirstIndex(c, pdfs[i]);
      var b := FirstIndex(c, pdfs[j]);
      UpperTail(c, sl, su, lower, a);
      UpperTail(c, sl, su, lower, b);
      assert c[a] == sl[a] && c[b] == sl[b];
      assert sl[a] in multiset(lower);
    }
  }

  /** Two paths of the dedup, the earlier no `*.pdf` match: both are `*.PDF` matches only,
      in sorted order. */
  lemma UpperAfter(pdfs: seq<string>, c: seq<string>, sl: seq<string>, su: seq<string>, lower: seq<string>, upper: seq<string>)
    requires c == sl + su && Sorted(su) && multiset(sl) == multiset(lower) && multiset(su) == multiset(upper)
    requires forall i :: 0 <= i < |pdfs| ==> pdfs[i] in c
    requires forall i, j :: 0 <= i < j < |pdfs| ==> FirstIndex(c, pdfs[i]) < FirstIndex(c, pdfs[j])
    ensures forall i :: 0 <= i < |pdfs| && pdfs[i] !in lower ==> pdfs[i] in upper
    ensures forall i, j :: 0 <= i < j < |pdfs| && pdfs[i] !in lower ==>
        pdfs[i] in upper && pdfs[j] in upper && pdfs[j] !in lower && StrLe(pdfs[i], pdfs[j])
  {
    forall i, j | 0 <= i < j < |pdfs| && pdfs[i] !in lower
      ensures pdfs[i] in upper && pdfs[j] in upper && pdfs[j] !in lower && StrLe(pdfs[i], pdfs[j])
    {
      UpperPair(c, sl, su, lower, upper, pdfs[i], pdfs[j]);
    }
    // the same for one path at a time, where no second path is at hand to instantiate with
    forall i | 0 <= i < |pdfs| && pdfs[i] !in lower
      ensures pdfs[i] in upper
    {
      var a := FirstIndex(c, pdfs[i]);
      UpperTail(c, sl, su, lower, a);
      assert c[a] == su[a - |sl|] && su[a - |sl|] in multiset(upper);
    }
  }

  /** Two paths in candidate order, the earlier no `*.pdf` match. */
  lemma UpperPair(c: seq<string>, sl: seq<string>, su: seq<string>, lower: seq<string>, upper: seq<string>, x: string, y: string)
    requires c == sl + su && Sorted(su) && multiset(sl) == multiset(lower) && multiset(su) == multiset(upper)
    requires x in c && y in c && FirstIndex(c, x) < FirstIndex(c, y) && x !in lower
    ensures x in upper && y in upper && y !in lower && StrLe(x, y)
  {
    var a := FirstIndex(c, x);
    var b := FirstIndex(c, y);
    UpperTail(c, sl, su, lower, a);
    UpperTail(c, sl, su, lower, b);
    assert c[a] == su[a - |sl|] && c[b] == su[b - |sl|];
    assert su[a - |sl|] in multiset(upper) && su[b - |sl|] in multiset(upper);
  }

  /** Where a path first occurs in the candidate list tells whether it is a `*.pdf` match:
      in the sorted `*.pdf` part exactly when it is one. */
  lemma UpperTail(c: seq<string>, sl: seq<string>, su: seq<string>, lower: seq<string>, a: nat)
    requires c == sl + su && multiset(sl) == multiset(lower)
    requires a < |c| && forall k :: 0 <= k < a ==> c[k] != c[a]
    ensures c[a] in lower <==> a < |sl|
  {
    if a < |sl| {
      assert c[a] == sl[a] && sl[a] in multiset(lower);
    }
    if c[a] in lower {
      assert c[a] in multiset(sl);
      var m :| 0 <= m < |sl| && sl[m] == c[a];
      assert c[m] == c[a];
    }
  }

  // ---- rows ----

  /** The row written for one file: its path, then the MAWB and total found, `''` for one
      not found; `''` for both when reading or parsing the file failed. */
  function RowOf(path: string, fs: FileSystem): Row {
    match FormatOf(fs.pathExists(path), fs.extraction(path))
    case Ok(fields) => Row(path, OrEmpty(fields.mawb), OrEmpty(fields.total))
    case Err(_) => Row(path, "", "")
  }

  /** The rows `process_directory` writes, one per file after the dedup, in order. */
  function ReportRows(directory: string, fs: FileSystem): seq<Row> {
    var pdfs := Dedup(Candidates(directory, fs));
    seq(|pdfs|, i requires 0 <= i < |pdfs| => RowOf(pdfs[i], fs))
  }

  /** `process_directory`: the file lists, the dedup loop, then one row per file; a file that
      fails gives an empty row and the loop goes on. */
  method ProcessDirectory(directory: string, fs: FileSystem) returns (rows: seq<Row>)
    ensures rows == ReportRows(directory, fs)
  {
    var files := SortPaths(fs.globLower(directory));
    files := files + SortPaths(fs.globUpper(directory));
    var pdfs := DedupPaths(files);
    rows := [];
    for i := 0 to |pdfs|
      invariant |rows| == i
      invariant forall k :: 0 <= k < i ==> rows[k] == RowOf(pdfs[k], fs)
    {
      var row := ProcessFile(pdfs[i], fs);
      rows := rows + [row];
    }
  }

  /** The body of the loop of `process_directory`: `format` the file, keeping its fields, or
      none of them when it raises; then the row with `''` for each missing field. */
  method ProcessFile(p: string, fs: FileSystem) returns (row: Row)
    ensures row == RowOf(p, fs)
  {
    var res := FormatFile(fs.pathExists(p), fs.extraction(p));
    var mawb: Option<string>;
    var total: Option<string>;
    if res.Ok? {
      mawb := res.value.mawb;
      total := res.value.total;
    } else {
      mawb := None;
      total := None;
    }
    row := Row(p, OrEmpty(mawb), OrEmpty(total));
  }

  /** What the cells of a row mean. The MAWB cell is `''` exactly when the file cannot be
      read or none of its lines yields a MAWB, and otherwise has the shape `DDD-DDDDDDDD`. The
      total cell is `''` exactly when the file cannot be read or none of its lines has a
      total: an amount found is never empty. */
  lemma RowOfSpec(path: string, fs: FileSystem)
    ensures var r := ReadOf(fs.pathExists(path), fs.extraction(path));
      var row := RowOf(path, fs);
      row.filename == path
      && (row.mawb == "" <==> r.Err? || NoHit(r.value, LineMawb))
      && (row.mawb != "" ==> IsMawb(row.mawb))
      && (row.total == "" <==> r.Err? || NoHit(r.value, LineTotal))
  {
    var pe := fs.pathExists(path);
    var ex := fs.extraction(path);
    FormatOfSpec(pe, ex);
    if ReadOf(pe, ex).Ok? {
      var pages := ReadOf(pe, ex).value;
      DocumentCodeSpec(pages);
      DocumentTotalSpec(pages);
      var t := DocumentTotal(pages);
      if t.Some? {
        var p: nat, l: nat :| FirstHitAt(pages, LineTotal, p, l)
          && t.value == TotalHit(LineTotal(pages[p][l]).value, p + 1, l + 1, pages[p][l]);
        LineTotalNonEmpty(pages[p][l]);
      }
    }
  }

  /** One row per file, in processing order, each with the cells `RowOfSpec` describes. */
  lemma ReportRowsSpec(directory: string, fs: FileSystem)
    ensures var pdfs := Dedup(Candidates(directory, fs));
      var rows := ReportRows(directory, fs);
      |rows| == |pdfs|
      && forall i :: 0 <= i < |rows| ==>
           var r := ReadOf(fs.pathExists(pdfs[i]), fs.extraction(pdfs[i]));
           rows[i].filename == pdfs[i]
           && (rows[i].mawb == "" <==> r.Err? || NoHit(r.value, LineMawb))
           && (rows[i].mawb != "" ==> IsMawb(rows[i].mawb))
           && (rows[i].total == "" <==> r.Err? || NoHit(r.value, LineTotal))
  {
    var pdfs := Dedup(Candidates(directory, fs));
    forall i | 0 <= i < |pdfs| {
      RowOfSpec(pdfs[i], fs);
    }
  }

  /** The report names every `*.pdf` and every `*.PDF` file of the directory, each once. */
  lemma ReportFiles(directory: string, fs: FileSystem)
    ensures var rows := ReportRows(directory, fs);
      forall i, j :: 0 <= i < j < |rows| ==> rows[i].filename != rows[j].filename
    ensures var rows := ReportRows(directory, fs);
      forall x :: (exists i :: 0 <= i < |rows| && rows[i].filename == x)
        <==> x in fs.globLower(directory) || x in fs.globUpper(directory)
  {
    var c := Candidates(directory, fs);
    DedupSpec(c);
    CandidatesHold(directory, fs);
    var pdfs := Dedup(c);
    var rows := ReportRows(directory, fs);
    forall x
      ensures (exists i :: 0 <= i < |rows| && rows[i].filename == x) <==> x in pdfs
    {
      if x in pdfs {
        var i :| 0 <= i < |pdfs| && pdfs[i] == x;
        assert rows[i].filename == x;
      }
    }
  }

  /** The candidate list holds exactly the paths the two globs list. */
  lemma CandidatesHold(directory: string, fs: FileSystem)
    ensures forall x :: x in Candidates(directory, fs) <==> x in fs.globLower(directory) || x in fs.globUpper(directory)
  {
    var lower := fs.globLower(directory);
    var upper := fs.globUpper(directory);
    SortPathsSpec(lower);
    SortPathsSpec(upper);
    forall x
      ensures x in Candidates(directory, fs) <==> x in lower || x in upper
    {
      assert x in SortPaths(lower) <==> x in multiset(lower);
      assert x in SortPaths(upper) <==> x in multiset(upper);
    }
  }

  // ---- main ----

  /** `argv or sys.argv[1:]`: an absent or empty argument list falls back to the command line. */
  function EffectiveArgs(argv: Option<seq<string>>, sysArgs: seq<string>): seq<string> {
    if argv.None? || argv.value == [] then sysArgs else argv.value
  }

  /** The directory: the first argument, `.` when there is none. */
  function DirectoryOf(args: seq<string>): string {
    if |args| >= 1 then args[0] else "."
  }

  /** The output: the second argument, `summary.csv` in the directory when there is none. */
  function OutputOf(args: seq<string>): OutTarget {
    if |args| >= 2 then Explicit(args[1]) else DefaultIn(DirectoryOf(args))
  }

  /** `main`: defaults, the directory check, then the report. */
  method Run(argv: Option<seq<string>>, sysArgs: seq<string>, fs: FileSystem) returns (status: int, written: Option<Written>)
    ensures var dir := DirectoryOf(EffectiveArgs(argv, sysArgs));
      status == (if fs.pathExists(dir) && fs.isDir(dir) then 0 else 2)
    ensures var args := EffectiveArgs(argv, sysArgs);
      var dir := DirectoryOf(args);
      written == (if status == 0 then Some(Written(OutputOf(args), FieldNames, ReportRows(dir, fs))) else None)
  {
    var args := sysArgs;
    if argv.Some? && argv.value != [] {
      args := argv.value;
    }
    var directory: string;
    if |args| >= 1 {
      directory := args[0];
    } else {
      directory := ".";
    }
    var outCsv: OutTarget;
    if |args| >= 2 {
      outCsv := Explicit(args[1]);
    } else {
      outCsv := DefaultIn(directory);
    }
    if !fs.pathExists(directory) || !fs.isDir(directory) {
      return 2, None;
    }
    var fieldnames := ["filename", "mawb", "total"];
    var rows := ProcessDirectory(directory, fs);
    return 0, Some(Written(outCsv, fieldnames, rows));
  }
}

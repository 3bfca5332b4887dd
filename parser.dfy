/**
 * The line-oriented parser of ParseSiloFile / ParseTortiseFile: blank lines before the first
 * declaration are skipped, the delimiter is detected once on the first non-blank line, and
 * from then on a line opens a new record exactly when it starts with the delimiter and a
 * space. Every other line is content of the current record.
 */
module Parser {
  import opened Wrappers
  import opened GoStrings
  import opened Format

  // ---------------------------------------------------------------------------------------
  // From text to lines

  /** strings.ReplaceAll(l, "\r\n", "\n"). */
  function ReplaceCRLF(l: string): (r: string)
    ensures '\n' !in l ==> r == l
    decreases |l|
  {
    if |l| >= 2 && l[0] == '\r' && l[1] == '\n' then "\n" + ReplaceCRLF(l[2..])
    else if l == [] then []
    else [l[0]] + ReplaceCRLF(l[1..])
  }

  /** strings.ReplaceAll(l, "\r", "\n"). */
  function ReplaceCR(l: string): (r: string)
    ensures |r| == |l| && '\r' !in r
    ensures forall k :: 0 <= k < |l| ==> r[k] == (if l[k] == '\r' then '\n' else l[k])
  {
    seq(|l|, k requires 0 <= k < |l| => if l[k] == '\r' then '\n' else l[k])
  }

  /** The two replacements both parsers apply to each scanned line. */
  function NormalizeLine(l: string): string {
    ReplaceCR(ReplaceCRLF(l))
  }

  /** The lines the parser works on: the scanner's tokens, each normalised. */
  function ReadLines(input: string): (ls: seq<string>)
    ensures |ls| == |ScanLines(input)|
    ensures forall k :: 0 <= k < |ls| ==> ls[k] == NormalizeLine(ScanLines(input)[k])
  {
    var sc := ScanLines(input);
    seq(|sc|, k requires 0 <= k < |sc| => NormalizeLine(sc[k]))
  }

  /** Without carriage returns the parser's lines are exactly the text's lines. */
  lemma ReadLinesPlain(input: string)
    requires '\r' !in input
    ensures ReadLines(input) == Lines(input)
  {
    ScanLinesNoCR(input);
    var ls := Lines(input);
    forall k | 0 <= k < |ls|
      ensures NormalizeLine(ls[k]) == ls[k]
    {
      LinesOccur(input, k, '\r');
      assert ReplaceCR(ls[k]) == ls[k];
    }
  }

  // ---------------------------------------------------------------------------------------
  // Records

  datatype ParseError =
    | DetectFailed(line: nat, detectError: DetectError)        // 1-based number of the first non-blank line
    | BadPath(line: nat, path: string, pathError: PathError) // 1-based number of the declaration line
    | DuplicatePath(path: string)

  /** A line that opens a new record once the delimiter d is known. */
  predicate StartsRecord(d: string, line: string) {
    HasPrefix(line, d + " ")
  }

  predicate NoRecordStarts(d: string, ls: seq<string>) {
    forall k :: 0 <= k < |ls| ==> !StartsRecord(d, ls[k])
  }

  /** The path a record-opening line declares. */
  function DeclaredPath(d: string, line: string): string
    requires StartsRecord(d, line)
  {
    TrimSpace(line[|d| + 1..])
  }

  /** The first line from position i on that opens a record, or |ls|. */
  function ContentRunFrom(d: string, ls: seq<string>, i: nat): (n: nat)
    requires i <= |ls|
    ensures i <= n <= |ls|
    ensures n < |ls| ==> StartsRecord(d, ls[n])
    decreases |ls| - i
  {
    if i == |ls| || StartsRecord(d, ls[i]) then i else ContentRunFrom(d, ls, i + 1)
  }

  /** The number of leading lines of ls that are content, not record openings. */
  function ContentRun(d: string, ls: seq<string>): (n: nat)
    ensures n <= |ls|
    ensures n < |ls| ==> StartsRecord(d, ls[n])
  {
    ContentRunFrom(d, ls, 0)
  }

  /** The lines ContentRunFrom passes over open no record. */
  lemma {:induction false} ContentRunFromIsContent(d: string, ls: seq<string>, i: nat)
    requires i <= |ls|
    ensures forall k :: i <= k < ContentRunFrom(d, ls, i) ==> !StartsRecord(d, ls[k])
    decreases |ls| - i
  {
    if i < |ls| && !StartsRecord(d, ls[i]) {
      ContentRunFromIsContent(d, ls, i + 1);
    }
  }

  /** The lines ContentRun counts open no record. */
  lemma ContentRunIsContent(d: string, ls: seq<string>)
    ensures NoRecordStarts(d, ls[..ContentRun(d, ls)])
  {
    ContentRunFromIsContent(d, ls, 0);
  }

  /** Content lines between i and m are passed over. */
  lemma {:induction false} ContentRunSkip(d: string, ls: seq<string>, i: nat, m: nat)
    requires i <= m <= |ls|
    requires forall k :: i <= k < m ==> !StartsRecord(d, ls[k])
    ensures ContentRunFrom(d, ls, i) == ContentRunFrom(d, ls, m)
    decreases m - i
  {
    if i < m {
      ContentRunSkip(d, ls, i + 1, m);
    }
  }

  /** Behind a prefix cl, the run from a position of ls is shifted by |cl|. */
  lemma {:induction false} ContentRunAfter(d: string, cl: seq<string>, ls: seq<string>, i: nat)
    requires i <= |ls|
    ensures ContentRunFrom(d, cl + ls, |cl| + i) == |cl| + ContentRunFrom(d, ls, i)
    decreases |ls| - i
  {
    if i < |ls| {
      assert (cl + ls)[|cl| + i] == ls[i];
      ContentRunAfter(d, cl, ls, i + 1);
    }
  }

  /** A record's content: its lines joined by line feeds, plus a final one unless empty. */
  function Body(ls: seq<string>): string {
    var c := Join(ls, "\n");
    if c == "" then c else c + "\n"
  }

  /**
   * The records that follow: the current record, declared with `path`, takes the lines up
   * to the next record opening; `next` is the 0-based number of ls[0] in the input and
   * `seen` the paths declared so far.
   */
  function Records(d: string, path: string, ls: seq<string>, next: nat, seen: set<string>)
    : Result<seq<File>, ParseError>
    decreases |ls|
  {
    var n := ContentRun(d, ls);
    var file := File(path, Body(ls[..n]));
    if n == |ls| then Ok([file])
    else
      var p := DeclaredPath(d, ls[n]);
      match ValidatePath(p)
      case Some(e) => Err(BadPath(next + n + 1, p, e))
      case None =>
        if p in seen then Err(DuplicatePath(p))
        else Prepend([file], Records(d, p, ls[n + 1..], next + n + 1, seen + {p}))
  }

  function Prepend(fs: seq<File>, r: Result<seq<File>, ParseError>): Result<seq<File>, ParseError> {
    match r
    case Ok(rest) => Ok(fs + rest)
    case Err(e) => Err(e)
  }

  lemma PrependNothing(r: Result<seq<File>, ParseError>)
    ensures Prepend([], r) == r
  {
    if r.Ok? {
      assert [] + r.value == r.value;
    }
  }

  lemma PrependTwice(fs: seq<File>, f: File, r: Result<seq<File>, ParseError>)
    ensures Prepend(fs, Prepend([f], r)) == Prepend(fs + [f], r)
  {
    if r.Ok? {
      assert fs + ([f] + r.value) == (fs + [f]) + r.value;
    }
  }

  function ToArchive(d: string, r: Result<seq<File>, ParseError>): Result<Archive, ParseError> {
    match r
    case Ok(fs) => Ok(Archive(d, fs))
    case Err(e) => Err(e)
  }

  /** Index of the first line that is not blank (isBlankLine, by its contract), or |ls|. */
  function FirstNonBlank(ls: seq<string>): (i: nat)
    ensures i <= |ls|
    ensures forall k :: 0 <= k < i ==> AllSpace(ls[k])
    ensures i < |ls| ==> !AllSpace(ls[i])
  {
    FirstNonBlankFrom(ls, 0)
  }

  /** Index of the first line from j on that is not blank, or |ls|. */
  function FirstNonBlankFrom(ls: seq<string>, j: nat): (i: nat)
    requires j <= |ls|
    ensures j <= i <= |ls|
    ensures forall k :: j <= k < i ==> AllSpace(ls[k])
    ensures i < |ls| ==> !AllSpace(ls[i])
    decreases |ls| - j
  {
    if j == |ls| || !AllSpace(ls[j]) then j else FirstNonBlankFrom(ls, j + 1)
  }

  /** What ParseSiloFile / ParseTortiseFile return for a sequence of lines. */
  function ParseLines(v: Variant, ls: seq<string>): Result<Archive, ParseError> {
    var i := FirstNonBlank(ls);
    if i == |ls| then Ok(Archive("", []))
    else
      match Detect(v, ls[i])
      case Err(e) => Err(DetectFailed(i + 1, e))
      case Ok(decl) =>
        match ValidatePath(decl.path)
        case Some(e) => Err(BadPath(i + 1, decl.path, e))
        case None => ToArchive(decl.delimiter, Records(decl.delimiter, decl.path, ls[i + 1..], i + 1, {decl.path}))
  }

  /** A text whose first line declares a valid path is read as that record and the rest. */
  lemma ParseAtDeclaration(v: Variant, ls: seq<string>, decl: Declaration)
    requires ls != [] && Detect(v, ls[0]) == Ok(decl) && ValidatePath(decl.path) == None
    ensures ParseLines(v, ls) ==
      ToArchive(decl.delimiter, Records(decl.delimiter, decl.path, ls[1..], 1, {decl.path}))
  {
    assert !AllSpace(ls[0]);
  }

  /** The whole reader: the input text cut into lines, then parsed. */
  function ParseText(v: Variant, input: string): Result<Archive, ParseError> {
    ParseLines(v, ReadLines(input))
  }

  // ---------------------------------------------------------------------------------------
  // The parser as the sources run it

  /** Content lines that do not open a record stay in the current record. */
  lemma ContentRunOf(d: string, cl: seq<string>, ls: seq<string>)
    requires NoRecordStarts(d, cl)
    ensures ContentRun(d, cl + ls) == |cl| + ContentRun(d, ls)
  {
    var all := cl + ls;
    forall k | 0 <= k < |cl|
      ensures !StartsRecord(d, all[k])
    {
      assert all[k] == cl[k];
    }
    ContentRunSkip(d, all, 0, |cl|);
    ContentRunAfter(d, cl, ls, 0);
  }

  /** Records, unfolded at a line that opens a record after the content lines cl. */
  lemma RecordsAtStart(d: string, path: string, cl: seq<string>, ls: seq<string>, next: nat, seen: set<string>)
    requires NoRecordStarts(d, cl) && ls != [] && StartsRecord(d, ls[0])
    ensures var p := DeclaredPath(d, ls[0]);
      var line := next + |cl| + 1;
      Records(d, path, cl + ls, next, seen) ==
        match ValidatePath(p)
        case Some(e) => Err(BadPath(line, p, e))
        case None =>
          if p in seen then Err(DuplicatePath(p))
          else Prepend([File(path, Body(cl))], Records(d, p, ls[1..], line, seen + {p}))
  {
    var all := cl + ls;
    assert ContentRun(d, all) == |cl| by {
      ContentRunOf(d, cl, ls);
    }
    assert all[..|cl|] == cl && all[|cl|] == ls[0] && all[|cl| + 1..] == ls[1..];
  }

  /** Records at the end of the input: the content lines form the last record. */
  lemma RecordsAtEnd(d: string, path: string, cl: seq<string>, next: nat, seen: set<string>)
    requires NoRecordStarts(d, cl)
    ensures Records(d, path, cl, next, seen) == Ok([File(path, Body(cl))])
  {
    ContentRunOf(d, cl, []);
    assert cl + [] == cl;
  }

  /**
   * ParseSiloFile / ParseTortiseFile after the scanner: the blank-line skip, the delimiter
   * detection and the check of the first path.
   */
  method Parse(v: Variant, lines: seq<string>) returns (r: Result<Archive, ParseError>)
    ensures r == ParseLines(v, lines)
  {
    var lineIdx := 0;
    while lineIdx < |lines| && IsBlankLine(lines[lineIdx])
      invariant lineIdx <= |lines|
      invariant forall k :: 0 <= k < lineIdx ==> AllSpace(lines[k])
    {
      lineIdx := lineIdx + 1;
    }
    FirstNonBlankAt(lines, 0, lineIdx);
    if lineIdx >= |lines| {
      return Ok(Archive("", []));
    }
    r := ParseFrom(v, lines, lineIdx);
  }

  /** The rest of Parse, from the first non-blank line on: detection, first path, records. */
  method ParseFrom(v: Variant, lines: seq<string>, first: nat) returns (r: Result<Archive, ParseError>)
    requires first == FirstNonBlank(lines) && first < |lines|
    ensures r == ParseLines(v, lines)
  {
    var detected := DetectDelimiter(v, lines[first]);
    if detected.Err? {
      DetectFailurePropagates(v, lines, first, detected.error);
      return Err(DetectFailed(first + 1, detected.error));
    }
    var delim, firstPath := detected.value.delimiter, detected.value.path;
    var lineIdx := first + 1;
    var invalid := ValidatePath(firstPath);
    if invalid.Some? {
      FirstPathRejected(v, lines, first, detected.value, invalid.value);
      return Err(BadPath(lineIdx, firstPath, invalid.value));
    }
    var files := CollectRecords(delim, firstPath, lines, lineIdx);
    ScanFromDeclaration(delim, firstPath, lines, lineIdx, {firstPath});
    ParseFromDeclaration(v, lines, first, detected.value);
    r := ToArchive(delim, files);
  }

  /** A scan from j that stops at the first non-blank line i finds what FirstNonBlankFrom finds. */
  lemma {:induction false} FirstNonBlankAt(ls: seq<string>, j: nat, i: nat)
    requires j <= i <= |ls|
    requires forall k :: j <= k < i ==> AllSpace(ls[k])
    requires i < |ls| ==> !AllSpace(ls[i])
    ensures FirstNonBlankFrom(ls, j) == i
    decreases i - j
  {
    if j < i {
      FirstNonBlankAt(ls, j + 1, i);
    }
  }

  /** Input whose first non-blank line declares a valid path reads records from the next line on. */
  lemma ParseFromDeclaration(v: Variant, ls: seq<string>, i: nat, decl: Declaration)
    requires i == FirstNonBlank(ls) && i < |ls| && Detect(v, ls[i]) == Ok(decl)
    requires ValidatePath(decl.path) == None
    ensures ParseLines(v, ls) ==
      ToArchive(decl.delimiter, Records(decl.delimiter, decl.path, ls[i + 1..], i + 1, {decl.path}))
  {
    assert !AllSpace(ls[i]);
  }

  /**
   * The record loop's own reading of the same lines, one line at a time: `cl` holds the
   * content lines collected so far for the record declared with `path`, and `i` is the
   * 0-based number of the next line to read.
   */
  function Scan(d: string, path: string, cl: seq<string>, lines: seq<string>, i: nat, seen: set<string>)
    : Result<seq<File>, ParseError>
    requires i <= |lines|
    decreases |lines| - i
  {
    if i == |lines| then Ok([File(path, Body(cl))])
    else if StartsRecord(d, lines[i]) then
      var p := DeclaredPath(d, lines[i]);
      match ValidatePath(p)
      case Some(e) => Err(BadPath(i + 1, p, e))
      case None =>
        if p in seen then Err(DuplicatePath(p))
        else Prepend([File(path, Body(cl))], Scan(d, p, [], lines, i + 1, seen + {p}))
    else Scan(d, path, cl + [lines[i]], lines, i + 1, seen)
  }

  /** Moving a content line from the input to the current record changes neither. */
  lemma ContentMoves(d: string, cl: seq<string>, lines: seq<string>, i: nat, all: seq<string>)
    requires i < |lines| && !StartsRecord(d, lines[i])
    requires NoRecordStarts(d, cl) && all == cl + lines[i..]
    ensures NoRecordStarts(d, cl + [lines[i]]) && all == (cl + [lines[i]]) + lines[i + 1..]
  {
    assert lines[i..] == [lines[i]] + lines[i + 1..];
  }

  /**
   * The line-at-a-time reading and the record-at-a-time reading agree: with content lines
   * cl collected and lines from i still to read, Scan gives what Records gives on all of
   * them, `start` being the number of the first line of cl.
   */
  lemma {:induction false} ScanIsRecords(d: string, path: string, cl: seq<string>, lines: seq<string>, i: nat,
                                         seen: set<string>, all: seq<string>, start: nat)
    requires i <= |lines| && NoRecordStarts(d, cl) && all == cl + lines[i..] && start + |cl| == i
    ensures Scan(d, path, cl, lines, i, seen) == Records(d, path, all, start, seen)
    decreases |lines| - i, 1
  {
    if i == |lines| {
      assert all == cl;
      RecordsAtEnd(d, path, cl, start, seen);
    } else if StartsRecord(d, lines[i]) {
      ScanAtStart(d, path, cl, lines, i, seen, all, start);
    } else {
      ContentMoves(d, cl, lines, i, all);
      ScanIsRecords(d, path, cl + [lines[i]], lines, i + 1, seen, all, start);
    }
  }

  /** ScanIsRecords at a line that opens a record: the records after it agree. */
  lemma {:induction false} ScanAtStart(d: string, path: string, cl: seq<string>, lines: seq<string>, i: nat,
                                       seen: set<string>, all: seq<string>, start: nat)
    requires i < |lines| && StartsRecord(d, lines[i])
    requires NoRecordStarts(d, cl) && all == cl + lines[i..] && start + |cl| == i
    ensures Scan(d, path, cl, lines, i, seen) == Records(d, path, all, start, seen)
    decreases |lines| - i, 0
  {
    var p := DeclaredPath(d, lines[i]);
    var ls := lines[i..];
    assert ls[0] == lines[i] && ls[1..] == lines[i + 1..];
    assert [] + lines[i + 1..] == lines[i + 1..];
    ScanIsRecords(d, p, [], lines, i + 1, seen + {p}, lines[i + 1..], i + 1);
    RecordsAtStart(d, path, cl, ls, start, seen);
  }

  lemma ScanFromDeclaration(d: string, path: string, lines: seq<string>, i: nat, seen: set<string>)
    requires i <= |lines|
    ensures Scan(d, path, [], lines, i, seen) == Records(d, path, lines[i..], i, seen)
  {
    assert lines[i..] == [] + lines[i..];
    ScanIsRecords(d, path, [], lines, i, seen, lines[i..], i);
  }

  /** The record loop of ParseSiloFile / ParseTortiseFile, from the line after the first
      declaration on. */
  method CollectRecords(delim: string, firstPath: string, lines: seq<string>, start: nat)
    returns (r: Result<seq<File>, ParseError>)
    requires start <= |lines|
    ensures r == Scan(delim, firstPath, [], lines, start, {firstPath})
  {
    var lineIdx := start;
    var pathsSeen: set<string> := {firstPath};
    var files: seq<File> := [];
    var currentPath := firstPath;
    var contentLines: seq<string> := [];
    PrependNothing(Scan(delim, firstPath, [], lines, start, {firstPath}));
    while lineIdx < |lines|
      invariant start <= lineIdx <= |lines|
      invariant Scan(delim, firstPath, [], lines, start, {firstPath}) ==
        Prepend(files, Scan(delim, currentPath, contentLines, lines, lineIdx, pathsSeen))
    {
      var line := lines[lineIdx];
      if HasPrefix(line, delim + " ") {
        var content := Join(contentLines, "\n");
        if content != "" {
          content := content + "\n";
        }
        var path := TrimSpace(line[|delim| + 1..]);
        PrependTwice(files, File(currentPath, content), Scan(delim, path, [], lines, lineIdx + 1, pathsSeen + {path}));
        files := files + [File(currentPath, content)];
        var bad := ValidatePath(path);
        if bad.Some? {
          return Err(BadPath(lineIdx + 1, path, bad.value));
        }
        if path in pathsSeen {
          return Err(DuplicatePath(path));
        }
        pathsSeen := pathsSeen + {path};
        currentPath := path;
        contentLines := [];
      } else {
        contentLines := contentLines + [line];
      }
      lineIdx := lineIdx + 1;
    }
    var content := Join(contentLines, "\n");
    if content != "" {
      content := content + "\n";
    }
    files := files + [File(currentPath, content)];
    return Ok(files);
  }

  // ---------------------------------------------------------------------------------------
  // What a successful parse guarantees

  predicate DistinctPaths(fs: seq<File>) {
    forall i, j :: 0 <= i < j < |fs| ==> fs[i].path != fs[j].path
  }

  predicate ValidPaths(fs: seq<File>) {
    forall i :: 0 <= i < |fs| ==> ValidatePath(fs[i].path) == None
  }

  function Paths(fs: seq<File>): (ps: seq<string>)
    ensures |ps| == |fs| && forall i :: 0 <= i < |fs| ==> ps[i] == fs[i].path
  {
    seq(|fs|, i requires 0 <= i < |fs| => fs[i].path)
  }

  /** The paths declared by the record-opening lines of ls from position i on, in order. */
  function OpeningsFrom(d: string, ls: seq<string>, i: nat): seq<string>
    requires i <= |ls|
    decreases |ls| - i
  {
    if i == |ls| then []
    else if StartsRecord(d, ls[i]) then [DeclaredPath(d, ls[i])] + OpeningsFrom(d, ls, i + 1)
    else OpeningsFrom(d, ls, i + 1)
  }

  /** The paths declared by the record-opening lines of ls, in order. */
  function Openings(d: string, ls: seq<string>): seq<string> {
    OpeningsFrom(d, ls, 0)
  }

  /** Content lines between i and m declare nothing. */
  lemma {:induction false} OpeningsSkip(d: string, ls: seq<string>, i: nat, m: nat)
    requires i <= m <= |ls|
    requires forall k :: i <= k < m ==> !StartsRecord(d, ls[k])
    ensures OpeningsFrom(d, ls, i) == OpeningsFrom(d, ls, m)
    decreases m - i
  {
    if i < m {
      OpeningsSkip(d, ls, i + 1, m);
    }
  }

  /** The openings from position off + i of ls are those from position i of ls[off..]. */
  lemma {:induction false} OpeningsShift(d: string, ls: seq<string>, off: nat, i: nat)
    requires off + i <= |ls|
    ensures OpeningsFrom(d, ls, off + i) == OpeningsFrom(d, ls[off..], i)
    decreases |ls| - off - i
  {
    if off + i < |ls| {
      assert ls[off..][i] == ls[off + i];
      OpeningsShift(d, ls, off, i + 1);
    }
  }

  /** Content lines declare nothing: the first opening after them is the next one. */
  lemma OpeningsAfterContent(d: string, ls: seq<string>, n: nat)
    requires n < |ls| && NoRecordStarts(d, ls[..n]) && StartsRecord(d, ls[n])
    ensures Openings(d, ls) == [DeclaredPath(d, ls[n])] + Openings(d, ls[n + 1..])
  {
    forall k | 0 <= k < n
      ensures !StartsRecord(d, ls[k])
    {
      assert ls[..n][k] == ls[k];
    }
    OpeningsSkip(d, ls, 0, n);
    OpeningsShift(d, ls, n + 1, 0);
  }

  lemma NoOpenings(d: string, ls: seq<string>)
    requires NoRecordStarts(d, ls)
    ensures Openings(d, ls) == []
  {
    OpeningsSkip(d, ls, 0, |ls|);
  }

  /** A successful Records at a record opening: the path it declares passed its checks, and
      the current record comes first. */
  lemma RecordsOkAtOpening(d: string, path: string, ls: seq<string>, next: nat, seen: set<string>,
                           n: nat, p: string)
    requires Records(d, path, ls, next, seen).Ok?
    requires n == ContentRun(d, ls) && n < |ls| && p == DeclaredPath(d, ls[n])
    ensures ValidatePath(p) == None && p !in seen
    ensures Records(d, p, ls[n + 1..], next + n + 1, seen + {p}).Ok?
    ensures Records(d, path, ls, next, seen).value
      == [File(path, Body(ls[..n]))] + Records(d, p, ls[n + 1..], next + n + 1, seen + {p}).value
  {
    var r := Records(d, p, ls[n + 1..], next + n + 1, seen + {p});
    var file := File(path, Body(ls[..n]));
    assert ValidatePath(p) == None && p !in seen;
    assert Records(d, path, ls, next, seen) == Prepend([file], r);
  }

  /**
   * One record of a successful Records that is not the last: the path p the next record
   * declares, the lines after its declaration, their number in the input and the records
   * read from them.
   */
  lemma NextRecord(d: string, path: string, ls: seq<string>, next: nat, seen: set<string>, fs: seq<File>)
    returns (p: string, tail: seq<string>, after: nat, rest: seq<File>)
    requires Records(d, path, ls, next, seen) == Ok(fs) && ContentRun(d, ls) < |ls|
    ensures |tail| < |ls|
    ensures ValidatePath(p) == None && p !in seen
    ensures Records(d, p, tail, after, seen + {p}) == Ok(rest)
    ensures |fs| >= 1 && fs == [fs[0]] + rest && fs[0].path == path
    ensures Openings(d, ls) == [p] + Openings(d, tail)
  {
    var n := ContentRun(d, ls);
    p, tail, after := DeclaredPath(d, ls[n]), ls[n + 1..], next + n + 1;
    RecordsOkAtOpening(d, path, ls, next, seen, n, p);
    rest := Records(d, p, tail, after, seen + {p}).value;
    ContentRunIsContent(d, ls);
    OpeningsAfterContent(d, ls, n);
  }

  /** The last record of a successful Records: no line after it opens another. */
  lemma LastRecord(d: string, path: string, ls: seq<string>, next: nat, seen: set<string>, fs: seq<File>)
    requires Records(d, path, ls, next, seen) == Ok(fs) && ContentRun(d, ls) == |ls|
    ensures |fs| == 1 && fs[0].path == path
    ensures Openings(d, ls) == []
  {
    ContentRunIsContent(d, ls);
    assert ls[..|ls|] == ls;
    NoOpenings(d, ls);
  }

  lemma PathsCons(fs: seq<File>, rest: seq<File>)
    requires |fs| >= 1 && fs == [fs[0]] + rest
    ensures Paths(fs) == [fs[0].path] + Paths(rest)
  {
  }

  /**
   * The records read are exactly one per declaration: the current one, then one for each
   * line that opens a record, with the paths those lines declare.
   */
  lemma {:induction false} RecordsPaths(d: string, path: string, ls: seq<string>, next: nat, seen: set<string>,
                                        fs: seq<File>)
    requires Records(d, path, ls, next, seen) == Ok(fs)
    ensures Paths(fs) == [path] + Openings(d, ls)
    decreases |ls|
  {
    if ContentRun(d, ls) == |ls| {
      LastRecord(d, path, ls, next, seen, fs);
    } else {
      var p, tail, after, rest := NextRecord(d, path, ls, next, seen, fs);
      RecordsPaths(d, p, tail, after, seen + {p}, rest);
      PathsCons(fs, rest);
    }
  }

  /** The paths of fs after its first are valid and not in seen. */
  predicate FreshAfterFirst(fs: seq<File>, seen: set<string>) {
    forall j :: 1 <= j < |fs| ==> fs[j].path !in seen && ValidatePath(fs[j].path) == None
  }

  lemma FreshStep(fs: seq<File>, rest: seq<File>, p: string, seen: set<string>)
    requires |fs| >= 1 && fs == [fs[0]] + rest
    requires |rest| >= 1 && rest[0].path == p && p !in seen && ValidatePath(p) == None
    requires FreshAfterFirst(rest, seen + {p})
    ensures FreshAfterFirst(fs, seen)
  {
    forall j | 1 <= j < |fs|
      ensures fs[j].path !in seen && ValidatePath(fs[j].path) == None
    {
      assert fs[j] == rest[j - 1];
    }
  }

  /** Every record after the current one declares a valid path that was not seen before. */
  lemma {:induction false} RecordsFresh(d: string, path: string, ls: seq<string>, next: nat, seen: set<string>,
                                        fs: seq<File>)
    requires Records(d, path, ls, next, seen) == Ok(fs)
    ensures |fs| >= 1 && fs[0].path == path
    ensures FreshAfterFirst(fs, seen)
    decreases |ls|
  {
    if ContentRun(d, ls) == |ls| {
      LastRecord(d, path, ls, next, seen, fs);
    } else {
      var p, tail, after, rest := NextRecord(d, path, ls, next, seen, fs);
      RecordsFresh(d, p, tail, after, seen + {p}, rest);
      FreshStep(fs, rest, p, seen);
    }
  }

  lemma DistinctStep(fs: seq<File>, rest: seq<File>, seen: set<string>)
    requires |fs| >= 1 && fs == [fs[0]] + rest
    requires fs[0].path in seen && DistinctPaths(rest)
    requires forall j :: 0 <= j < |rest| ==> rest[j].path !in seen
    ensures DistinctPaths(fs)
  {
    forall i, j | 0 <= i < j < |fs|
      ensures fs[i].path != fs[j].path
    {
      assert fs[j] == rest[j - 1];
      if i > 0 {
        assert fs[i] == rest[i - 1];
      }
    }
  }

  /** The paths of the records read are pairwise distinct. */
  lemma {:induction false} RecordsDistinct(d: string, path: string, ls: seq<string>, next: nat, seen: set<string>,
                                           fs: seq<File>)
    requires path in seen
    requires Records(d, path, ls, next, seen) == Ok(fs)
    ensures DistinctPaths(fs)
    decreases |ls|
  {
    if ContentRun(d, ls) == |ls| {
      LastRecord(d, path, ls, next, seen, fs);
    } else {
      var p, tail, after, rest := NextRecord(d, path, ls, next, seen, fs);
      RecordsDistinct(d, p, tail, after, seen + {p}, rest);
      RecordsFresh(d, p, tail, after, seen + {p}, rest);
      DistinctStep(fs, rest, seen);
    }
  }

  /**
   * A successful parse of a text with a non-blank line took its delimiter and first path
   * from the first non-blank line, whose path passed its checks, and its files are the
   * records after that line.
   */
  lemma ParsedRecords(v: Variant, ls: seq<string>, i: nat)
    requires i == FirstNonBlank(ls) && i < |ls|
    requires ParseLines(v, ls).Ok?
    ensures Detect(v, ls[i]).Ok?
    ensures var decl := Detect(v, ls[i]).value;
      && ValidatePath(decl.path) == None
      && ParseLines(v, ls).value.delimiter == decl.delimiter
      && Records(decl.delimiter, decl.path, ls[i + 1..], i + 1, {decl.path}) == Ok(ParseLines(v, ls).value.files)
  {
    assert !AllSpace(ls[i]);
  }

  /** A first non-blank line that is not a declaration fails the parse with its line number. */
  lemma DetectFailurePropagates(v: Variant, ls: seq<string>, i: nat, e: DetectError)
    requires i == FirstNonBlank(ls) && i < |ls| && Detect(v, ls[i]) == Err(e)
    ensures ParseLines(v, ls) == Err(DetectFailed(i + 1, e))
  {
    assert !AllSpace(ls[i]);
  }

  /** A first declaration whose path fails the path checks fails the parse with its line number. */
  lemma FirstPathRejected(v: Variant, ls: seq<string>, i: nat, decl: Declaration, e: PathError)
    requires i == FirstNonBlank(ls) && i < |ls| && Detect(v, ls[i]) == Ok(decl)
    requires ValidatePath(decl.path) == Some(e)
    ensures ParseLines(v, ls) == Err(BadPath(i + 1, decl.path, e))
  {
    assert !AllSpace(ls[i]);
  }

  /** Only input made of blank lines (or no lines at all) gives the empty document. */
  lemma ParseBlank(v: Variant, ls: seq<string>)
    ensures ParseLines(v, ls) == Ok(Archive("", [])) <==> forall k :: 0 <= k < |ls| ==> IsBlankLine(ls[k])
  {
    var i := FirstNonBlank(ls);
    if i < |ls| {
      if ParseLines(v, ls).Ok? {
        ParsedRecords(v, ls, i);
        var decl := Detect(v, ls[i]).value;
        var fs := ParseLines(v, ls).value.files;
        RecordsFresh(decl.delimiter, decl.path, ls[i + 1..], i + 1, {decl.path}, fs);
      }
      assert !IsBlankLine(ls[i]);
    }
  }

  /**
   * A parsed document: no files exactly when there is no delimiter; otherwise a delimiter
   * the detector accepts, and one file for the first declaration and for each later line
   * that opens a record, with valid and pairwise distinct paths.
   */
  lemma ParsedDocument(v: Variant, ls: seq<string>)
    requires ParseLines(v, ls).Ok?
    ensures var a := ParseLines(v, ls).value;
      && (a.files == [] <==> a.delimiter == "")
      && (a.files != [] ==> IsDelimiter(v, a.delimiter))
      && ValidPaths(a.files) && DistinctPaths(a.files)
  {
    var i := FirstNonBlank(ls);
    if i < |ls| {
      ParsedFrom(v, ls, i);
    }
  }

  /** ParsedDocument for input with a non-blank line, the i-th being the first. */
  lemma ParsedFrom(v: Variant, ls: seq<string>, i: nat)
    requires i == FirstNonBlank(ls) && i < |ls|
    requires ParseLines(v, ls).Ok?
    ensures var a := ParseLines(v, ls).value;
      && a.files != [] && IsDelimiter(v, a.delimiter)
      && ValidPaths(a.files) && DistinctPaths(a.files)
  {
    ParsedRecords(v, ls, i);
    var decl := Detect(v, ls[i]).value;
    var a := ParseLines(v, ls).value;
    RecordsDocument(decl.delimiter, decl.path, ls[i + 1..], i + 1, a.files);
  }

  /** Records that start from a valid path make a non-empty list of valid, distinct paths. */
  lemma RecordsDocument(d: string, path: string, ls: seq<string>, next: nat, fs: seq<File>)
    requires ValidatePath(path) == None
    requires Records(d, path, ls, next, {path}) == Ok(fs)
    ensures fs != [] && ValidPaths(fs) && DistinctPaths(fs)
  {
    RecordsFresh(d, path, ls, next, {path}, fs);
    RecordsDistinct(d, path, ls, next, {path}, fs);
  }

  /**
   * The paths of a parsed document, in order: the one on the first non-blank line, then the
   * one declared on each later line that starts with the delimiter and a space.
   */
  lemma ParsedPaths(v: Variant, ls: seq<string>, i: nat)
    requires i == FirstNonBlank(ls) && i < |ls|
    requires ParseLines(v, ls).Ok?
    ensures Detect(v, ls[i]).Ok?
    ensures var decl := Detect(v, ls[i]).value;
      && ParseLines(v, ls).value.delimiter == decl.delimiter
      && Paths(ParseLines(v, ls).value.files) == [decl.path] + Openings(decl.delimiter, ls[i + 1..])
  {
    ParsedRecords(v, ls, i);
    var decl := Detect(v, ls[i]).value;
    var fs := ParseLines(v, ls).value.files;
    RecordsPaths(decl.delimiter, decl.path, ls[i + 1..], i + 1, {decl.path}, fs);
  }
}

/**
 * Writing a document and reading the text back. The reader gives back the files that were
 * written, in order, with their paths, and with each content as written (a final line feed
 * added where it was missing), except that a content of exactly one line feed reads back
 * empty. This holds when the delimiter is one the reader detects, no content line collides
 * with it, and the paths are valid, distinct, already trimmed and on one line; and the text
 * carries no carriage return, which the reader turns into a line break.
 */
module RoundTrip {
  import opened Wrappers
  import opened GoStrings
  import opened Format
  import opened Selector
  import opened Parser
  import opened Writer

  /** A file's declaration line, without its line feed. */
  function Header(d: string, path: string): string {
    d + " " + path
  }

  /** A file's content as the reader returns it. */
  function Stored(content: string): string {
    if content == "\n" then "" else Terminated(content)
  }

  /** What reading back does to a content: it leaves the empty content and every content
      ending with a line feed as they are, except a lone line feed, and otherwise adds one. */
  lemma StoredUnchanged(c: string)
    ensures Stored(c) == c <==> c == "" || (HasSuffix(c, "\n") && c != "\n")
    ensures Stored(c) == "" || HasSuffix(Stored(c), "\n")
    ensures Stored(c) != c && c != "\n" ==> Stored(c) == c + "\n"
  {
    if c != "\n" && c != "" && !HasSuffix(c, "\n") {
      assert |c + "\n"| != |c|;
      assert HasSuffix(c + "\n", "\n");
    }
  }

  function StoredFiles(files: seq<File>): (r: seq<File>)
    ensures |r| == |files|
    ensures forall k :: 0 <= k < |files| ==> r[k] == File(files[k].path, Stored(files[k].content))
  {
    seq(|files|, k requires 0 <= k < |files| => File(files[k].path, Stored(files[k].content)))
  }

  lemma StoredCons(f: File, rest: seq<File>)
    ensures StoredFiles([f] + rest) == [File(f.path, Stored(f.content))] + StoredFiles(rest)
  {
    var files := [f] + rest;
    assert forall k :: 1 <= k < |files| ==> files[k] == rest[k - 1];
  }

  /** The lines of the written text, file by file. */
  function Layout(d: string, files: seq<File>): seq<string> {
    if files == [] then []
    else [Header(d, files[0].path)] + Lines(Terminated(files[0].content)) + Layout(d, files[1..])
  }

  // ---------------------------------------------------------------------------------------
  // Conditions under which a document reads back

  /** A delimiter the reader detects on a declaration line that starts it. */
  predicate ReadableDelimiter(v: Variant, d: string) {
    IsDelimiter(v, d) && !IsSpace(d[0])
  }

  /** A path the reader accepts and reads back unchanged. */
  predicate ReadablePath(path: string) {
    && ValidatePath(path) == None
    && TrimSpace(path) == path
    && '\n' !in path && '\r' !in path
  }

  /** The files can be written with delimiter d and read back. */
  predicate Readable(d: string, files: seq<File>) {
    && DistinctPaths(files)
    && (forall k :: 0 <= k < |files| ==> ReadablePath(files[k].path))
    && (forall k :: 0 <= k < |files| ==> '\r' !in files[k].content)
    && !Collides(files, d)
  }

  // ---------------------------------------------------------------------------------------
  // The text, cut into lines

  lemma TerminatedEndsLine(content: string)
    ensures EndsLine(Terminated(content))
    ensures Terminated(content) == content || Terminated(content) == content + "\n"
  {
  }

  lemma RecordLines(d: string, f: File)
    requires '\n' !in d && '\n' !in f.path
    ensures EndsLine(Record(d, f))
    ensures Lines(Record(d, f)) == [Header(d, f.path)] + Lines(Terminated(f.content))
  {
    var t := Terminated(f.content);
    TerminatedEndsLine(f.content);
    assert Record(d, f) == Header(d, f.path) + "\n" + t;
    LinesCons(Header(d, f.path), t);
  }

  lemma {:induction false} RenderLines(d: string, files: seq<File>)
    requires '\n' !in d
    requires forall k :: 0 <= k < |files| ==> '\n' !in files[k].path
    ensures Lines(Render(d, files)) == Layout(d, files)
    decreases |files|
  {
    if files != [] {
      var f, rest := files[0], files[1..];
      assert files == [f] + rest;
      RenderCons(d, f, rest);
      RecordLines(d, f);
      LinesConcat(Record(d, f), Render(d, rest));
      RenderLines(d, rest);
    }
  }

  lemma {:induction false} RenderNoCR(d: string, files: seq<File>)
    requires '\r' !in d
    requires forall k :: 0 <= k < |files| ==> '\r' !in files[k].path && '\r' !in files[k].content
    ensures '\r' !in Render(d, files)
    decreases |files|
  {
    if files != [] {
      RenderNoCR(d, files[..|files| - 1]);
      TerminatedEndsLine(files[|files| - 1].content);
    }
  }

  // ---------------------------------------------------------------------------------------
  // One content

  /** The lines the reader sees of a written content are its first pieces when cut at line feeds. */
  lemma ContentLines(c: string)
    ensures var ls := Lines(Terminated(c));
      |ls| <= |Split(c, '\n')| && forall k :: 0 <= k < |ls| ==> ls[k] == Split(c, '\n')[k]
  {
    var t := Terminated(c);
    SplitIsLines(c);
    if c != [] && !EndsLine(c) {
      assert t == c + "\n";
      JoinLines(t);
      var j := Join(Lines(t), "\n");
      assert j == (j + "\n")[..|j|];
      assert j == c;
      SplitJoin(Lines(t), '\n');
    }
  }

  /** A written content reads back as Stored. */
  lemma StoredBody(c: string)
    ensures Body(Lines(Terminated(c))) == Stored(c)
  {
    var t := Terminated(c);
    if c != [] {
      TerminatedEndsLine(c);
      JoinLines(t);
      var j := Join(Lines(t), "\n");
      if j == [] {
        assert t == "\n";
      }
    }
  }

  /** No line of a content that does not collide opens a record. */
  lemma ContentStaysContent(d: string, c: string)
    requires !ContentCollides(d, c)
    ensures NoRecordStarts(d, Lines(Terminated(c)))
  {
    var ls := Lines(Terminated(c));
    ContentLines(c);
    forall k | 0 <= k < |ls|
      ensures !StartsRecord(d, ls[k])
    {
      assert !LineCollides(d, Split(c, '\n')[k]);
    }
  }

  // ---------------------------------------------------------------------------------------
  // The records

  /** The declaration line written for a readable path is read as declaring that path. */
  lemma HeaderDeclares(d: string, path: string)
    requires ReadablePath(path)
    ensures StartsRecord(d, Header(d, path)) && DeclaredPath(d, Header(d, path)) == path
  {
    var h := Header(d, path);
    assert h[..|d| + 1] == d + " ";
    assert h[|d| + 1..] == path;
  }

  /** What Readable gives for the first file, and for the files after it. */
  lemma ReadableFirst(d: string, files: seq<File>)
    requires Readable(d, files) && files != []
    ensures ReadablePath(files[0].path)
    ensures !ContentCollides(d, files[0].content)
    ensures Readable(d, files[1..])
    ensures forall k :: 0 <= k < |files[1..]| ==> files[1..][k].path != files[0].path
  {
    var rest := files[1..];
    assert ContentCollides(d, files[0].content) ==> Collides(files, d);
    forall e | 0 <= e < |rest| && ContentCollides(d, rest[e].content)
      ensures Collides(files, d)
    {
      assert rest[e] == files[e + 1];
    }
    assert DistinctPaths(rest) by {
      forall i, j | 0 <= i < j < |rest|
        ensures rest[i].path != rest[j].path
      {
        assert rest[i] == files[i + 1] && rest[j] == files[j + 1];
      }
    }
    forall k | 0 <= k < |rest|
      ensures rest[k].path != files[0].path
    {
      assert rest[k] == files[k + 1];
    }
  }

  /** A written declaration line closes the current record and opens the next, which starts
      on line `after` with `declared` the paths seen so far. */
  lemma RecordsAtHeader(d: string, path: string, cl: seq<string>, f: File, ls: seq<string>,
                        next: nat, seen: set<string>, after: nat, declared: set<string>)
    requires NoRecordStarts(d, cl)
    requires ReadablePath(f.path) && f.path !in seen
    requires after == next + |cl| + 1 && declared == seen + {f.path}
    ensures Records(d, path, cl + ([Header(d, f.path)] + ls), next, seen) ==
      Prepend([File(path, Body(cl))], Records(d, f.path, ls, after, declared))
  {
    var all := [Header(d, f.path)] + ls;
    HeaderDeclares(d, f.path);
    RecordsAtStart(d, path, cl, all, next, seen);
    assert all[1..] == ls;
  }

  /** Readable, file by file: each path readable and not declared before, each content
      free of lines that open a record. */
  predicate Chained(d: string, files: seq<File>, seen: set<string>)
    decreases |files|
  {
    files == [] ||
      (&& ReadablePath(files[0].path)
       && files[0].path !in seen
       && NoRecordStarts(d, Lines(Terminated(files[0].content)))
       && Chained(d, files[1..], seen + {files[0].path}))
  }

  lemma {:induction false} ReadableIsChained(d: string, files: seq<File>, seen: set<string>)
    requires Readable(d, files)
    requires forall k :: 0 <= k < |files| ==> files[k].path !in seen
    ensures Chained(d, files, seen)
    decreases |files|
  {
    if files != [] {
      var f, rest := files[0], files[1..];
      ReadableFirst(d, files);
      ContentStaysContent(d, f.content);
      forall k | 0 <= k < |rest|
        ensures rest[k].path !in seen + {f.path}
      {
        assert rest[k] == files[k + 1];
      }
      ReadableIsChained(d, rest, seen + {f.path});
    }
  }

  /** One record of the layout: the declaration line and the content of the first file,
      then the records of the files after it. */
  lemma {:induction false} RecordsStep(d: string, path: string, cl: seq<string>, f: File, rest: seq<File>,
                                        next: nat, seen: set<string>)
    requires NoRecordStarts(d, cl)
    requires Chained(d, [f] + rest, seen)
    ensures Records(d, path, cl + Layout(d, [f] + rest), next, seen) ==
      Ok([File(path, Body(cl))] + StoredFiles([f] + rest))
    decreases |rest| + 1, 0
  {
    var files := [f] + rest;
    var body := Lines(Terminated(f.content));
    var tail := body + Layout(d, rest);
    var first := File(path, Body(cl));
    var stored := StoredFiles(rest);
    var after := next + |cl| + 1;
    var declared := seen + {f.path};
    calc {
      Records(d, path, cl + Layout(d, files), next, seen);
      { assert files[1..] == rest;
        assert Layout(d, files) == [Header(d, f.path)] + tail; }
      Records(d, path, cl + ([Header(d, f.path)] + tail), next, seen);
      { RecordsAtHeader(d, path, cl, f, tail, next, seen, after, declared); }
      Prepend([first], Records(d, f.path, tail, after, declared));
      { assert files[1..] == rest;
        RecordsLayout(d, f.path, body, rest, after, declared); }
      Prepend([first], Ok([File(f.path, Body(body))] + stored));
      { StoredBody(f.content); }
      Ok([first] + ([File(f.path, Stored(f.content))] + stored));
      { StoredCons(f, rest); }
      Ok([first] + StoredFiles(files));
    }
  }

  lemma {:induction false} RecordsLayout(d: string, path: string, cl: seq<string>, files: seq<File>,
                                          next: nat, seen: set<string>)
    requires NoRecordStarts(d, cl)
    requires Chained(d, files, seen)
    ensures Records(d, path, cl + Layout(d, files), next, seen) ==
      Ok([File(path, Body(cl))] + StoredFiles(files))
    decreases |files|, 1
  {
    if files == [] {
      RecordsAtEnd(d, path, cl, next, seen);
      assert Records(d, path, cl + Layout(d, files), next, seen) == Records(d, path, cl, next, seen) by {
        assert cl + Layout(d, files) == cl;
      }
      assert [File(path, Body(cl))] + StoredFiles(files) == [File(path, Body(cl))];
    } else {
      assert files == [files[0]] + files[1..];
      RecordsStep(d, path, cl, files[0], files[1..], next, seen);
    }
  }

  // ---------------------------------------------------------------------------------------
  // The round trip

  /** The first line of the layout is read as the first file's declaration. */
  lemma HeaderDetected(v: Variant, d: string, path: string)
    requires ReadableDelimiter(v, d) && ReadablePath(path)
    ensures !AllSpace(Header(d, path))
    ensures Detect(v, Header(d, path)) == Ok(Declaration(d, path))
  {
    var h := Header(d, path);
    assert h[0] == d[0];
    TrimSpaceShape(path);
    assert h[|h| - 1] == path[|path| - 1];
    TrimSpaceShape(h);
    DetectComplete(v, h, d, path);
  }

  /** The parser reads the layout's lines back into the stored files. */
  lemma ParseLayout(v: Variant, d: string, files: seq<File>)
    requires ReadableDelimiter(v, d)
    requires Readable(d, files)
    ensures ParseLines(v, Layout(d, files)) ==
      Ok(Archive(if files == [] then "" else d, StoredFiles(files)))
  {
    if files == [] {
      assert StoredFiles(files) == [];
    } else {
      var f, rest := files[0], files[1..];
      assert ReadablePath(f.path) && NoRecordStarts(d, Lines(Terminated(f.content)))
        && Chained(d, rest, {f.path}) by {
        ReadableFirst(d, files);
        ContentStaysContent(d, f.content);
        ReadableIsChained(d, rest, {f.path});
      }
      assert files == [f] + rest;
      ParseLayoutCons(v, d, f, rest);
    }
  }

  lemma ParseLayoutCons(v: Variant, d: string, f: File, rest: seq<File>)
    requires ReadableDelimiter(v, d)
    requires ReadablePath(f.path) && NoRecordStarts(d, Lines(Terminated(f.content)))
    requires Chained(d, rest, {f.path})
    ensures ParseLines(v, Layout(d, [f] + rest)) == Ok(Archive(d, StoredFiles([f] + rest)))
  {
    var files := [f] + rest;
    var body := Lines(Terminated(f.content));
    var tail := body + Layout(d, rest);
    var ls := [Header(d, f.path)] + tail;
    var after: nat := 1;
    var declared := {f.path};
    assert Layout(d, files) == ls by {
      assert files[0] == f && files[1..] == rest;
    }
    assert ls[1..] == tail;
    HeaderDetected(v, d, f.path);
    ParseAtDeclaration(v, ls, Declaration(d, f.path));
    RecordsLayout(d, f.path, body, rest, after, declared);
    StoredBody(f.content);
    StoredCons(f, rest);
  }

  /** Reading back the text written for the files with delimiter d gives the files back. */
  lemma RoundTrip(v: Variant, d: string, files: seq<File>)
    requires ReadableDelimiter(v, d)
    requires Readable(d, files)
    ensures ParseText(v, Render(d, files)) ==
      Ok(Archive(if files == [] then "" else d, StoredFiles(files)))
  {
    var text := Render(d, files);
    forall k | 0 <= k < |d|
      ensures d[k] != '\n' && d[k] != '\r'
    {
      assert IsDelimiterChar(v, d[k]);
    }
    RenderNoCR(d, files);
    ReadLinesPlain(text);
    RenderLines(d, files);
    ParseLayout(v, d, files);
  }

  // ---------------------------------------------------------------------------------------
  // WriteTo followed by the reader

  /** Every delimiter findSafeDelimiter may choose is detected by both readers. */
  lemma CandidateReadable(v: Variant, d: string)
    requires IsCandidate(d)
    ensures ReadableDelimiter(v, d)
  {
    forall k | 0 <= k < |d|
      ensures IsDelimiterChar(v, d[k]) && d[k] != RuneError
    {
      assert d[k] == d[0];
    }
  }

  /**
   * What WriteTo writes, the matching reader reads back: the files in order with their
   * paths and stored contents, under the delimiter the writer used (chosen or the caller's).
   */
  lemma WriteThenRead(v: Variant, d: string, files: seq<File>)
    requires d == "" || ReadableDelimiter(v, d)
    requires DistinctPaths(files)
    requires forall k :: 0 <= k < |files| ==> ReadablePath(files[k].path)
    requires forall k :: 0 <= k < |files| ==> '\r' !in files[k].content
    requires Serialize(d, files).Ok?
    ensures var out := Serialize(d, files).value;
      ParseText(v, out.text) == Ok(Archive(if files == [] then "" else out.delimiter, StoredFiles(files)))
  {
    var out := Serialize(d, files).value;
    if d == "" {
      AutoDelimiterIsSafe(files);
      CandidateReadable(v, out.delimiter);
    } else {
      ExplicitDelimiterChecked(d, files);
    }
    RoundTrip(v, out.delimiter, files);
  }

  /** Reading back is stable: storing a stored content changes nothing, so a document that
      was read, written and read again has the same files. */
  lemma StoredIsStable(files: seq<File>)
    ensures StoredFiles(StoredFiles(files)) == StoredFiles(files)
  {
    forall k | 0 <= k < |files|
      ensures Stored(Stored(files[k].content)) == Stored(files[k].content)
    {
      var c := files[k].content;
      if c != "\n" && c != "" && !HasSuffix(c, "\n") {
        assert Terminated(c) == c + "\n";
        assert HasSuffix(c + "\n", "\n");
        assert c + "\n" != "\n";
      }
    }
  }
}

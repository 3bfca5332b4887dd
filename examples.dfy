/**
 * Worked cases of the model on the inputs the repository's own tests use. Contents built
 * from lines are written as Join(lines, "\n"), so "a\nb\n" is Join(["a", "b", ""], "\n").
 */
module Examples {
  import opened Wrappers
  import opened GoStrings
  import opened Format
  import opened Selector
  import opened Parser
  import opened Writer
  import opened Glob

  // ---------------------------------------------------------------------------------------
  // Declaration lines and paths

  lemma DetectArrow(v: Variant)
    ensures Detect(v, "-> file.txt") == Ok(Declaration("->", "file.txt"))
  {
    var line, d, path := "-> file.txt", "->", "file.txt";
    assert TrimSpace(line) == d + " " + path by {
      TrimSpaceShape(line);
    }
    assert TrimSpace(path) == path by {
      TrimSpaceShape(path);
    }
    DetectComplete(v, line, d, path);
  }

  /** A line without a space after the run is no declaration, under either rule. */
  lemma DetectNoSpace(v: Variant)
    ensures Detect(v, "file.txt") == Err(InvalidDeclaration)
  {
    NoSpaceLine(v, "file.txt");
  }

  /** A trimmed line, the whole of it a run of delimiter characters under Unicode and none
      of it under Punctuation, is no declaration. */
  lemma NoSpaceLine(v: Variant, line: string)
    requires line == "file.txt"
    ensures Detect(v, line) == Err(InvalidDeclaration)
  {
    assert TrimSpace(line) == line by {
      TrimSpaceShape(line);
    }
    if v.Unicode? {
      assert line[..|line|] == line;
      RunEndsAt(v, line, |line|);
    } else {
      RunEndsAt(v, line, 0);
    }
  }

  lemma DetectBare(v: Variant)
    ensures Detect(v, ">") == Err(InvalidDeclaration)
    ensures Detect(v, "> ") == Err(InvalidDeclaration)
    ensures Detect(v, "") == Err(EmptyLine)
  {
    BareRun(v, ">");
    TrailingSpace("> ", ">");
    SameTrim(v, "> ", ">");
  }

  /**
   * A declaration with a non-ASCII delimiter: silo.go's rule accepts the turtle emoji, while
   * tortise_go.go's isPunctuation refuses it, so the Tortise parser sees no delimiter there.
   */
  lemma EmojiDelimiter()
    ensures Detect(Unicode, "\U{1F422} file.txt") == Ok(Declaration("\U{1F422}", "file.txt"))
    ensures Detect(Punctuation, "\U{1F422} file.txt") == Err(InvalidDeclaration)
  {
    var line, d, path := "\U{1F422} file.txt", "\U{1F422}", "file.txt";
    assert TrimSpace(line) == d + " " + path by {
      TrimSpaceShape(line);
    }
    assert TrimSpace(path) == path by {
      TrimSpaceShape(path);
    }
    DetectComplete(Unicode, line, d, path);
    RunEndsAt(Punctuation, line, 0);
  }

  /** A run of delimiter characters with nothing after it is no declaration. */
  lemma BareRun(v: Variant, line: string)
    requires line == ">"
    ensures Detect(v, line) == Err(InvalidDeclaration)
  {
    TrimSpaceShape(line);
    RunEndsAt(v, line, 1);
  }

  lemma TrailingSpace(line: string, t: string)
    requires line == "> " && t == ">"
    ensures TrimSpace(line) == t
  {
    assert TrimLeft(line) == line by { assert !IsSpace(line[0]); }
    assert line[..|line| - 1] == t && IsSpace(line[|line| - 1]);
    assert TrimRight(t) == t by { assert !IsSpace(t[0]); }
  }

  /** Detect looks at the trimmed line only. */
  lemma SameTrim(v: Variant, a: string, b: string)
    requires TrimSpace(a) == TrimSpace(b) == b
    ensures Detect(v, a) == Detect(v, b)
  {
  }

  /** Empty input is the empty document, with no delimiter. */
  lemma EmptyInput(v: Variant)
    ensures ParseText(v, "") == Ok(Archive("", []))
  {
    ParseBlank(v, ReadLines(""));
  }

  /** Two lines l and m, each ended by a line feed, are read as those two lines. */
  lemma TwoLines(l: string, m: string)
    requires '\n' !in l && '\r' !in l && '\n' !in m && '\r' !in m
    ensures ReadLines(l + "\n" + m + "\n") == [l, m]
  {
    var input := l + "\n" + m + "\n";
    assert '\r' !in input by {
      assert input == l + ("\n" + m + "\n");
    }
    ReadLinesPlain(input);
    assert input == l + "\n" + (m + "\n");
    LinesCons(l, m + "\n");
    assert m + "\n" == m + "\n" + "";
    LinesCons(m, "");
  }

  /** A declaration with an empty path is no declaration: "> " trims to ">". */
  lemma ParseEmptyPath(v: Variant)
    ensures ParseText(v, "> \ncontent\n") == Err(DetectFailed(1, InvalidDeclaration))
  {
    var input, ls := "> \ncontent\n", ["> ", "content"];
    assert input == "> " + "\n" + "content" + "\n";
    TwoLines("> ", "content");
    DetectBare(v);
    DetectFailurePropagates(v, ls, 0, InvalidDeclaration);
    assert ParseText(v, input) == ParseLines(v, ls);
  }

  lemma ArrowIsDelimiter(v: Variant)
    ensures IsDelimiter(v, ">")
  {
    assert IsDelimiterChar(v, ">"[0]);
  }

  /** "> " followed by a path without end spaces declares that path under ">". */
  lemma ArrowLine(v: Variant, p: string)
    requires p != [] && !IsSpace(p[0]) && !IsSpace(p[|p| - 1])
    ensures Detect(v, "> " + p) == Ok(Declaration(">", p))
  {
    var line := "> " + p;
    assert TrimSpace(line) == line && TrimSpace(p) == p by {
      TrimSpaceShape(line);
      TrimSpaceShape(p);
    }
    assert line == ">" + " " + p;
    ArrowIsDelimiter(v);
    DetectComplete(v, line, ">", p);
  }

  /** The reader parses the lines it cuts the text into. */
  lemma ParseTextOf(v: Variant, input: string, ls: seq<string>)
    requires ReadLines(input) == ls
    ensures ParseText(v, input) == ParseLines(v, ls)
  {
  }

  /** The first declaration's path p, followed by a line m, is refused with error e, on line 1. */
  lemma ParseBadPath(v: Variant, p: string, e: PathError, m: string)
    requires p != [] && '\n' !in p && '\r' !in p
    requires !IsSpace(p[0]) && !IsSpace(p[|p| - 1])
    requires Format.ValidatePath(p) == Some(e)
    requires '\n' !in m && '\r' !in m
    ensures ParseText(v, "> " + p + "\n" + m + "\n") == Err(BadPath(1, p, e))
  {
    var line := "> " + p;
    TwoLines(line, m);
    ParseTextOf(v, line + "\n" + m + "\n", [line, m]);
    BadFirstDeclaration(v, [line, m], p, e);
  }

  /** Lines opening with "> p", for a path p that validatePath refuses, fail on line 1. */
  lemma BadFirstDeclaration(v: Variant, ls: seq<string>, p: string, e: PathError)
    requires ls != [] && ls[0] == "> " + p
    requires p != [] && !IsSpace(p[0]) && !IsSpace(p[|p| - 1])
    requires Format.ValidatePath(p) == Some(e)
    ensures ParseLines(v, ls) == Err(BadPath(1, p, e))
  {
    assert Detect(v, ls[0]) == Ok(Declaration(">", p)) by {
      ArrowLine(v, p);
    }
    assert FirstNonBlank(ls) == 0 by {
      assert !IsSpace(ls[0][0]);
    }
    FirstPathRejected(v, ls, 0, Declaration(">", p), e);
  }

  /** The invalid-path parse test: "> /absolute/path" then "content" is refused on line 1. */
  lemma ParseAbsolutePath(v: Variant)
    ensures ParseText(v, "> " + "/absolute/path" + "\n" + "content" + "\n") ==
      Err(BadPath(1, "/absolute/path", AbsolutePath))
  {
    assert Format.ValidatePath("/absolute/path") == Some(AbsolutePath);
    ParseBadPath(v, "/absolute/path", AbsolutePath, "content");
  }

  /** The invalid-path parse test: "> ../parent/path" then "content" is refused on line 1. */
  lemma ParseParentPath(v: Variant)
    ensures ParseText(v, "> " + "../parent/path" + "\n" + "content" + "\n") ==
      Err(BadPath(1, "../parent/path", ParentReference))
  {
    assert Format.ValidatePath("../parent/path") == Some(ParentReference) by {
      ParentPathRejected("../parent/path", 0);
    }
    ParseBadPath(v, "../parent/path", ParentReference, "content");
  }

  /** The invalid-path parse test: "> ." then "content" is refused on line 1. */
  lemma ParseDotPath(v: Variant)
    ensures ParseText(v, "> " + "." + "\n" + "content" + "\n") == Err(BadPath(1, ".", InvalidPath))
  {
    ParseBadPath(v, ".", InvalidPath, "content");
  }

  /** No two dots in a row: the ".." check passes. */
  lemma NoDoubleDot(s: string)
    requires forall i :: 0 <= i < |s| - 1 && s[i] == '.' ==> s[i + 1] != '.'
    ensures !Contains(s, "..")
  {
    forall i | 0 <= i <= |s| - 2
      ensures !OccursAt(s, "..", i)
    {
      assert s[i..i + 2][0] == s[i] && s[i..i + 2][1] == s[i + 1];
    }
  }

  /** A relative path without NUL and without two dots in a row is accepted. */
  lemma PlainPathAccepted(p: string)
    requires p != "" && p != "." && p[0] != '/' && '\0' !in p
    requires forall i :: 0 <= i < |p| - 1 && p[i] == '.' ==> p[i + 1] != '.'
    ensures Format.ValidatePath(p) == None
  {
    NoDoubleDot(p);
  }

  /** The plain valid paths of the path test. */
  lemma ValidPathExamples()
    ensures Format.ValidatePath("file.txt") == None
    ensures Format.ValidatePath("dir/file.txt") == None
  {
    PlainPathAccepted("file.txt");
    PlainPathAccepted("dir/file.txt");
  }

  /** The valid paths of the path test with deep nesting or dashes. */
  lemma ValidPathExamplesNested()
    ensures Format.ValidatePath("deeply/nested/dir/file.txt") == None
    ensures Format.ValidatePath("file-with-dashes.txt") == None
  {
    PlainPathAccepted("deeply/nested/dir/file.txt");
    PlainPathAccepted("file-with-dashes.txt");
  }

  /** The valid paths of the path test with underscores or several dots. */
  lemma ValidPathExamplesDotted()
    ensures Format.ValidatePath("file_with_underscores.txt") == None
    ensures Format.ValidatePath("file.with.dots.txt") == None
  {
    PlainPathAccepted("file_with_underscores.txt");
    PlainPathAccepted("file.with.dots.txt");
  }

  /** A relative path with ".." at position i is refused for it. */
  lemma ParentPathRejected(p: string, i: nat)
    requires p != "" && p != "." && p[0] != '/'
    requires i + 2 <= |p| && p[i] == '.' && p[i + 1] == '.'
    ensures Format.ValidatePath(p) == Some(ParentReference)
  {
    assert p[i..i + 2] == "..";
    assert OccursAt(p, "..", i);
  }

  lemma InvalidPathExamples()
    ensures Format.ValidatePath("") == Some(InvalidPath)
    ensures Format.ValidatePath(".") == Some(InvalidPath)
    ensures Format.ValidatePath("/absolute/path") == Some(AbsolutePath)
    ensures Format.ValidatePath("../parent") == Some(ParentReference)
    ensures Format.ValidatePath("dir/../parent") == Some(ParentReference)
    ensures Format.ValidatePath("path/with/../parent") == Some(ParentReference)
  {
    ParentPathRejected("../parent", 0);
    ParentPathRejected("dir/../parent", 4);
    ParentPathRejected("path/with/../parent", 10);
  }

  // ---------------------------------------------------------------------------------------
  // Choosing a delimiter

  /** A content made of lines collides exactly when one of its lines does. */
  lemma ContentOfLines(d: string, ls: seq<string>)
    requires |ls| >= 1 && forall k :: 0 <= k < |ls| ==> '\n' !in ls[k]
    ensures ContentCollides(d, Join(ls, "\n")) <==> AnyLineCollides(d, ls)
  {
    SplitJoin(ls, '\n');
  }

  lemma OneFile(files: seq<File>, d: string)
    requires |files| == 1
    ensures Collides(files, d) <==> ContentCollides(d, files[0].content)
  {
  }

  /** A delimiter whose first character the content lacks cannot collide with it. */
  lemma MissingFirstChar(d: string, c: string)
    requires d != [] && d[0] !in c
    ensures !ContentCollides(d, c)
  {
    forall k | 0 <= k < |Split(c, '\n')|
      ensures !LineCollides(d, Split(c, '\n')[k])
    {
      var piece := Split(c, '\n')[k];
      SplitPiecesOccur(c, '\n', k);
      if piece != [] {
        var i :| 0 <= i <= |c| - |piece| && OccursAt(c, piece, i);
        assert c[i] == c[i..i + |piece|][0] == piece[0];
      }
    }
  }

  lemma MissingFirstCharEverywhere(files: seq<File>, d: string)
    requires d != []
    requires forall f :: 0 <= f < |files| ==> d[0] !in files[f].content
    ensures !Collides(files, d)
  {
    forall f | 0 <= f < |files|
      ensures !ContentCollides(d, files[f].content)
    {
      MissingFirstChar(d, files[f].content);
    }
  }

  lemma NoConflictPrefersGreaterThan(files: seq<File>)
    requires files == [File("file1.txt", "hello world\n"), File("file2.txt", "another line\n")]
    ensures SafeDelimiter(files) == Some(">")
  {
    MissingFirstCharEverywhere(files, ">");
    NothingCollidesGivesFirst(files);
  }

  lemma FirstCandidates()
    ensures Candidate(0) == ">" && Candidate(1) == "=" && Candidate(2) == "*" && Candidate(3) == "-"
    ensures Candidate(4) == ">>"
  {
  }

  /** A content whose first line starts with "> " and whose other lines do not start with '='. */
  lemma ConflictLines(ls: seq<string>, other: string)
    requires ls == ["> this conflicts", other, ""] && other != [] && other[0] != '=' && '\n' !in other
    ensures ContentCollides(">", Join(ls, "\n")) && !ContentCollides("=", Join(ls, "\n"))
  {
    assert LineCollides(">", ls[0]);
    forall k | 0 <= k < |ls|
      ensures !LineCollides("=", ls[k])
    {
      assert ls[k] == [] || ls[k][0] != '=';
    }
    ContentOfLines(">", ls);
    ContentOfLines("=", ls);
  }

  /** With ">" colliding and "=" not, the selector chooses "=". */
  lemma EqualsChosen(files: seq<File>)
    requires Collides(files, ">") && !Collides(files, "=")
    ensures SafeDelimiter(files) == Some("=")
  {
    FirstCandidates();
    ChosenAt(files, 1);
  }

  lemma ConflictPrefersEquals(files: seq<File>)
    requires files == [File("file1.txt", Join(["> this conflicts", "hello world", ""], "\n"))]
    ensures SafeDelimiter(files) == Some("=")
  {
    ConflictLines(["> this conflicts", "hello world", ""], "hello world");
    OneFile(files, ">");
    OneFile(files, "=");
    EqualsChosen(files);
  }

  /** ">" directly followed by text, with no space, does not block ">". */
  lemma GreaterThanWithoutSpace(files: seq<File>)
    requires files == [File("test.txt", Join([">noSpace", ">alsoNoSpace"], "\n"))]
    ensures SafeDelimiter(files) == Some(">")
  {
    var ls := [">noSpace", ">alsoNoSpace"];
    assert !ContentCollides(">", files[0].content) by {
      SplitJoin(ls, '\n');
      NoSpaceAfterArrow(ls);
    }
    OneFile(files, ">");
    NothingCollidesGivesFirst(files);
  }

  lemma NoSpaceAfterArrow(ls: seq<string>)
    requires ls == [">noSpace", ">alsoNoSpace"]
    ensures !AnyLineCollides(">", ls)
  {
    forall k | 0 <= k < |ls|
      ensures !LineCollides(">", ls[k])
    {
      assert ls[k][1] != ' ';
    }
  }

  lemma SingleCandidate(j: nat)
    requires j < 4
    ensures Candidate(j) == [Bases[j]]
  {
  }

  lemma SinglesLines(ls: seq<string>)
    requires ls == ["> conflicts", "= also conflicts", "* also conflicts", "- also conflicts", ""]
    ensures forall b :: 0 <= b < 4 ==> ContentCollides([Bases[b]], Join(ls, "\n"))
    ensures !ContentCollides(">>", Join(ls, "\n"))
  {
    forall b | 0 <= b < 4
      ensures ContentCollides([Bases[b]], Join(ls, "\n"))
    {
      assert LineCollides([Bases[b]], ls[b]);
      ContentOfLines([Bases[b]], ls);
    }
    forall k | 0 <= k < |ls|
      ensures !LineCollides(">>", ls[k])
    {
      assert ls[k] == [] || ls[k][1] != '>';
    }
    ContentOfLines(">>", ls);
  }

  /** When every one-character candidate collides, the selector moves on to ">>". */
  lemma AllSinglesBlocked(ls: seq<string>, files: seq<File>)
    requires ls == ["> conflicts", "= also conflicts", "* also conflicts", "- also conflicts", ""]
    requires files == [File("file1.txt", Join(ls, "\n"))]
    ensures SafeDelimiter(files) == Some(">>")
  {
    SinglesLines(ls);
    FirstCandidates();
    forall j | 0 <= j < 4
      ensures Collides(files, Candidate(j))
    {
      SingleCandidate(j);
      OneFile(files, Candidate(j));
    }
    OneFile(files, ">>");
    ChosenAt(files, 4);
  }

  // ---------------------------------------------------------------------------------------
  // Writing

  /** A delimiter set by the caller that collides is refused, naming the file and
      suggesting the delimiter the selector picks. */
  lemma ExplicitCollisionSuggests(files: seq<File>)
    requires files == [File("conflict.txt", Join(["> this conflicts", "normal content", ""], "\n"))]
    ensures Serialize(">", files) == Err(Conflict(">", "conflict.txt", Some("=")))
  {
    ConflictLines(["> this conflicts", "normal content", ""], "normal content");
    OneFile(files, ">");
    OneFile(files, "=");
    EqualsChosen(files);
    OnlyFileCollides(">", files);
  }

  lemma OnlyFileCollides(d: string, files: seq<File>)
    requires |files| == 1 && ContentCollides(d, files[0].content)
    ensures FirstCollision(d, files) == Some(0)
  {
  }

  lemma RenderTwo(d: string, f: File, g: File)
    ensures Render(d, [f, g]) == Record(d, f) + Record(d, g)
  {
    assert [f, g] == [f] + [g];
    RenderCons(d, f, [g]);
    assert [g] == [g] + [];
    RenderCons(d, g, []);
  }

  /** A content that already ends with a line feed is written as it is. */
  lemma TerminatedKeeps(c: string)
    requires c != [] && c[|c| - 1] == '\n'
    ensures Terminated(c) == c
  {
  }

  lemma AutoConflictLine(c: string)
    requires c == "> this line conflicts with >\n"
    ensures ContentCollides(">", c)
  {
    var first := "> this line conflicts with >";
    assert c == Join([first, ""], "\n");
    assert LineCollides(">", first);
    ContentOfLines(">", [first, ""]);
  }

  lemma NoEquals(files: seq<File>)
    requires files == [File("file1.txt", "> this line conflicts with >\n"), File("file2.txt", "normal content\n")]
    ensures forall f :: 0 <= f < |files| ==> '=' !in files[f].content
  {
  }

  lemma FirstHeader()
    ensures "=" + " " + "file1.txt" + "\n" == "= file1.txt\n"
  {
  }

  /** With ">" colliding and "=" not, the writer chooses "=". */
  lemma AutoChoosesEquals(files: seq<File>)
    requires Collides(files, ">") && !Collides(files, "=")
    ensures Serialize("", files) == Ok(Output("=", Render("=", files)))
  {
    EqualsChosen(files);
  }

  /** The text written under d, seen from its first declaration line. */
  lemma RecordIs(d: string, f: File, head: string)
    requires d + " " + f.path + "\n" == head
    ensures Record(d, f) == head + Terminated(f.content)
  {
  }

  lemma RenderFirst(d: string, f: File, rest: seq<File>, head: string)
    requires d + " " + f.path + "\n" == head
    ensures Render(d, [f] + rest) == head + (Terminated(f.content) + Render(d, rest))
  {
    var t, r := Terminated(f.content), Render(d, rest);
    assert Render(d, [f] + rest) == Record(d, f) + r by { RenderCons(d, f, rest); }
    assert Record(d, f) == head + t by { RecordIs(d, f, head); }
    Associative(head, t, r);
  }

  lemma PrefixOfConcat(a: string, b: string)
    ensures HasPrefix(a + b, a)
  {
    assert (a + b)[..|a|] == a;
  }

  /** With ">" colliding and "=" not, the text opens with the first file's "=" declaration. */
  lemma AutoPrefix(files: seq<File>, head: string)
    requires |files| >= 1 && "=" + " " + files[0].path + "\n" == head
    requires Collides(files, ">") && !Collides(files, "=")
    ensures Serialize("", files).Ok? && Serialize("", files).value.delimiter == "="
    ensures HasPrefix(Serialize("", files).value.text, head)
  {
    AutoChoosesEquals(files);
    var f, rest := files[0], files[1..];
    assert files == [f] + rest;
    RenderFirst("=", f, rest, head);
    PrefixOfConcat(head, Terminated(f.content) + Render("=", rest));
  }

  /** With no delimiter set, a content line "> ..." makes the writer choose "=". */
  lemma AutoDelimiterAvoidsConflict(files: seq<File>)
    requires files == [File("file1.txt", "> this line conflicts with >\n"), File("file2.txt", "normal content\n")]
    ensures Serialize("", files).Ok?
    ensures Serialize("", files).value.delimiter == "="
    ensures HasPrefix(Serialize("", files).value.text, "= file1.txt\n")
  {
    AutoConflictLine(files[0].content);
    assert Collides(files, ">");
    NoEquals(files);
    MissingFirstCharEverywhere(files, "=");
    FirstHeader();
    AutoPrefix(files, "= file1.txt\n");
  }

  lemma WriteHeaders()
    ensures ">" + " " + "file1.txt" + "\n" == "> file1.txt\n"
    ensures ">" + " " + "dir/file2.go" + "\n" == "> dir/file2.go\n"
  {
  }

  lemma NoGreaterThan(files: seq<File>)
    requires files == [File("file1.txt", "hello\n"), File("dir/file2.go", "package main\n")]
    ensures forall f :: 0 <= f < |files| ==> '>' !in files[f].content
    ensures forall f :: 0 <= f < |files| ==> Terminated(files[f].content) == files[f].content
  {
    forall f | 0 <= f < |files|
      ensures Terminated(files[f].content) == files[f].content
    {
      TerminatedKeeps(files[f].content);
    }
  }

  /** The text written for two files under a delimiter that no content collides with. */
  lemma TwoFileShape(d: string, f: File, g: File, a: string, c: string)
    requires d != "" && !Collides([f, g], d)
    requires d + " " + f.path + "\n" == a && d + " " + g.path + "\n" == c
    requires Terminated(f.content) == f.content && Terminated(g.content) == g.content
    ensures Serialize(d, [f, g]) == Ok(Output(d, a + f.content + c + g.content))
  {
    FirstCollisionFinds(d, [f, g]);
    RenderTwo(d, f, g);
    var x, y := a + f.content, c + g.content;
    assert Render(d, [f, g]) == x + y;
    assert x + y == x + c + g.content;
  }

  /** WriteTo with delimiter ">": one declaration line per file, each content as given. */
  lemma WriteTwoFiles(files: seq<File>)
    requires files == [File("file1.txt", "hello\n"), File("dir/file2.go", "package main\n")]
    ensures Serialize(">", files) ==
      Ok(Output(">", "> file1.txt\n" + "hello\n" + "> dir/file2.go\n" + "package main\n"))
  {
    NoGreaterThan(files);
    MissingFirstCharEverywhere(files, ">");
    WriteHeaders();
    assert files == [files[0], files[1]];
    TwoFileShape(">", files[0], files[1], "> file1.txt\n", "> dir/file2.go\n");
  }

  // ---------------------------------------------------------------------------------------
  // Glob patterns

  /** The shape of a pattern every check lets through. */
  lemma PlainPatternAccepted(p: string, allowAbsolute: bool)
    requires '%' !in p && p != [] && p[0] != '/' && !Contains(p, "..")
    requires |p| < 2 || p[1] != ':'
    ensures Glob.ValidatePattern(p, allowAbsolute) == None
  {
    ValidatePatternIsSafe(p, allowAbsolute);
  }

  lemma PatternsAccepted(allowAbsolute: bool)
    ensures Glob.ValidatePattern("*.go", allowAbsolute) == None
    ensures Glob.ValidatePattern("src/", allowAbsolute) == None
    ensures Glob.ValidatePattern("./file.txt", allowAbsolute) == None
    ensures Glob.ValidatePattern(".gitignore", allowAbsolute) == None
  {
    NoDoubleDot("*.go");
    PlainPatternAccepted("*.go", allowAbsolute);
    NoDoubleDot("src/");
    PlainPatternAccepted("src/", allowAbsolute);
    NoDoubleDot("./file.txt");
    PlainPatternAccepted("./file.txt", allowAbsolute);
    NoDoubleDot(".gitignore");
    PlainPatternAccepted(".gitignore", allowAbsolute);
  }

  lemma ParentPatternsRejected()
    ensures Glob.ValidatePattern("..", false) == Some(ParentDirectory)
    ensures Glob.ValidatePattern("src\\..\\windows", false) == Some(ParentDirectory)
  {
    ParentPatternRejected("..", 0);
    ParentPatternRejected("src\\..\\windows", 4);
  }

  /** A pattern holding ".." and no '%', '/' at its start or drive letter is refused for it. */
  lemma ParentPatternRejected(p: string, i: nat)
    requires p == ".." || (p == "src\\..\\windows" && i == 4)
    requires p == ".." ==> i == 0
    ensures Glob.ValidatePattern(p, false) == Some(ParentDirectory)
  {
    assert OccursAt(p, "..", i);
  }

  lemma AbsolutePatternRejected(p: string)
    requires p == "/etc/passwd"
    ensures Glob.ValidatePattern(p, false) == Some(AbsoluteNotAllowed)
    ensures Glob.ValidatePattern(p, true) == None
  {
    NoDoubleDot(p);
    assert p[0] == '/' && '%' !in p;
    ValidatePatternIsSafe(p, true);
  }

  lemma DriveLetterRejected(p: string)
    requires p == "C:\\Windows\\System32"
    ensures Glob.ValidatePattern(p, false) == Some(DriveLetter)
  {
    NoDoubleDot(p);
    assert p[0] != '/' && p[1] == ':' && '%' !in p;
  }

  /** One escape sequence h, decoding to c, in front of text that decodes. */
  lemma EscapedCharDecodes(h: string, rest: string, decoded: string, c: char)
    requires |h| == 3 && h[0] == '%' && IsHex(h[1]) && IsHex(h[2])
    requires c == (16 * HexValue(h[1]) + HexValue(h[2])) as char
    requires Unescape(rest) == Some(decoded)
    ensures Unescape(h + rest) == Some([c] + decoded)
  {
    var s := h + rest;
    assert s[0] == '%' && s[1] == h[1] && s[2] == h[2] && s[3..] == rest;
  }

  /** "%2e%2e%2f" decodes to "../" in front of whatever follows it. */
  lemma UnescapeParentStep(e: string, rest: string, decoded: string)
    requires e == "%2e%2e%2f" && Unescape(rest) == Some(decoded)
    ensures Unescape(e + rest) == Some("../" + decoded)
  {
    var dot, slash := "%2e", "%2f";
    assert e == dot + dot + slash;
    assert e + rest == dot + (dot + (slash + rest));
    EscapedCharDecodes(slash, rest, decoded, '/');
    EscapedCharDecodes(dot, slash + rest, ['/'] + decoded, '.');
    EscapedCharDecodes(dot, dot + (slash + rest), ['.'] + (['/'] + decoded), '.');
    ConsThree('.', '.', '/', decoded);
  }

  lemma ConsThree(a: char, b: char, c: char, rest: string)
    ensures [a] + ([b] + ([c] + rest)) == [a, b, c] + rest
  {
  }

  /** A traversal hidden by URL encoding is refused as an encoded pattern. */
  lemma EncodedTraversalRejected(e: string, p: string)
    requires e == "%2e%2e%2f" && p == e + e + e
    ensures Glob.ValidatePattern(p, false) == Some(EncodedForbidden)
  {
    var q := "../" + ("../" + "../");
    EncodedTraversalDecodes(e, p, q);
    assert OccursAt(q, "..", 0);
    assert p[0] == '%';
  }

  lemma EncodedTraversalDecodes(e: string, p: string, q: string)
    requires e == "%2e%2e%2f" && p == e + e + e && q == "../" + ("../" + "../")
    ensures Unescape(p) == Some(q)
  {
    UnescapeParentStep(e, [], []);
    assert e + [] == e && "../" + [] == "../";
    UnescapeParentStep(e, e, "../");
    UnescapeParentStep(e, e + e, "../" + "../");
    assert p == e + (e + e);
  }

  // ---------------------------------------------------------------------------------------
  // Expansion

  /** A relative file name that every check accepts, matched by itself. */
  lemma MatchesItself(x: Expander, option: GlobOption, pattern: string, f: string)
    requires !x.allowAbsolute && Glob.ValidatePattern(pattern, false) == None
    requires Glob.ValidatePattern(f, false) == None && !IsAbs(f)
    requires Glob.Glob(x.host, option, pattern) == Some([f])
    ensures Matches(x, option, pattern) == Ok([f])
    ensures Accepted(x, [f]) == Ok([f])
  {
    RelativePathIsPattern(f, false, x.host.resolve);
    assert Glob.ValidatePath(f, false, x.host.resolve) == None;
    assert Normalize(x, f) == f;
    var one := [f];
    assert one[..0] == [] && one[0] == f;
    assert Accepted(x, one[..0]) == Ok([]);
    assert [] + [f] == [f];
  }

  /** One more pattern appends its accepted matches. */
  lemma CollectStep(x: Expander, option: GlobOption, ps: seq<string>, p: string, ns: seq<string>, more: seq<string>)
    requires Collect(x, option, ps) == Ok(ns)
    requires Matches(x, option, p).Ok? && Accepted(x, Matches(x, option, p).value) == Ok(more)
    ensures Collect(x, option, ps + [p]) == Ok(ns + more)
  {
    var all := ps + [p];
    assert all[..|all| - 1] == ps && all[|all| - 1] == p;
  }

  /** A repeated element leaves the de-duplicated sequence as it is. */
  lemma DedupRepeat(s: seq<string>, y: string)
    requires y in s
    ensures Dedup(s + [y]) == Dedup(s)
  {
    var all := s + [y];
    assert all[..|all| - 1] == s && all[|all| - 1] == y;
  }

  /** A file matched by itself and by a second pattern is listed once, however often the
      patterns repeat. */
  lemma ExpandSameFile(x: Expander, option: GlobOption, f: string, g: string)
    requires !x.allowAbsolute && !IsAbs(f)
    requires Glob.ValidatePattern(f, false) == None && Glob.ValidatePattern(g, false) == None
    requires Glob.Glob(x.host, option, f) == Some([f]) && Glob.Glob(x.host, option, g) == Some([f])
    ensures Expand(x, option, [f, g, f]) == Ok([f])
  {
    CollectSameFile(x, option, f, g);
    DedupSame(f);
  }

  lemma CollectSameFile(x: Expander, option: GlobOption, f: string, g: string)
    requires !x.allowAbsolute && !IsAbs(f)
    requires Glob.ValidatePattern(f, false) == None && Glob.ValidatePattern(g, false) == None
    requires Glob.Glob(x.host, option, f) == Some([f]) && Glob.Glob(x.host, option, g) == Some([f])
    ensures Collect(x, option, [f, g, f]) == Ok([f, f, f])
  {
    MatchesItself(x, option, f, f);
    MatchesItself(x, option, g, f);
    assert Collect(x, option, []) == Ok([]);
    assert [] + [f] == [f];
    CollectStep(x, option, [], f, [], [f]);
    assert [f] + [g] == [f, g];
    CollectStep(x, option, [f], g, [f], [f]);
    assert [f] + [f] == [f, f];
    assert [f, g] + [f] == [f, g, f];
    CollectStep(x, option, [f, g], f, [f, f], [f]);
    assert [f, f] + [f] == [f, f, f];
  }

  lemma DedupSame(f: string)
    ensures Dedup([f, f, f]) == [f]
  {
    assert Dedup([f]) == [f] by {
      assert [f][..0] == [];
    }
    assert [f] + [f] == [f, f];
    DedupRepeat([f], f);
    assert [f, f] + [f] == [f, f, f];
    DedupRepeat([f, f], f);
  }

  /** Three patterns that all match the same file give that file once. */
  lemma ExpandDeduplicates(h: Host, ps: seq<string>)
    requires ps == ["test.go", "*.go", "test.go"]
    requires h.standardGlob("test.go") == Some(["test.go"]) && h.standardGlob("*.go") == Some(["test.go"])
    ensures Expand(Expander(false, h), StandardGlob, ps) == Ok(["test.go"])
  {
    var f, g := "test.go", "*.go";
    NoDoubleDot(f);
    PlainPatternAccepted(f, false);
    PatternsAccepted(false);
    assert !IsAbs(f);
    assert ps == [f, g, f];
    ExpandSameFile(Expander(false, h), StandardGlob, f, g);
  }
}

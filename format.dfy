/**
 * The archive format's data model and its line-level rules: which characters may form a
 * delimiter, how a declaration line `<delimiter> <path>` is recognised, and which paths are
 * safe. silo.go and tortise_go.go implement these identically except for the delimiter
 * character rule, which is the `Variant` parameter here.
 */
module Format {
  import opened Wrappers
  import opened GoStrings

  /** One archived file (SiloFile / TortiseFile). */
  datatype File = File(path: string, content: string)

  /** The value of a document: its delimiter ("" when unset) and its files in order. */
  datatype Archive = Archive(delimiter: string, files: seq<File>)

  /** The two delimiter-character rules of the format family. */
  datatype Variant =
    | Unicode      // silo.go: any character except space, tab, line feed, carriage return
    | Punctuation  // tortise_go.go: ASCII punctuation only

  /** silo.go's isValidDelimiterChar. */
  predicate IsValidDelimiterChar(c: char) {
    c != ' ' && c != '\t' && c != '\n' && c != '\r'
  }

  /** tortise_go.go's isPunctuation, applied to one byte of the line. */
  predicate IsPunctuation(c: char) {
    var r := c as int;
    if r > 127 then false
    else (33 <= r <= 47) || (58 <= r <= 64) || (91 <= r <= 96) || (123 <= r <= 126)
  }

  predicate IsDelimiterChar(v: Variant, c: char) {
    match v
    case Unicode => IsValidDelimiterChar(c)
    case Punctuation => IsPunctuation(c)
  }

  /** utf8.RuneError, which silo.go's decoder also reports for every invalid byte. */
  const RuneError: char := '\U{FFFD}'

  /** A delimiter the detector can produce: non-empty, delimiter characters only, and for
      the Unicode rule no character the decoder reports as an encoding error. */
  predicate IsDelimiter(v: Variant, d: string) {
    && d != []
    && AllDelimiterChars(v, d)
    && (v.Unicode? ==> !HasRuneError(d))
  }

  predicate AllDelimiterChars(v: Variant, s: string) {
    forall k :: 0 <= k < |s| ==> IsDelimiterChar(v, s[k])
  }

  predicate HasRuneError(s: string) {
    RuneError in s
  }

  // ---------------------------------------------------------------------------------------
  // Delimiter detection

  datatype DetectError = EmptyLine | InvalidEncoding | InvalidDeclaration | EmptyPath

  datatype Declaration = Declaration(delimiter: string, path: string)

  /** Length of the longest prefix of s made of delimiter characters. */
  function RunLength(v: Variant, s: string): (n: nat)
    ensures n <= |s|
    ensures AllDelimiterChars(v, s[..n])
    ensures n < |s| ==> !IsDelimiterChar(v, s[n])
  {
    if s == [] || !IsDelimiterChar(v, s[0]) then 0
    else
      var n := 1 + RunLength(v, s[1..]);
      assert s[..n] == [s[0]] + s[1..][..n - 1];
      n
  }

  /** t is d + " " + rest for a delimiter d, and the declared path is rest trimmed. */
  predicate IsDeclarationLine(v: Variant, t: string, decl: Declaration) {
    var d := decl.delimiter;
    && IsDelimiter(v, d)
    && |d| < |t| && t[..|d|] == d && t[|d|] == ' '
    && decl.path == TrimSpace(t[|d| + 1..]) && decl.path != []
  }

  /**
   * detectDelimiter: on the trimmed line, the maximal run of delimiter characters, then
   * exactly one space, then a path that is not blank once trimmed.
   */
  function Detect(v: Variant, line: string): (r: Result<Declaration, DetectError>)
    ensures r == Err(EmptyLine) <==> AllSpace(line)
    ensures r.Ok? ==> IsDeclarationLine(v, TrimSpace(line), r.value)
  {
    TrimSpaceShape(line);
    var t := TrimSpace(line);
    if t == [] then Err(EmptyLine) else ScanDeclaration(v, t)
  }

  /** Detect's scan of a line that is already trimmed and not blank. */
  function ScanDeclaration(v: Variant, t: string): (r: Result<Declaration, DetectError>)
    requires t != []
    ensures r != Err(EmptyLine)
    ensures r.Ok? ==> IsDeclarationLine(v, t, r.value)
  {
    var n := RunLength(v, t);
    if v.Unicode? && HasRuneError(t[..n]) then Err(InvalidEncoding)
    else if n == 0 then Err(InvalidDeclaration)
    else if n == |t| || t[n] != ' ' then Err(InvalidDeclaration)
    else
      var path := TrimSpace(t[n + 1..]);
      if path == [] then Err(EmptyPath)
      else Ok(Declaration(t[..n], path))
  }

  /** A leading stretch of delimiter characters belongs to the run. */
  lemma {:induction false} RunLengthOf(v: Variant, d: string, rest: string)
    requires AllDelimiterChars(v, d)
    ensures RunLength(v, d + rest) == |d| + RunLength(v, rest)
    decreases |d|
  {
    if d == [] {
      assert d + rest == rest;
    } else {
      assert (d + rest)[1..] == d[1..] + rest;
      RunLengthOf(v, d[1..], rest);
    }
  }

  /** The converse of Detect's postcondition: every line of that shape is a declaration. */
  lemma DetectComplete(v: Variant, line: string, d: string, rest: string)
    requires TrimSpace(line) == d + " " + rest
    requires IsDelimiter(v, d)
    requires TrimSpace(rest) != []
    ensures Detect(v, line) == Ok(Declaration(d, TrimSpace(rest)))
  {
    ScanComplete(v, d + " " + rest, d, rest);
  }

  lemma ScanComplete(v: Variant, t: string, d: string, rest: string)
    requires t == d + " " + rest
    requires IsDelimiter(v, d)
    requires TrimSpace(rest) != []
    ensures ScanDeclaration(v, t) == Ok(Declaration(d, TrimSpace(rest)))
  {
    DeclarationPieces(t, d, rest);
    RunLengthOf(v, d, " " + rest);
  }

  /** The parts of a declaration line, cut at the positions the scan uses. */
  lemma DeclarationPieces(t: string, d: string, rest: string)
    requires t == d + " " + rest
    ensures t == d + (" " + rest)
    ensures t[..|d|] == d && t[|d|] == ' ' && t[|d| + 1..] == rest
  {
  }

  /** Under the Unicode rule the run is never empty: the trimmed line starts with a character
      that is not white space, and every such character may start a delimiter. */
  lemma UnicodeRunNeverEmpty(line: string)
    requires Detect(Unicode, line) == Err(InvalidDeclaration)
    ensures var t := TrimSpace(line); var n := RunLength(Unicode, t);
      0 < n && (n == |t| || t[n] != ' ')
  {
    TrimSpaceShape(line);
  }

  /** A prefix of delimiter characters stopped by the end or by another character is the run. */
  lemma RunEndsAt(v: Variant, t: string, i: nat)
    requires i <= |t| && AllDelimiterChars(v, t[..i])
    requires i == |t| || !IsDelimiterChar(v, t[i])
    ensures RunLength(v, t) == i
  {
    assert t == t[..i] + t[i..];
    RunLengthOf(v, t[..i], t[i..]);
  }

  /**
   * A RuneError met while the run is still going lies inside the run, so the scan of the
   * trimmed line reports InvalidEncoding.
   */
  lemma RuneErrorInRun(t: string, i: nat)
    requires i < |t| && AllDelimiterChars(Unicode, t[..i]) && t[i] == RuneError
    ensures HasRuneError(t[..RunLength(Unicode, t)])
    ensures ScanDeclaration(Unicode, t) == Err(InvalidEncoding)
  {
    assert t == t[..i] + t[i..];
    RunLengthOf(Unicode, t[..i], t[i..]);
    assert t[..RunLength(Unicode, t)][i] == RuneError;
  }

  /** detectDelimiter, as the loop over the trimmed line that both sources run. */
  method DetectDelimiter(v: Variant, line: string) returns (r: Result<Declaration, DetectError>)
    ensures r == Detect(v, line)
  {
    var t := TrimSpace(line);
    if t == [] {
      return Err(EmptyLine);
    }
    var delim := "";
    var i := 0;
    while i < |t|
      invariant 0 <= i <= |t|
      invariant delim == t[..i]
      invariant AllDelimiterChars(v, delim)
      invariant v.Unicode? ==> !HasRuneError(delim)
    {
      if v.Unicode? && t[i] == RuneError {
        RuneErrorInRun(t, i);
        return Err(InvalidEncoding);
      }
      if !IsDelimiterChar(v, t[i]) {
        break;
      }
      delim := delim + [t[i]];
      i := i + 1;
    }
    RunEndsAt(v, t, i);
    if delim == "" {
      return Err(InvalidDeclaration);
    }
    if i >= |t| || t[i] != ' ' {
      return Err(InvalidDeclaration);
    }
    var path := TrimSpace(t[i + 1..]);
    if path == "" {
      return Err(EmptyPath);
    }
    return Ok(Declaration(delim, path));
  }

  // ---------------------------------------------------------------------------------------
  // Path validation

  datatype PathError = InvalidPath | AbsolutePath | ParentReference | NullCharacter

  /** filepath.IsAbs under the Unix rule. */
  predicate IsAbs(path: string) {
    |path| > 0 && path[0] == '/'
  }

  /** validatePath: its four checks, in the sources' order. */
  function ValidatePath(path: string): Option<PathError> {
    if path == "" || path == "." then Some(InvalidPath)
    else if IsAbs(path) then Some(AbsolutePath)
    else if Contains(path, "..") then Some(ParentReference)
    else if '\0' in path then Some(NullCharacter)
    else None
  }

  /** What an accepted path guarantees: it names something strictly below the root it is
      unpacked into, since it is relative and no slash-separated segment of it is "..". */
  lemma AcceptedPathStaysBelowRoot(path: string)
    requires ValidatePath(path) == None
    ensures path != "" && path != "." && path[0] != '/' && '\0' !in path
    ensures forall k :: 0 <= k < |Split(path, '/')| ==> Split(path, '/')[k] != ".."
  {
    forall k | 0 <= k < |Split(path, '/')|
      ensures Split(path, '/')[k] != ".."
    {
      SplitPiecesOccur(path, '/', k);
    }
  }

  /** The ".." test is on substrings, not segments: "a..b" has no ".." segment and is still
      rejected: the check is deliberately stricter than a segment test. */
  lemma ParentCheckIsConservative()
    ensures Split("a..b", '/') == ["a..b"]
    ensures ValidatePath("a..b") == Some(ParentReference)
  {
    NoOccurrenceIndex("a..b", '/');
    assert OccursAt("a..b", "..", 1);
  }

  /** isBlankLine. */
  function IsBlankLine(line: string): (b: bool)
    ensures b <==> AllSpace(line)
  {
    TrimSpaceShape(line);
    TrimSpace(line) == ""
  }
}

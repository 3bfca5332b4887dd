/**
 * SecureGlobExpander (glob.go): the string-level safety checks on user glob patterns and
 * on the paths they expand to, and ExpandPatterns' loop that validates, normalises and
 * de-duplicates the matches. The globbing itself, os.Stat and filepath.Rel are the host's
 * and enter as functions in `Host`. filepath.IsAbs and filepath.ToSlash follow the Unix
 * rules: a path is absolute when it starts with '/', and ToSlash changes nothing.
 */
module Glob {
  import opened Wrappers
  import opened GoStrings
  import opened Format

  // ---------------------------------------------------------------------------------------
  // url.QueryUnescape

  predicate IsHex(c: char) {
    ('0' <= c <= '9') || ('a' <= c <= 'f') || ('A' <= c <= 'F')
  }

  function HexValue(c: char): (n: nat)
    requires IsHex(c)
    ensures n < 16
  {
    if '0' <= c <= '9' then c as int - '0' as int
    else if 'a' <= c <= 'f' then c as int - 'a' as int + 10
    else c as int - 'A' as int + 10
  }

  /**
   * url.QueryUnescape: "%XX" with two hex digits becomes the byte XX (a character below 256
   * here), '+' becomes a space, and any '%' without two hex digits after it fails the
   * whole decode. A successful decode of a string holding '%' is strictly shorter, which is
   * what makes ValidatePattern's recursion on the decoded pattern terminate.
   */
  function Unescape(s: string): (r: Option<string>)
    ensures r.Some? ==> |r.value| <= |s|
    ensures r.Some? && '%' in s ==> |r.value| < |s|
    decreases |s|
  {
    if s == [] then Some([])
    else if s[0] == '%' then
      if |s| < 3 || !IsHex(s[1]) || !IsHex(s[2]) then None
      else match Unescape(s[3..])
        case None => None
        case Some(rest) => Some([(16 * HexValue(s[1]) + HexValue(s[2])) as char] + rest)
    else
      var c := if s[0] == '+' then ' ' else s[0];
      match Unescape(s[1..])
      case None => None
      case Some(rest) =>
        assert '%' in s ==> '%' in s[1..];
        Some([c] + rest)
  }

  function HexDigit(n: nat): (c: char)
    requires n < 16
    ensures IsHex(c) && HexValue(c) == n
  {
    if n < 10 then ('0' as int + n) as char else ('A' as int + n - 10) as char
  }

  predicate IsByteString(s: string) {
    forall k :: 0 <= k < |s| ==> (s[k] as int) < 256
  }

  /** Percent-encoding of every character, the inverse the decoder undoes. */
  function Escape(s: string): string
    requires IsByteString(s)
  {
    if s == [] then []
    else
      var b := s[0] as int;
      ['%', HexDigit(b / 16), HexDigit(b % 16)] + Escape(s[1..])
  }

  lemma {:induction false} UnescapeEscape(s: string)
    requires IsByteString(s)
    ensures Unescape(Escape(s)) == Some(s)
    decreases |s|
  {
    if s != [] {
      var e := Escape(s);
      var b := s[0] as int;
      assert e[0] == '%' && IsHex(e[1]) && IsHex(e[2]);
      assert (16 * HexValue(e[1]) + HexValue(e[2])) as char == s[0] by { HexPair(b); }
      assert e[3..] == Escape(s[1..]);
      UnescapeEscape(s[1..]);
      assert [s[0]] + s[1..] == s;
    }
  }

  /** The two hex digits Escape writes for a byte read back as that byte. */
  lemma HexPair(b: int)
    requires 0 <= b < 256
    ensures 16 * HexValue(HexDigit(b / 16)) + HexValue(HexDigit(b % 16)) == b
  {
  }

  // ---------------------------------------------------------------------------------------
  // ValidatePattern

  datatype PatternError =
    | EncodedForbidden     // the percent-decoded pattern is itself rejected
    | AbsoluteNotAllowed
    | ParentDirectory
    | DriveLetter
    | Traversal

  /** An ASCII letter followed by ':' at the start, as in "C:". */
  predicate HasDriveLetter(p: string) {
    |p| >= 2 && p[1] == ':' && (('A' <= p[0] <= 'Z') || ('a' <= p[0] <= 'z'))
  }

  /** ValidatePattern: its checks in the source's order, the decoded pattern first. */
  function ValidatePattern(p: string, allowAbsolute: bool): Option<PatternError>
    decreases |p|
  {
    if '%' in p && Unescape(p).Some? && ValidatePattern(Unescape(p).value, allowAbsolute).Some? then
      Some(EncodedForbidden)
    else if IsAbs(p) && !allowAbsolute then Some(AbsoluteNotAllowed)
    else if Contains(p, "..") then Some(ParentDirectory)
    else if HasPrefix(p, "/") && !allowAbsolute then Some(AbsoluteNotAllowed)
    else if HasDriveLetter(p) then Some(DriveLetter)
    else if Contains(p, "\\..\\") || Contains(p, "/../") then Some(Traversal)
    else None
  }

  /**
   * What a safe pattern is, stated independently of the order of the checks: not absolute
   * unless allowed, no "..", no drive letter, and, when it holds '%' and decodes, a safe
   * decoded pattern.
   */
  predicate Safe(p: string, allowAbsolute: bool)
    decreases |p|
  {
    && (allowAbsolute || !HasPrefix(p, "/"))
    && !Contains(p, "..")
    && !HasDriveLetter(p)
    && ('%' in p && Unescape(p).Some? ==> Safe(Unescape(p).value, allowAbsolute))
  }

  /** A string that holds big holds every piece of big. */
  lemma ContainsPiece(s: string, big: string, sub: string, j: nat)
    requires Contains(s, big) && OccursAt(big, sub, j)
    ensures Contains(s, sub)
  {
    var i :| 0 <= i <= |s| - |big| && OccursAt(s, big, i);
    assert s[i..i + |big|] == big;
    forall k | 0 <= k < |sub|
      ensures s[i + j + k] == sub[k]
    {
      assert s[i + j + k] == s[i..i + |big|][j + k] == big[j + k];
      assert big[j + k] == big[j..j + |sub|][k];
    }
    assert OccursAt(s, sub, i + j);
  }

  /** The "\..\" and "/../" checks are subsumed by the ".." check before them. */
  lemma TraversalHasParent(p: string)
    requires Contains(p, "\\..\\") || Contains(p, "/../")
    ensures Contains(p, "..")
  {
    if Contains(p, "\\..\\") {
      ContainsPiece(p, "\\..\\", "..", 1);
    } else {
      ContainsPiece(p, "/../", "..", 1);
    }
  }

  /** ValidatePattern accepts exactly the safe patterns; and the traversal check and the
      second leading-slash check, which follow checks that subsume them, never decide. */
  lemma {:induction false} ValidatePatternIsSafe(p: string, allowAbsolute: bool)
    ensures ValidatePattern(p, allowAbsolute) == None <==> Safe(p, allowAbsolute)
    ensures ValidatePattern(p, allowAbsolute) != Some(Traversal)
    decreases |p|
  {
    if '%' in p && Unescape(p).Some? {
      ValidatePatternIsSafe(Unescape(p).value, allowAbsolute);
    }
    assert IsAbs(p) <==> HasPrefix(p, "/");
    if Contains(p, "\\..\\") || Contains(p, "/../") {
      TraversalHasParent(p);
    }
  }

  /** What each check rejects, whatever the other checks say. */
  lemma PatternRejections(p: string, allowAbsolute: bool)
    ensures Contains(p, "..") ==> ValidatePattern(p, allowAbsolute).Some?
    ensures !allowAbsolute && HasPrefix(p, "/") ==> ValidatePattern(p, allowAbsolute).Some?
    ensures HasDriveLetter(p) ==> ValidatePattern(p, allowAbsolute).Some?
    ensures '%' in p && Unescape(p).Some? && ValidatePattern(Unescape(p).value, allowAbsolute).Some? ==>
      ValidatePattern(p, allowAbsolute) == Some(EncodedForbidden)
  {
    ValidatePatternIsSafe(p, allowAbsolute);
  }

  // ---------------------------------------------------------------------------------------
  // ValidatePath

  datatype PathCheckError =
    | PatternRejected(PatternError)
    | ParentSegment      // a relative path with a ".." segment
    | ResolveFailed      // filepath.Abs or filepath.Rel failed
    | OutsideRoot        // the absolute path lies outside the working directory

  /**
   * ValidatePath: the pattern checks, then for a relative path a scan of its slash-separated
   * segments for "..". An absolute path, which only gets this far when absolute paths are
   * allowed, is resolved against the working directory by `resolve` (filepath.Rel from
   * filepath.Abs of the working directory; None when either fails).
   */
  function ValidatePath(path: string, allowAbsolute: bool, resolve: string -> Option<string>): Option<PathCheckError> {
    match ValidatePattern(path, allowAbsolute)
    case Some(e) => Some(PatternRejected(e))
    case None =>
      if !IsAbs(path) then
        if ".." in Split(path, '/') then Some(ParentSegment) else None
      else
        match resolve(path)
        case None => Some(ResolveFailed)
        case Some(rel) => if HasPrefix(rel, "..") then Some(OutsideRoot) else None
  }

  /** For a relative path the segment scan never decides: the path is accepted exactly when
      the pattern is. */
  lemma RelativePathIsPattern(path: string, allowAbsolute: bool, resolve: string -> Option<string>)
    requires !IsAbs(path)
    ensures ValidatePath(path, allowAbsolute, resolve) == None <==> ValidatePattern(path, allowAbsolute) == None
    ensures ValidatePath(path, allowAbsolute, resolve) != Some(ParentSegment)
  {
    if ValidatePattern(path, allowAbsolute) == None && ".." in Split(path, '/') {
      var k :| 0 <= k < |Split(path, '/')| && Split(path, '/')[k] == "..";
      SplitPiecesOccur(path, '/', k);
      PatternRejections(path, allowAbsolute);
      assert false;
    }
  }

  /** With absolute paths forbidden, an accepted path is relative, safe, and has no ".."
      segment. */
  lemma AcceptedPathIsRelative(path: string, resolve: string -> Option<string>)
    requires ValidatePath(path, false, resolve) == None
    ensures !IsAbs(path) && Safe(path, false)
    ensures ".." !in Split(path, '/')
  {
    ValidatePatternIsSafe(path, false);
  }

  // ---------------------------------------------------------------------------------------
  // ExpandPatterns

  datatype GlobOption = StandardGlob | EnhancedGlob | BothGlobs

  /** The file system as the expander sees it. */
  datatype Host = Host(
    standardGlob: string -> Option<seq<string>>,  // filepath.Glob; None when it fails
    enhancedGlob: string -> Option<seq<string>>,  // doublestar.FilepathGlob
    present: string -> bool,                      // os.Stat succeeds
    resolve: string -> Option<string>,            // filepath.Rel(filepath.Abs(WorkingDir), path)
    relative: string -> Option<string>)           // filepath.Rel(WorkingDir, path)

  /** SecureGlobExpander: its AllowAbsolute flag; its WorkingDir enters through the host. */
  datatype Expander = Expander(allowAbsolute: bool, host: Host)

  datatype ExpandError =
    | InvalidPattern(pattern: string, reason: PatternError)
    | GlobFailed(pattern: string)
    | UnsafePath(check: PathCheckError)

  /** The glob the option selects; BothGlobs falls back to the standard glob on failure. */
  function Glob(host: Host, option: GlobOption, pattern: string): Option<seq<string>> {
    match option
    case StandardGlob => host.standardGlob(pattern)
    case EnhancedGlob => host.enhancedGlob(pattern)
    case BothGlobs =>
      if host.enhancedGlob(pattern).Some? then host.enhancedGlob(pattern) else host.standardGlob(pattern)
  }

  /** One pattern's matches: the pattern is validated first, and a pattern that matches
      nothing stands for itself when it names an existing file. */
  function Matches(x: Expander, option: GlobOption, pattern: string): Result<seq<string>, ExpandError> {
    match ValidatePattern(pattern, x.allowAbsolute)
    case Some(e) => Err(InvalidPattern(pattern, e))
    case None =>
      match Glob(x.host, option, pattern)
      case None => Err(GlobFailed(pattern))
      case Some(ms) => Ok(if ms == [] && x.host.present(pattern) then [pattern] else ms)
  }

  /** A match made relative to the working directory when it is absolute and inside it. */
  function Normalize(x: Expander, m: string): string {
    if IsAbs(m) then
      match x.host.relative(m)
      case Some(rel) => if !HasPrefix(rel, "..") then rel else m
      case None => m
    else m
  }

  /** The matches checked by ValidatePath, in order, and normalised; the first unsafe one
      stops everything. */
  function Accepted(x: Expander, ms: seq<string>): Result<seq<string>, ExpandError> {
    if ms == [] then Ok([])
    else
      match Accepted(x, ms[..|ms| - 1])
      case Err(e) => Err(e)
      case Ok(ns) =>
        match ValidatePath(ms[|ms| - 1], x.allowAbsolute, x.host.resolve)
        case Some(e) => Err(UnsafePath(e))
        case None => Ok(ns + [Normalize(x, ms[|ms| - 1])])
  }

  /** All patterns' normalised matches, pattern by pattern, before de-duplication. */
  function Collect(x: Expander, option: GlobOption, patterns: seq<string>): Result<seq<string>, ExpandError> {
    if patterns == [] then Ok([])
    else
      match Collect(x, option, patterns[..|patterns| - 1])
      case Err(e) => Err(e)
      case Ok(ns) =>
        match Matches(x, option, patterns[|patterns| - 1])
        case Err(e) => Err(e)
        case Ok(ms) =>
          match Accepted(x, ms)
          case Err(e) => Err(e)
          case Ok(more) => Ok(ns + more)
  }

  predicate Distinct(s: seq<string>) {
    forall i, j :: 0 <= i < j < |s| ==> s[i] != s[j]
  }

  /** The elements of s, each kept where it first appears. */
  function Dedup(s: seq<string>): (r: seq<string>)
    ensures Distinct(r)
    ensures forall y :: y in r <==> y in s
  {
    if s == [] then []
    else
      var p := Dedup(s[..|s| - 1]);
      var y := s[|s| - 1];
      assert s == s[..|s| - 1] + [y];
      if y in p then p else p + [y]
  }

  /** What ExpandPatterns returns. */
  function Expand(x: Expander, option: GlobOption, patterns: seq<string>): Result<seq<string>, ExpandError> {
    match Collect(x, option, patterns)
    case Err(e) => Err(e)
    case Ok(ns) => Ok(Dedup(ns))
  }

  // ---------------------------------------------------------------------------------------
  // Properties of the expansion

  /** Where y first appears in s. */
  function FirstIndex(s: seq<string>, y: string): (i: nat)
    requires y in s
    ensures i < |s| && s[i] == y && y !in s[..i]
  {
    if s[0] == y then 0
    else
      var i := 1 + FirstIndex(s[1..], y);
      assert s[..i] == [s[0]] + s[1..][..i - 1];
      i
  }

  lemma FirstIndexExtends(s: seq<string>, y: string, z: string)
    requires y in s
    ensures FirstIndex(s + [z], y) == FirstIndex(s, y)
  {
    var i, j := FirstIndex(s, y), FirstIndex(s + [z], y);
    assert (s + [z])[i] == y;
    assert (s + [z])[..j] == s[..j] by {
      assert j <= i;
    }
  }

  /** Dedup keeps first-seen order: its elements appear in the order of their first
      occurrences in the input. */
  lemma {:induction false} DedupOrder(s: seq<string>)
    ensures forall i, j :: 0 <= i < j < |Dedup(s)| ==> FirstIndex(s, Dedup(s)[i]) < FirstIndex(s, Dedup(s)[j])
    decreases |s|
  {
    if s != [] {
      var init, y := s[..|s| - 1], s[|s| - 1];
      assert s == init + [y];
      DedupOrder(init);
      var p := Dedup(init);
      var r := Dedup(s);
      forall i, j | 0 <= i < j < |r|
        ensures FirstIndex(s, r[i]) < FirstIndex(s, r[j])
      {
        assert i < |p| && r[i] == p[i];
        FirstIndexExtends(init, r[i], y);
        if j < |p| {
          assert r[j] == p[j];
          assert FirstIndex(init, p[i]) < FirstIndex(init, p[j]);
          FirstIndexExtends(init, r[j], y);
        } else {
          assert r[j] == y && y !in init;
          assert init == s[..|init|];
          assert FirstIndex(s, y) == |init|;
        }
      }
    }
  }

  /** On a list without duplicates Dedup changes nothing. */
  lemma {:induction false} DedupDistinct(s: seq<string>)
    requires Distinct(s)
    ensures Dedup(s) == s
    decreases |s|
  {
    if s != [] {
      var init, y := s[..|s| - 1], s[|s| - 1];
      assert Distinct(init);
      DedupDistinct(init);
      assert s == init + [y];
    }
  }

  /** One more match: its check decides, or its normalised form joins the accepted ones. */
  lemma AcceptedStep(x: Expander, ms: seq<string>, j: nat, ns: seq<string>)
    requires j < |ms| && Accepted(x, ms[..j]) == Ok(ns)
    ensures Accepted(x, ms[..j + 1]) ==
      match ValidatePath(ms[j], x.allowAbsolute, x.host.resolve)
      case Some(e) => Err(UnsafePath(e))
      case None => Ok(ns + [Normalize(x, ms[j])])
  {
    var upTo := ms[..j + 1];
    assert upTo[..j] == ms[..j];
  }

  /** Dedup over one more element keeps what it had and appends the new one if it is new. */
  lemma DedupStep(before: seq<string>, added: seq<string>, y: string)
    ensures Dedup(before + (added + [y])) ==
      if y in Dedup(before + added) then Dedup(before + added) else Dedup(before + added) + [y]
  {
    var s := before + added;
    assert (s + [y])[..|s|] == s;
    assert s + [y] == before + (added + [y]);
  }

  /** An error in a prefix of the matches is the error of all of them. */
  lemma {:induction false} AcceptedStops(x: Expander, ms: seq<string>, j: nat)
    requires j <= |ms| && Accepted(x, ms[..j]).Err?
    ensures Accepted(x, ms) == Accepted(x, ms[..j])
    decreases |ms| - j
  {
    if j < |ms| {
      var init := ms[..|ms| - 1];
      assert init[..j] == ms[..j];
      AcceptedStops(x, init, j);
    } else {
      assert ms[..j] == ms;
    }
  }

  /** An error in a prefix of the patterns is the error of all of them. */
  lemma {:induction false} CollectStops(x: Expander, option: GlobOption, patterns: seq<string>, i: nat)
    requires i <= |patterns| && Collect(x, option, patterns[..i]).Err?
    ensures Collect(x, option, patterns) == Collect(x, option, patterns[..i])
    decreases |patterns| - i
  {
    if i < |patterns| {
      var init := patterns[..|patterns| - 1];
      assert init[..i] == patterns[..i];
      CollectStops(x, option, init, i);
    } else {
      assert patterns[..i] == patterns;
    }
  }

  /** ExpandPatterns stops at the first invalid pattern, with that pattern's error. */
  lemma FirstInvalidPatternStops(x: Expander, option: GlobOption, patterns: seq<string>, i: nat)
    requires i < |patterns| && Collect(x, option, patterns[..i]).Ok?
    requires ValidatePattern(patterns[i], x.allowAbsolute).Some?
    ensures Expand(x, option, patterns) ==
      Err(InvalidPattern(patterns[i], ValidatePattern(patterns[i], x.allowAbsolute).value))
  {
    var prefix := patterns[..i + 1];
    assert prefix[..i] == patterns[..i];
    CollectStops(x, option, patterns, i + 1);
  }

  /** The accepted matches are the validated ones, each normalised. */
  lemma {:induction false} AcceptedAreValidated(x: Expander, ms: seq<string>)
    requires Accepted(x, ms).Ok?
    ensures |Accepted(x, ms).value| == |ms|
    ensures forall k :: 0 <= k < |ms| ==>
      ValidatePath(ms[k], x.allowAbsolute, x.host.resolve) == None
      && Accepted(x, ms).value[k] == Normalize(x, ms[k])
    decreases |ms|
  {
    if ms != [] {
      AcceptedAreValidated(x, ms[..|ms| - 1]);
    }
  }

  /** With absolute paths forbidden, every path collected is a match that passed
      ValidatePath unchanged, so it is relative and safe. */
  lemma {:induction false} CollectedAreSafe(x: Expander, option: GlobOption, patterns: seq<string>)
    requires !x.allowAbsolute && Collect(x, option, patterns).Ok?
    ensures forall y :: y in Collect(x, option, patterns).value ==>
      ValidatePath(y, false, x.host.resolve) == None
    decreases |patterns|
  {
    if patterns != [] {
      var init := patterns[..|patterns| - 1];
      CollectedAreSafe(x, option, init);
      var ms := Matches(x, option, patterns[|patterns| - 1]).value;
      AcceptedAreValidated(x, ms);
      forall k | 0 <= k < |ms|
        ensures Normalize(x, ms[k]) == ms[k]
      {
        AcceptedPathIsRelative(ms[k], x.host.resolve);
      }
    }
  }

  /** ExpandPatterns' result: no path twice, the collected paths in first-seen order, and
      (absolute paths forbidden) only paths that pass ValidatePath. */
  lemma ExpandResult(x: Expander, option: GlobOption, patterns: seq<string>)
    requires Expand(x, option, patterns).Ok?
    ensures var r := Expand(x, option, patterns).value;
      var ns := Collect(x, option, patterns).value;
      && Distinct(r)
      && (forall y :: y in r <==> y in ns)
      && (forall i, j :: 0 <= i < j < |r| ==> FirstIndex(ns, r[i]) < FirstIndex(ns, r[j]))
      && (!x.allowAbsolute ==> forall y :: y in r ==> ValidatePath(y, false, x.host.resolve) == None)
  {
    var ns := Collect(x, option, patterns).value;
    assert Expand(x, option, patterns).value == Dedup(ns);
    DedupOrder(ns);
    if !x.allowAbsolute {
      CollectedAreSafe(x, option, patterns);
      assert forall y :: y in Dedup(ns) ==> y in ns;
    }
  }

  /** ExpandPatterns: the loop over the patterns, with the paths kept so far and the set
      of paths already seen. */
  method ExpandPatterns(x: Expander, option: GlobOption, patterns: seq<string>)
    returns (r: Result<seq<string>, ExpandError>)
    ensures r == Expand(x, option, patterns)
  {
    var allFiles: seq<string> := [];
    var seenFiles: set<string> := {};
    ghost var collected: seq<string> := [];
    for i := 0 to |patterns|
      invariant Collect(x, option, patterns[..i]) == Ok(collected)
      invariant allFiles == Dedup(collected)
      invariant forall y :: y in seenFiles <==> y in allFiles
    {
      var pattern := patterns[i];
      ghost var prefix := patterns[..i + 1];
      assert prefix[..i] == patterns[..i];
      assert prefix[i] == pattern;
      var found := MatchesOf(x, option, pattern);
      if found.Err? {
        CollectStops(x, option, patterns, i + 1);
        return Err(found.error);
      }
      var err;
      ghost var added;
      err, allFiles, seenFiles, added := AddMatches(x, found.value, allFiles, seenFiles, collected);
      if err.Some? {
        CollectStops(x, option, patterns, i + 1);
        return Err(err.value);
      }
      collected := collected + added;
    }
    assert patterns[..|patterns|] == patterns;
    return Ok(allFiles);
  }

  /** The loop over one pattern's matches: each is checked by ValidatePath, normalised, and
      kept unless it was seen before. */
  method AddMatches(x: Expander, matches: seq<string>, files: seq<string>, seen: set<string>,
                    ghost before: seq<string>)
    returns (err: Option<ExpandError>, allFiles: seq<string>, seenFiles: set<string>, ghost added: seq<string>)
    requires files == Dedup(before)
    requires forall y :: y in seen <==> y in files
    ensures match Accepted(x, matches)
      case Err(e) => err == Some(e)
      case Ok(more) => err == None && added == more && allFiles == Dedup(before + more)
    ensures forall y :: y in seenFiles <==> y in allFiles
  {
    allFiles, seenFiles, added := files, seen, [];
    assert before + added == before;
    for j := 0 to |matches|
      invariant Accepted(x, matches[..j]) == Ok(added)
      invariant allFiles == Dedup(before + added)
      invariant forall y :: y in seenFiles <==> y in allFiles
    {
      var m := matches[j];
      var unsafe := ValidatePath(m, x.allowAbsolute, x.host.resolve);
      if unsafe.Some? {
        assert Accepted(x, matches[..j + 1]) == Err(UnsafePath(unsafe.value)) by {
          AcceptedStep(x, matches, j, added);
        }
        AcceptedStops(x, matches, j + 1);
        return Some(UnsafePath(unsafe.value)), allFiles, seenFiles, added;
      }
      var normalizedPath := m;
      if IsAbs(m) {
        var rel := x.host.relative(m);
        if rel.Some? && !HasPrefix(rel.value, "..") {
          normalizedPath := rel.value;
        }
      }
      assert normalizedPath == Normalize(x, m);
      assert Accepted(x, matches[..j + 1]) == Ok(added + [normalizedPath]) by {
        AcceptedStep(x, matches, j, added);
      }
      assert Dedup(before + (added + [normalizedPath])) ==
        if normalizedPath in allFiles then allFiles else allFiles + [normalizedPath] by {
        DedupStep(before, added, normalizedPath);
      }
      if normalizedPath !in seenFiles {
        seenFiles := seenFiles + {normalizedPath};
        allFiles := allFiles + [normalizedPath];
      }
      added := added + [normalizedPath];
    }
    assert matches[..|matches|] == matches;
    return None, allFiles, seenFiles, added;
  }

  /** The part of the loop body before the matches are walked: validate, glob, fall back to
      the literal path. */
  method MatchesOf(x: Expander, option: GlobOption, pattern: string)
    returns (r: Result<seq<string>, ExpandError>)
    ensures r == Matches(x, option, pattern)
  {
    var invalid := ValidatePattern(pattern, x.allowAbsolute);
    if invalid.Some? {
      return Err(InvalidPattern(pattern, invalid.value));
    }
    var matches := Glob(x.host, option, pattern);
    if matches.None? {
      return Err(GlobFailed(pattern));
    }
    var ms := matches.value;
    if |ms| == 0 && x.host.present(pattern) {
      ms := [pattern];
    }
    return Ok(ms);
  }
}

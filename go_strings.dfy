/**
 * The parts of Go's `strings`, `unicode` and `bufio` packages the archive engine relies on,
 * on strings seen as sequences of Unicode characters.
 */
module GoStrings {

  /** unicode.IsSpace: the Latin-1 spaces and the White_Space table above Latin-1. */
  predicate IsSpace(c: char) {
    var n := c as int;
    || (0x09 <= n <= 0x0D) || n == 0x20 || n == 0x85 || n == 0xA0
    || n == 0x1680 || (0x2000 <= n <= 0x200A) || n == 0x2028 || n == 0x2029
    || n == 0x202F || n == 0x205F || n == 0x3000
  }

  predicate AllSpace(s: string) {
    forall k :: 0 <= k < |s| ==> IsSpace(s[k])
  }

  function TrimLeft(s: string): (r: string)
    ensures |r| <= |s|
  {
    if s == [] || !IsSpace(s[0]) then s else TrimLeft(s[1..])
  }

  function TrimRight(s: string): (r: string)
    ensures |r| <= |s|
  {
    if s == [] || !IsSpace(s[|s| - 1]) then s else TrimRight(s[..|s| - 1])
  }

  /** strings.TrimSpace; what it keeps and drops is stated by TrimSpaceShape. */
  function TrimSpace(s: string): (r: string)
    ensures |r| <= |s|
  {
    TrimRight(TrimLeft(s))
  }

  /** TrimLeft drops a prefix of white space and stops at the first other character. */
  lemma {:induction false} TrimLeftShape(s: string)
    ensures var r := TrimLeft(s);
      && r == s[|s| - |r|..]
      && AllSpace(s[..|s| - |r|])
      && (r == [] || !IsSpace(r[0]))
    decreases |s|
  {
    if s != [] && IsSpace(s[0]) {
      TrimLeftShape(s[1..]);
      var r := TrimLeft(s[1..]);
      assert s[..|s| - |r|] == [s[0]] + s[1..][..|s[1..]| - |r|];
    }
  }

  /** TrimRight drops a suffix of white space and stops at the last other character. */
  lemma {:induction false} TrimRightShape(s: string)
    ensures var r := TrimRight(s);
      && r == s[..|r|]
      && AllSpace(s[|r|..])
      && (r == [] || !IsSpace(r[|r| - 1]))
    decreases |s|
  {
    if s != [] && IsSpace(s[|s| - 1]) {
      var s' := s[..|s| - 1];
      TrimRightShape(s');
      var r := TrimRight(s');
      assert s[|r|..] == s'[|r|..] + [s[|s| - 1]];
    }
  }

  /** strings.TrimSpace drops the white space at both ends and nothing else. */
  lemma TrimSpaceShape(s: string)
    ensures var r := TrimSpace(s);
      && (r == [] <==> AllSpace(s))
      && (r != [] ==> !IsSpace(r[0]) && !IsSpace(r[|r| - 1]))
      && (s == [] || (!IsSpace(s[0]) && !IsSpace(s[|s| - 1])) ==> r == s)
  {
    TrimLeftShape(s);
    var l := TrimLeft(s);
    TrimRightShape(l);
    var r := TrimRight(l);
    assert l == [] ==> s[..|s|] == s;
    if r != [] {
      assert r[0] == l[0];
    }
  }

  predicate HasPrefix(s: string, p: string) {
    |p| <= |s| && s[..|p|] == p
  }

  predicate HasSuffix(s: string, p: string) {
    |p| <= |s| && s[|s| - |p|..] == p
  }

  /** sub occurs in s starting at index i. */
  predicate OccursAt(s: string, sub: string, i: int) {
    0 <= i && i + |sub| <= |s| && s[i..i + |sub|] == sub
  }

  /** strings.Contains: sub occurs somewhere in s. */
  predicate Contains(s: string, sub: string) {
    exists i :: 0 <= i <= |s| - |sub| && OccursAt(s, sub, i)
  }

  /** strings.Repeat on a one-character string. */
  function Repeat(c: char, n: nat): (r: string)
    ensures |r| == n
    ensures forall k :: 0 <= k < n ==> r[k] == c
  {
    seq(n, _ => c)
  }

  /** Index of the first occurrence of c in s, or |s| when c does not occur. */
  function IndexOf(s: string, c: char): (i: nat)
    ensures i <= |s|
    ensures i < |s| ==> s[i] == c
    ensures c !in s[..i]
  {
    if s == [] || s[0] == c then 0
    else
      var i := 1 + IndexOf(s[1..], c);
      assert s[..i] == [s[0]] + s[1..][..i - 1];
      i
  }

  /** strings.Split(s, string(c)): the pieces between the occurrences of c. */
  function Split(s: string, c: char): (r: seq<string>)
    ensures |r| >= 1
    ensures forall k :: 0 <= k < |r| ==> c !in r[k]
    decreases |s|
  {
    var i := IndexOf(s, c);
    if i == |s| then [s] else [s[..i]] + Split(s[i + 1..], c)
  }

  /** strings.Join. */
  function Join(ls: seq<string>, sep: string): string {
    if |ls| == 0 then []
    else if |ls| == 1 then ls[0]
    else ls[0] + sep + Join(ls[1..], sep)
  }

  /**
   * The lines bufio.ScanLines cuts s into, before it drops carriage returns: every line ends
   * at a line feed, and a last fragment without one is a line only when it is non-empty.
   */
  function Lines(s: string): (r: seq<string>)
    ensures forall k :: 0 <= k < |r| ==> '\n' !in r[k]
    decreases |s|
  {
    if s == [] then []
    else
      var i := IndexOf(s, '\n');
      if i == |s| then [s] else [s[..i]] + Lines(s[i + 1..])
  }

  /** bufio.ScanLines drops one carriage return at the end of each line. */
  function DropCR(l: string): string {
    if |l| > 0 && l[|l| - 1] == '\r' then l[..|l| - 1] else l
  }

  /** The tokens of a bufio.Scanner with the ScanLines split function (no token-size limit). */
  function ScanLines(s: string): (r: seq<string>)
    ensures |r| == |Lines(s)|
    ensures forall k :: 0 <= k < |r| ==> r[k] == DropCR(Lines(s)[k])
  {
    var ls := Lines(s);
    seq(|ls|, k requires 0 <= k < |ls| => DropCR(ls[k]))
  }

  predicate EndsLine(s: string) {
    s == [] || s[|s| - 1] == '\n'
  }

  // ---------------------------------------------------------------------------------------
  // Split and Join are inverse to each other

  lemma {:induction false} JoinSplit(s: string, c: char)
    ensures Join(Split(s, c), [c]) == s
    decreases |s|
  {
    var i := IndexOf(s, c);
    if i < |s| {
      var rest := s[i + 1..];
      JoinSplit(rest, c);
      var r := Split(rest, c);
      assert Split(s, c) == [s[..i]] + r;
      assert s == s[..i] + [c] + rest;
    }
  }

  lemma {:induction false} SplitJoin(ls: seq<string>, c: char)
    requires |ls| >= 1
    requires forall k :: 0 <= k < |ls| ==> c !in ls[k]
    ensures Split(Join(ls, [c]), c) == ls
    decreases |ls|
  {
    if |ls| == 1 {
      NoOccurrenceIndex(ls[0], c);
    } else {
      var tail := Join(ls[1..], [c]);
      assert Join(ls, [c]) == ls[0] + [c] + tail;
      SplitJoin(ls[1..], c);
      SplitAtFirst(ls[0], c, tail);
      assert ls == [ls[0]] + ls[1..];
    }
  }

  lemma NoOccurrenceIndex(s: string, c: char)
    requires c !in s
    ensures IndexOf(s, c) == |s|
  {
  }

  /** The first c in l + [c] + rest is the one after l. */
  lemma CutAtFirst(l: string, c: char, rest: string)
    requires c !in l
    ensures IndexOf(l + [c] + rest, c) == |l|
    ensures (l + [c] + rest)[..|l|] == l && (l + [c] + rest)[|l| + 1..] == rest
  {
    var s := l + [c] + rest;
    assert s[|l|] == c;
  }

  /** Split cuts at the first c. */
  lemma SplitAtFirst(l: string, c: char, rest: string)
    requires c !in l
    ensures Split(l + [c] + rest, c) == [l] + Split(rest, c)
  {
    CutAtFirst(l, c, rest);
  }

  // ---------------------------------------------------------------------------------------
  // Lines

  lemma LinesCons(l: string, rest: string)
    requires '\n' !in l
    ensures Lines(l + "\n" + rest) == [l] + Lines(rest)
  {
    CutAtFirst(l, '\n', rest);
  }

  /** Cutting a text into lines distributes over a boundary that ends a line. */
  lemma {:induction false} LinesConcat(a: string, b: string)
    requires EndsLine(a)
    ensures Lines(a + b) == Lines(a) + Lines(b)
    decreases |a|
  {
    if a != [] {
      assert a[..|a|] == a;
      var i := IndexOf(a, '\n');
      var l, rest := a[..i], a[i + 1..];
      assert a == l + "\n" + rest;
      assert a + b == l + "\n" + (rest + b);
      LinesCons(l, rest);
      LinesCons(l, rest + b);
      assert Lines(a) == [l] + Lines(rest);
      assert Lines(a + b) == [l] + Lines(rest + b);
      assert EndsLine(rest) by {
        if rest != [] {
          assert rest[|rest| - 1] == a[|a| - 1];
        }
      }
      LinesConcat(rest, b);
    } else {
      assert a + b == b;
    }
  }

  /** The pieces strings.Split gives are the lines, plus an empty last piece when the text ends a line. */
  lemma {:induction false} SplitIsLines(s: string)
    ensures EndsLine(s) ==> Split(s, '\n') == Lines(s) + [""]
    ensures !EndsLine(s) ==> Split(s, '\n') == Lines(s)
    decreases |s|
  {
    if s != [] {
      var i := IndexOf(s, '\n');
      if i < |s| {
        var l, rest := s[..i], s[i + 1..];
        assert s == l + "\n" + rest;
        SplitIsLines(rest);
        SplitLinesStep(l, rest);
      }
    }
  }

  /** SplitIsLines, one line further on. */
  lemma SplitLinesStep(l: string, rest: string)
    requires '\n' !in l
    requires EndsLine(rest) ==> Split(rest, '\n') == Lines(rest) + [""]
    requires !EndsLine(rest) ==> Split(rest, '\n') == Lines(rest)
    ensures EndsLine(l + "\n" + rest) ==> Split(l + "\n" + rest, '\n') == Lines(l + "\n" + rest) + [""]
    ensures !EndsLine(l + "\n" + rest) ==> Split(l + "\n" + rest, '\n') == Lines(l + "\n" + rest)
  {
    var s := l + "\n" + rest;
    SplitAtFirst(l, '\n', rest);
    LinesCons(l, rest);
    CutAtFirst(l, '\n', rest);
    EndsLineAfter(s, |l| + 1);
    assert ([l] + Lines(rest)) + [""] == [l] + (Lines(rest) + [""]);
  }

  /** What follows a line feed ends a line exactly when the whole text does. */
  lemma EndsLineAfter(s: string, m: nat)
    requires 0 < m <= |s| && s[m - 1] == '\n'
    ensures EndsLine(s[m..]) <==> EndsLine(s)
  {
    if m < |s| {
      assert s[m..][|s| - m - 1] == s[|s| - 1];
    }
  }

  /** A text that ends a line is its lines joined, plus the final line feed. */
  lemma {:induction false} JoinLines(s: string)
    requires s != [] && EndsLine(s)
    ensures Lines(s) != []
    ensures Join(Lines(s), "\n") + "\n" == s
    decreases |s|
  {
    var i := IndexOf(s, '\n');
    var l, rest := s[..i], s[i + 1..];
    assert s == l + "\n" + rest;
    LinesCons(l, rest);
    if rest != [] {
      assert EndsLine(rest) by {
        assert rest[|rest| - 1] == s[|s| - 1];
      }
      JoinLines(rest);
      assert Lines(s)[1..] == Lines(rest);
    }
  }

  /**
   * The scanner loses nothing but the line breaks: on a text without carriage returns, its
   * tokens joined by line feeds are the text, less the final line feed when there is one.
   */
  lemma ScanLinesRebuild(s: string)
    requires '\r' !in s
    ensures s != [] && EndsLine(s) ==> Join(ScanLines(s), "\n") + "\n" == s
    ensures !EndsLine(s) ==> Join(ScanLines(s), "\n") == s
  {
    ScanLinesNoCR(s);
    if EndsLine(s) {
      if s != [] {
        JoinLines(s);
      }
    } else {
      SplitIsLines(s);
      JoinSplit(s, '\n');
    }
  }

  /** Only an empty list, or a single empty string, joins to the empty string. */
  lemma JoinEmpty(ls: seq<string>, sep: string)
    requires sep != []
    ensures Join(ls, sep) == [] <==> |ls| == 0 || (|ls| == 1 && ls[0] == [])
  {
    if |ls| > 1 {
      assert |Join(ls, sep)| >= |sep|;
    }
  }

  lemma ScanLinesNoCR(s: string)
    requires '\r' !in s
    ensures ScanLines(s) == Lines(s)
  {
    var ls := Lines(s);
    forall k | 0 <= k < |ls|
      ensures DropCR(ls[k]) == ls[k]
    {
      LinesOccur(s, k, '\r');
    }
  }

  /** A character that s lacks, no line of s holds. */
  lemma {:induction false} LinesOccur(s: string, k: nat, ch: char)
    requires k < |Lines(s)| && ch !in s
    ensures ch !in Lines(s)[k]
    decreases |s|
  {
    var i := IndexOf(s, '\n');
    if i == |s| {
      assert Lines(s) == [s];
    } else {
      var l, rest := s[..i], s[i + 1..];
      assert Lines(s) == [l] + Lines(rest) by {
        assert s == l + "\n" + rest;
        LinesCons(l, rest);
      }
      if k == 0 {
        NotInSlice(s, 0, i, ch);
      } else {
        NotInSlice(s, i + 1, |s|, ch);
        LinesOccur(rest, k - 1, ch);
      }
    }
  }

  lemma NotInSlice(s: string, lo: nat, hi: nat, ch: char)
    requires lo <= hi <= |s| && ch !in s
    ensures ch !in s[lo..hi]
  {
  }

  /** Every piece strings.Split gives occurs in the string it was cut from. */
  lemma {:induction false} SplitPiecesOccur(s: string, c: char, k: nat)
    requires k < |Split(s, c)|
    ensures Contains(s, Split(s, c)[k])
    decreases |s|
  {
    var i := IndexOf(s, c);
    var piece := Split(s, c)[k];
    if i == |s| || k == 0 {
      assert OccursAt(s, piece, 0);
    } else {
      var rest := s[i + 1..];
      assert piece == Split(rest, c)[k - 1];
      SplitPiecesOccur(rest, c, k - 1);
      ContainsInSuffix(s, i + 1, piece);
    }
  }

  lemma ContainsInSuffix(s: string, m: nat, sub: string)
    requires m <= |s| && Contains(s[m..], sub)
    ensures Contains(s, sub)
  {
    var j :| 0 <= j <= |s[m..]| - |sub| && OccursAt(s[m..], sub, j);
    assert s[m + j..m + j + |sub|] == s[m..][j..j + |sub|];
    assert OccursAt(s, sub, m + j);
  }
}

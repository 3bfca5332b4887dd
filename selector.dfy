/**
 * findSafeDelimiter: the choice of a delimiter that no content line can be mistaken for.
 * The candidates are the runs of 1 to 50 copies of one of '>', '=', '*', '-'; a candidate is
 * ruled out by any non-empty content line that starts with it followed by a space; among the
 * survivors the shortest wins, and among equally short ones the order of the four characters.
 */
module Selector {
  import opened Wrappers
  import opened GoStrings
  import opened Format

  /** The candidate characters, in order of preference. */
  const Bases: seq<char> := ['>', '=', '*', '-']

  /** The longest candidate the selector tries. */
  const MaxLength: nat := 50

  /** The number of candidates. */
  const CandidateCount: nat := 4 * MaxLength

  /** Position of a candidate character in the order of preference. */
  function Rank(c: char): (k: nat)
    requires c in Bases
    ensures k < 4 && Bases[k] == c
  {
    if c == '>' then 0 else if c == '=' then 1 else if c == '*' then 2 else 3
  }

  /** A run of 1 to 50 copies of one candidate character. */
  predicate IsCandidate(d: string) {
    && 1 <= |d| <= MaxLength
    && d[0] in Bases
    && d == Repeat(d[0], |d|)
  }

  /** The length, less one, of the i-th candidate (i / 4, counted out). */
  function Row(i: nat): nat {
    if i < 4 then 0 else 1 + Row(i - 4)
  }

  /** The character of the i-th candidate, as a position in Bases (i % 4, counted out). */
  function Column(i: nat): (b: nat)
    ensures b < 4
  {
    if i < 4 then i else Column(i - 4)
  }

  /** A position is recovered from its row and column. */
  lemma {:induction false} RowColumnSum(i: nat)
    ensures 4 * Row(i) + Column(i) == i
  {
    if i >= 4 {
      RowColumnSum(i - 4);
    }
  }

  /** Row and Column are the quotient and remainder of the division by 4. */
  lemma {:induction false} RowColumn(q: nat, r: nat)
    requires r < 4
    ensures Row(4 * q + r) == q && Column(4 * q + r) == r
  {
    if q > 0 {
      RowColumn(q - 1, r);
      assert 4 * q + r - 4 == 4 * (q - 1) + r;
    }
  }

  /** The candidates in the order the selector prefers them: by length, then by character. */
  function Candidate(i: nat): (d: string)
    requires i < CandidateCount
  {
    Repeat(Bases[Column(i)], Row(i) + 1)
  }

  /** Where a candidate stands in that order. */
  function Position(d: string): nat
    requires IsCandidate(d)
  {
    4 * (|d| - 1) + Rank(d[0])
  }

  // ---------------------------------------------------------------------------------------
  // Collisions

  /** A content line that the reader would take for a declaration under delimiter d. */
  predicate LineCollides(d: string, line: string) {
    line != "" && HasPrefix(line, d + " ")
  }

  predicate AnyLineCollides(d: string, ls: seq<string>) {
    exists k :: 0 <= k < |ls| && LineCollides(d, ls[k])
  }

  /** Some line of the content, cut at line feeds, collides with d. */
  predicate ContentCollides(d: string, content: string) {
    AnyLineCollides(d, Split(content, '\n'))
  }

  /** Some content among the first n files collides with d. */
  predicate CollidesBefore(files: seq<File>, n: nat, d: string)
    requires n <= |files|
  {
    exists f :: 0 <= f < n && ContentCollides(d, files[f].content)
  }

  predicate Collides(files: seq<File>, d: string) {
    CollidesBefore(files, |files|, d)
  }

  // ---------------------------------------------------------------------------------------
  // The choice, stated as a function

  /** The first index from i on, below n, that satisfies ok. */
  function FirstFrom(ok: nat -> bool, i: nat, n: nat): (r: Option<nat>)
    requires i <= n
    ensures r.Some? ==> i <= r.value < n && ok(r.value)
    decreases n - i
  {
    if i == n then None
    else if ok(i) then Some(i)
    else FirstFrom(ok, i + 1, n)
  }

  /** Every index FirstFrom passes over fails ok. */
  lemma {:induction false} FirstFromEarlier(ok: nat -> bool, i: nat, n: nat)
    requires i <= n
    ensures var r := FirstFrom(ok, i, n);
      forall j :: i <= j < (if r.Some? then r.value else n) ==> !ok(j)
    decreases n - i
  {
    if i < n && !ok(i) {
      FirstFromEarlier(ok, i + 1, n);
    }
  }

  /** Whether the candidate at position j exists and no content line collides with it. */
  function SafeAt(files: seq<File>): nat -> bool {
    (j: nat) => j < CandidateCount && !Collides(files, Candidate(j))
  }

  /** The position of the first candidate that does not collide. */
  function FirstSafe(files: seq<File>): (r: Option<nat>)
    ensures r.Some? ==> r.value < CandidateCount && !Collides(files, Candidate(r.value))
  {
    FirstFrom(SafeAt(files), 0, CandidateCount)
  }

  /** Every candidate before the first safe one collides; all do when none is safe. */
  lemma FirstSafeEarlier(files: seq<File>)
    ensures var r := FirstSafe(files);
      forall j :: 0 <= j < (if r.Some? then r.value else CandidateCount) ==> Collides(files, Candidate(j))
  {
    var r := FirstSafe(files);
    FirstFromEarlier(SafeAt(files), 0, CandidateCount);
    forall j | 0 <= j < (if r.Some? then r.value else CandidateCount)
      ensures Collides(files, Candidate(j))
    {
      assert !SafeAt(files)(j);
    }
  }

  /** The delimiter findSafeDelimiter returns, or None for its "unable to find" error. */
  function SafeDelimiter(files: seq<File>): Option<string> {
    match FirstSafe(files)
    case None => None
    case Some(i) => Some(Candidate(i))
  }

  // ---------------------------------------------------------------------------------------
  // Candidates

  lemma RepeatInjective(c: char, n: nat, c': char, n': nat)
    requires n > 0 && Repeat(c, n) == Repeat(c', n')
    ensures c == c' && n == n'
  {
    assert Repeat(c, n)[0] == c;
  }

  /** Each candidate is one, and sits at its own position. */
  lemma CandidateIsCandidate(i: nat)
    requires i < CandidateCount
    ensures IsCandidate(Candidate(i)) && Position(Candidate(i)) == i
  {
    var d := Candidate(i);
    RowColumn(Row(i), Column(i));
    RowColumnSum(i);
    assert d[0] == Bases[Column(i)];
  }

  /** Every candidate is listed, at its position. */
  lemma CandidateAt(d: string)
    requires IsCandidate(d)
    ensures Position(d) < CandidateCount && Candidate(Position(d)) == d
  {
    RowColumn(|d| - 1, Rank(d[0]));
  }

  /** The candidates are pairwise distinct: the 200 entries of the Go map. */
  lemma CandidatesDistinct(i: nat, j: nat)
    requires i < CandidateCount && j < CandidateCount && i != j
    ensures Candidate(i) != Candidate(j)
  {
    CandidateIsCandidate(i);
    CandidateIsCandidate(j);
  }

  /** e comes before d in the order of preference. */
  predicate Preferred(e: string, d: string)
    requires IsCandidate(e) && IsCandidate(d)
  {
    |e| < |d| || (|e| == |d| && Rank(e[0]) < Rank(d[0]))
  }

  lemma PreferredIsEarlier(e: string, d: string)
    requires IsCandidate(e) && IsCandidate(d)
    ensures Preferred(e, d) <==> Position(e) < Position(d)
  {
  }

  // ---------------------------------------------------------------------------------------
  // What the choice guarantees

  /**
   * A chosen delimiter is a candidate, no content line collides with it, and every candidate
   * that is shorter, or as long and earlier in the order of preference, collides.
   */
  lemma SafeDelimiterIsSafeAndFirst(files: seq<File>)
    requires SafeDelimiter(files).Some?
    ensures var d := SafeDelimiter(files).value;
      && IsCandidate(d)
      && !Collides(files, d)
      && forall e :: IsCandidate(e) && Preferred(e, d) ==> Collides(files, e)
  {
    var i := FirstSafe(files).value;
    var d := Candidate(i);
    CandidateIsCandidate(i);
    FirstSafeEarlier(files);
    forall e | IsCandidate(e) && Preferred(e, d)
      ensures Collides(files, e)
    {
      CandidateAt(e);
      PreferredIsEarlier(e, d);
    }
  }

  /** The selector fails exactly when every candidate collides. */
  lemma SafeDelimiterFails(files: seq<File>)
    ensures SafeDelimiter(files).None? <==> forall d :: IsCandidate(d) ==> Collides(files, d)
  {
    if SafeDelimiter(files).None? {
      FirstSafeEarlier(files);
      forall d | IsCandidate(d)
        ensures Collides(files, d)
      {
        CandidateAt(d);
      }
    } else {
      SafeDelimiterIsSafeAndFirst(files);
    }
  }

  /** The conditions of SafeDelimiterIsSafeAndFirst single out the chosen delimiter. */
  lemma SafeDelimiterUnique(files: seq<File>, d: string)
    requires IsCandidate(d) && !Collides(files, d)
    requires forall e :: IsCandidate(e) && Preferred(e, d) ==> Collides(files, e)
    ensures SafeDelimiter(files) == Some(d)
  {
    CandidateAt(d);
    var p := Position(d);
    assert !Collides(files, Candidate(p));
    FirstSafeEarlier(files);
    var i := FirstSafe(files).value;
    CandidateIsCandidate(i);
    PreferredIsEarlier(Candidate(i), d);
  }

  /** The i-th candidate is chosen exactly when it is safe and every earlier one collides. */
  lemma ChosenAt(files: seq<File>, i: nat)
    requires i < CandidateCount
    ensures SafeDelimiter(files) == Some(Candidate(i)) <==>
      !Collides(files, Candidate(i)) && forall j :: 0 <= j < i ==> Collides(files, Candidate(j))
  {
    var r := FirstSafe(files);
    FirstSafeEarlier(files);
    if r.Some? && r.value != i {
      CandidatesDistinct(r.value, i);
    }
  }

  /** Without content lines of the form "<run> ...", the first preference is taken. */
  lemma NothingCollidesGivesFirst(files: seq<File>)
    requires !Collides(files, ">")
    ensures SafeDelimiter(files) == Some(">")
  {
    assert Candidate(0) == ">";
  }

  // ---------------------------------------------------------------------------------------
  // findSafeDelimiter as the sources run it

  /** One more file's content, in CollidesBefore. */
  lemma CollidesBeforeNext(files: seq<File>, n: nat, d: string)
    requires n < |files|
    ensures CollidesBefore(files, n + 1, d) <==>
      CollidesBefore(files, n, d) || ContentCollides(d, files[n].content)
  {
    if CollidesBefore(files, n + 1, d) {
      var f :| 0 <= f < n + 1 && ContentCollides(d, files[f].content);
      if f < n {
        assert CollidesBefore(files, n, d);
      }
    }
  }

  /** One more line, in AnyLineCollides. */
  lemma AnyLineCollidesNext(d: string, ls: seq<string>, n: nat)
    requires n < |ls|
    ensures AnyLineCollides(d, ls[..n + 1]) <==> AnyLineCollides(d, ls[..n]) || LineCollides(d, ls[n])
  {
    if AnyLineCollides(d, ls[..n + 1]) {
      var k :| 0 <= k < n + 1 && LineCollides(d, ls[..n + 1][k]);
      if k < n {
        assert ls[..n][k] == ls[..n + 1][k];
      }
    }
    if AnyLineCollides(d, ls[..n]) {
      var k :| 0 <= k < n && LineCollides(d, ls[..n][k]);
      assert ls[..n + 1][k] == ls[..n][k];
    }
    assert ls[..n + 1][n] == ls[n];
  }

  /** The set of all candidates (the Go map after its two building loops). */
  method AllCandidates() returns (candidates: set<string>)
    ensures forall d :: d in candidates <==> IsCandidate(d)
  {
    candidates := {};
    for b := 0 to 4
      invariant forall d :: d in candidates <==> IsCandidate(d) && Rank(d[0]) < b
    {
      for length := 1 to MaxLength + 1
        invariant forall d :: d in candidates <==>
          IsCandidate(d) && (Rank(d[0]) < b || (Rank(d[0]) == b && |d| < length))
      {
        var delimiter := Repeat(Bases[b], length);
        assert delimiter[0] == Bases[b];
        forall d | IsCandidate(d) && Rank(d[0]) == b && |d| == length
          ensures d == delimiter
        {
        }
        candidates := candidates + {delimiter};
      }
    }
  }

  /** Removes the candidates that one line collides with (the loop over the map's keys). */
  method RemoveColliding(candidates: set<string>, line: string) returns (kept: set<string>)
    ensures forall d :: d in kept <==> d in candidates && !LineCollides(d, line)
  {
    kept := candidates;
    var toVisit := candidates;
    while toVisit != {}
      invariant toVisit <= candidates
      invariant forall d :: d in kept <==> d in candidates && !(d !in toVisit && LineCollides(d, line))
      decreases |toVisit|
    {
      var delimiter :| delimiter in toVisit;
      if HasPrefix(line, delimiter + " ") {
        kept := kept - {delimiter};
      }
      toVisit := toVisit - {delimiter};
    }
  }

  /** Removes the candidates that some line of one file's content collides with. */
  method RemoveContentColliding(candidates: set<string>, content: string) returns (kept: set<string>)
    ensures forall d :: d in kept <==> d in candidates && !ContentCollides(d, content)
  {
    kept := candidates;
    var lines := Split(content, '\n');
    for li := 0 to |lines|
      invariant forall d :: d in kept <==> d in candidates && !AnyLineCollides(d, lines[..li])
    {
      var line := lines[li];
      forall d
        ensures AnyLineCollides(d, lines[..li + 1]) <==> AnyLineCollides(d, lines[..li]) || LineCollides(d, line)
      {
        AnyLineCollidesNext(d, lines, li);
      }
      if line == "" {
        continue;
      }
      kept := RemoveColliding(kept, line);
    }
    assert lines[..|lines|] == lines;
  }

  /** The candidates that survive every file's content. */
  method SafeCandidates(files: seq<File>) returns (candidates: set<string>)
    ensures forall d :: d in candidates <==> IsCandidate(d) && !Collides(files, d)
  {
    candidates := AllCandidates();
    for f := 0 to |files|
      invariant forall d :: d in candidates <==> IsCandidate(d) && !CollidesBefore(files, f, d)
    {
      forall d
        ensures CollidesBefore(files, f + 1, d) <==> CollidesBefore(files, f, d) || ContentCollides(d, files[f].content)
      {
        CollidesBeforeNext(files, f, d);
      }
      candidates := RemoveContentColliding(candidates, files[f].content);
    }
  }

  /** The length of the shortest remaining candidate (the loop that starts from 51). */
  method ShortestLength(candidates: set<string>) returns (shortest: nat)
    requires candidates != {}
    requires forall d :: d in candidates ==> IsCandidate(d)
    ensures exists d :: d in candidates && |d| == shortest
    ensures forall d :: d in candidates ==> shortest <= |d|
  {
    shortest := MaxLength + 1;
    ghost var sample: string :| sample in candidates;
    var toVisit := candidates;
    while toVisit != {}
      invariant toVisit <= candidates
      invariant forall d :: d in candidates && d !in toVisit ==> shortest <= |d|
      invariant toVisit == candidates ==> shortest == MaxLength + 1
      invariant toVisit != candidates ==> sample in candidates && |sample| == shortest
      decreases |toVisit|
    {
      var delimiter :| delimiter in toVisit;
      if |delimiter| < shortest {
        shortest := |delimiter|;
        sample := delimiter;
      }
      toVisit := toVisit - {delimiter};
    }
  }

  /** The preference loop: the first of the four characters whose run of the given length
      is still a candidate. */
  method PickByPreference(candidates: set<string>, shortest: nat) returns (r: Option<nat>)
    ensures r.Some? ==> r.value < 4 && Repeat(Bases[r.value], shortest) in candidates
    ensures r.Some? ==> forall b :: 0 <= b < r.value ==> Repeat(Bases[b], shortest) !in candidates
    ensures r.None? ==> forall b :: 0 <= b < 4 ==> Repeat(Bases[b], shortest) !in candidates
  {
    for b := 0 to 4
      invariant forall b' :: 0 <= b' < b ==> Repeat(Bases[b'], shortest) !in candidates
    {
      var delimiter := Repeat(Bases[b], shortest);
      if delimiter in candidates {
        return Some(b);
      }
    }
    return None;
  }

  /** The run the preference loop picks among the shortest safe candidates is the chosen
      delimiter. */
  lemma ChosenIsFirst(files: seq<File>, candidates: set<string>, shortest: nat, b: nat)
    requires forall d :: d in candidates <==> IsCandidate(d) && !Collides(files, d)
    requires forall d :: d in candidates ==> shortest <= |d|
    requires b < 4 && Repeat(Bases[b], shortest) in candidates
    requires forall b' :: 0 <= b' < b ==> Repeat(Bases[b'], shortest) !in candidates
    ensures SafeDelimiter(files) == Some(Repeat(Bases[b], shortest))
  {
    var delimiter := Repeat(Bases[b], shortest);
    forall e | IsCandidate(e) && Preferred(e, delimiter)
      ensures Collides(files, e)
    {
      if |e| == |delimiter| {
        assert e == Repeat(Bases[Rank(e[0])], shortest);
      }
    }
    SafeDelimiterUnique(files, delimiter);
  }

  /** findSafeDelimiter. */
  method FindSafeDelimiter(files: seq<File>) returns (r: Option<string>)
    ensures r == SafeDelimiter(files)
  {
    var candidates := SafeCandidates(files);
    if |candidates| == 0 {
      SafeDelimiterFails(files);
      return None;
    }
    var shortestLength := ShortestLength(candidates);
    var pick := PickByPreference(candidates, shortestLength);
    if pick.None? {
      // Every candidate of the shortest length is one of the four the preference loop tried,
      // so the sources' final loop over the remaining candidates and their "internal error"
      // never run.
      assert false;
    }
    ChosenIsFirst(files, candidates, shortestLength, pick.value);
    return Some(Repeat(Bases[pick.value], shortestLength));
  }
}

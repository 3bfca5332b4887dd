# go-silo, modelled in Dafny

go-silo packs many text files into one text document and unpacks them again. A document is
a sequence of records. Each record starts with a declaration line `<delimiter> <path>`,
and the lines after it, up to the next declaration, are the file's content. The repository
has two implementations of the format. `silo.go` accepts any character except space, tab,
line feed and carriage return in a delimiter. `tortise_go.go` accepts ASCII punctuation
only. `glob.go` turns command-line glob patterns into a safe list of files to pack.

The model covers:

- **Format** (`format.dfy`): files and documents, the two delimiter-character rules as one
  `Variant` parameter, `detectDelimiter` (a loop proved equal to the function `Detect`),
  `validatePath` and `isBlankLine`.
- **Parser** (`parser.dfy`): `ParseSiloFile` / `ParseTortiseFile` after the scanner. The
  scanner's line splitting and the `\r` replacement are functions. The skip-blank loop and
  the record loop are methods proved equal to the functions `ParseLines`,
  `Records` and `Scan`. Lemmas state what a parsed document is: valid, distinct paths, one
  per declaration line, in order.
- **Selector** (`selector.dfy`): `findSafeDelimiter`. The methods follow the source's loops:
  build the 200 candidates, remove the colliding ones, take the shortest length, then the
  first character in the order `>`, `=`, `*`, `-`. They are proved equal to `SafeDelimiter`,
  which is defined as the first safe candidate in a fixed order. Lemmas show that this
  candidate is safe and that every candidate preferred over it collides.
- **Writer** (`writer.dfy`): `WriteTo` on a `Document` class that writes to a `Sink` class.
  It chooses a delimiter when none is set, refuses a caller's delimiter that collides (and
  suggests one), and writes each record with a final line feed added to its content.
- **RoundTrip** (`round_trip.dfy`): text written by `WriteTo` reads back, under either rule,
  as the files that were written.
- **Glob** (`glob.go` in `glob.dfy`):
  - `ValidatePattern`, with `url.QueryUnescape` modelled exactly;
  - `ValidatePath`;
  - the `ExpandPatterns` loop: validate, glob, fall back to the literal path, validate each
    match, normalise, de-duplicate.

  The glob functions, `os.Stat`, `filepath.Abs` and `filepath.Rel` are supplied as a `Host`
  value.
- **GoStrings** (`go_strings.dfy`): the Go library functions the core relies on
  (`strings.TrimSpace` with `unicode.IsSpace`, `Split`, `Join`, `Repeat`,
  `bufio.ScanLines`), with their shapes proved.
- **Examples** (`examples.dfy`): cases from `tortise_go_test.go` and `glob_test.go`, stated
  as lemmas.

`silo.go` and `tortise_go.go` differ in delimiter detection. `silo.go`'s `detectDelimiter`
(`silo.go:24-63`) walks the first line rune by rune, checks for `utf8.RuneError` and uses
`isValidDelimiterChar` (`silo.go:68-70`). Tortise's (`tortise_go.go:23-50`) walks bytes and
uses `isPunctuation` (`tortise_go.go:52-57`). Both take the longest run of delimiter characters
and then require a space. Punctuation is ASCII, so Tortise's byte run is the same as a run of
characters. One `Detect` models both, with a `Variant` parameter that selects the character
rule and the `RuneError` check. `validatePath`, the parser,
`findSafeDelimiter`, `WriteTo` and `isBlankLine` are the same code in both files, 13 lines
earlier in `tortise_go.go`: silo's parser at `silo.go:88-170` is Tortise's at
`tortise_go.go:75-157`. Rows below cite `silo.go` for that shared code, and `tortise_go.go`
where Tortise's own code is modelled. The detection test at `tortise_go_test.go:494-503`
expects emoji and other non-ASCII delimiters to be detected. `isPunctuation` refuses them,
so only silo's rule meets that test; `Examples.EmojiDelimiter` states both outcomes.

## Model

| member | source | states |
|---|---|---|
| GoStrings.TrimSpaceShape | silo.go:25 | TrimSpace is empty exactly for all-space input, keeps no space at either end, and leaves text without end spaces unchanged |
| GoStrings.ScanLinesNoCR | silo.go:89-97 | on a text without carriage returns, the scanner's tokens are exactly the text's line-feed-separated lines |
| GoStrings.ScanLinesRebuild | silo.go:89-97 | the scanner loses only line breaks: its tokens joined by line feeds are the text, less a final line feed |
| GoStrings.JoinLines | silo.go:89-97 | a non-empty text ending with a line feed has at least one line, and its lines joined by line feeds, plus one line feed, are the text |
| GoStrings.JoinSplit | silo.go:184 | joining strings.Split's pieces with the separator gives the text back |
| GoStrings.SplitJoin | silo.go:139 | splitting a join of separator-free pieces gives the pieces back |
| GoStrings.SplitIsLines | silo.go:184 | strings.Split at line feeds is the lines, plus an empty last piece when the text ends with a line feed |
| Selector.RepeatInjective | silo.go:176-180 | two non-empty repeats are equal only for the same character and the same length, so no candidate key is built twice |
| GoStrings.SplitPiecesOccur | glob.go:86 | every piece strings.Split returns occurs in the string it came from |
| Format.RunLength | silo.go:34-46 | the delimiter run is the longest prefix of delimiter characters: all of them qualify and the next one does not |
| Format.Detect | silo.go:24-63 | EmptyLine exactly for a blank line; a success is a delimiter, one space and a non-blank trimmed path on the trimmed line |
| Format.ScanDeclaration | tortise_go.go:29-49 | on a non-blank trimmed line, a success is delimiter + space + path and the error is never EmptyLine |
| Format.DetectComplete | tortise_go.go:23-50 | the converse of Detect: every trimmed line `<delimiter> <rest>` with a non-blank rest is detected as exactly that delimiter and trimmed path |
| Format.UnicodeRunNeverEmpty | silo.go:48-50 | under silo's rule the empty-delimiter error never fires; InvalidDeclaration always means no space after the run |
| Format.RunEndsAt | silo.go:40-42 | a delimiter-character prefix stopped by the end of the line or by another character is the whole run |
| Format.RuneErrorInRun | silo.go:35-38 | a RuneError met while the run is still going lies inside the run, and the scan of the trimmed line then reports InvalidEncoding |
| Format.DetectDelimiter | silo.go:24-63 | the detection loop returns exactly Detect's result, under either rule |
| Format.AcceptedPathStaysBelowRoot | silo.go:72-86 | an accepted path is non-empty, not ".", relative, free of NUL, and has no ".." segment |
| Format.ParentCheckIsConservative | silo.go:79-81 | the ".." check is on substrings: "a..b" has no ".." segment and is still rejected |
| Format.IsBlankLine | silo.go:269-271 | a line is blank exactly when every character is white space |
| Parser.ReplaceCRLF | silo.go:94 | a line without a line feed is unchanged by the CRLF replacement |
| Parser.ReadLinesPlain | silo.go:89-97 | for text without carriage returns, the parser's lines are exactly the text's lines |
| Parser.FirstNonBlank | silo.go:106-109 | the skip loop stops at the first non-blank line; every earlier line is blank |
| Parser.ContentRun | silo.go:135-159 | the lines before the next declaration open no record, and the line it stops at does |
| Parser.ContentRunIsContent | silo.go:157-158 | no line that a record takes as content starts with the delimiter and a space |
| Parser.ParseAtDeclaration | silo.go:115-133 | when the first line declares a valid path, the result is that record followed by the records after it |
| Parser.RecordsAtStart | silo.go:138-156 | a declaration line closes the current record with its content lines, validates the new path, refuses a duplicate, and opens the next record |
| Parser.RecordsAtEnd | silo.go:163-167 | at the end of the input the content lines form the last record |
| Parser.Parse | silo.go:103-169 | the blank-line skip, delimiter detection, first-path check and record loop return exactly ParseLines's result |
| Parser.ParseFrom | silo.go:115-169 | from the first non-blank line on, delimiter detection, first-path check and record loop return exactly ParseLines's result, each error with its line number |
| Parser.ParseFromDeclaration | silo.go:115-133 | when the first non-blank line declares a valid path, the result is built from the records that follow that line |
| Parser.ScanIsRecords | silo.go:135-161 | the line-by-line record loop, as a function of its loop state, equals the record-structured Records |
| Parser.CollectRecords | silo.go:132-169 | the record loop returns exactly Scan's result |
| Parser.NextRecord | silo.go:138-156 | a successful read at a declaration: the path is valid and new, the first file is the current record, and the declaration's path is the next opening |
| Parser.RecordsPaths | silo.go:138-155 | the paths read are the current one, then one per later declaration line, in order |
| Parser.RecordsFresh | silo.go:146-153 | every record after the current one has a valid path not seen before |
| Parser.RecordsDistinct | silo.go:150-153 | the paths of the records read are pairwise distinct |
| Parser.ParsedRecords | silo.go:115-125 | a successful parse of a text with a non-blank line detected a declaration on the first non-blank line, took its delimiter and first path from it, the path passed validatePath, and the files are the records after it |
| Parser.DetectFailurePropagates | silo.go:115-118 | a first non-blank line that is not a declaration fails the parse with that detection error and the line's 1-based number |
| Parser.FirstPathRejected | silo.go:120-125 | a first declaration whose path validatePath refuses fails the parse with that path error and the line's 1-based number |
| Parser.ParseBlank | silo.go:111-113 | the empty document comes back exactly when every line is blank |
| Parser.ParsedDocument | silo.go:88-170 | a parsed document has no files exactly when it has no delimiter, and otherwise a detected delimiter and valid, pairwise distinct paths |
| Parser.ParsedPaths | tortise_go.go:102-148 | a parsed document's paths are the first declaration's, then one per later line that starts with the delimiter and a space |
| Selector.Rank | silo.go:208 | the position of a candidate character in the preference order |
| Selector.RowColumn | silo.go:176-180 | a candidate position is recovered from its length and its character |
| Selector.CandidateIsCandidate | silo.go:176-180 | every listed candidate is a run of 1 to 50 copies of one base character, at its own position |
| Selector.CandidateAt | silo.go:176-180 | every such run is listed |
| Selector.CandidatesDistinct | silo.go:174-181 | the candidates are pairwise distinct: the map has 200 keys |
| Selector.PreferredIsEarlier | silo.go:201-214 | being shorter, or as long and earlier among `>`, `=`, `*`, `-`, is coming earlier in the candidate order |
| Selector.FirstFrom | silo.go:209-214 | the first index satisfying a test, with every index before it failing |
| Selector.FirstSafe | silo.go:197-214 | the first candidate no content line collides with |
| Selector.FirstSafeEarlier | silo.go:183-199 | every candidate before the first safe one collides, and all collide when none is safe |
| Selector.SafeDelimiterIsSafeAndFirst | silo.go:172-223 | the chosen delimiter is a candidate, no non-empty content line starts with it and a space, and every preferred candidate collides |
| Selector.SafeDelimiterFails | silo.go:197-199 | the "unable to find safe delimiter" error occurs exactly when every candidate collides |
| Selector.SafeDelimiterUnique | silo.go:201-214 | a safe candidate whose preferred candidates all collide is the one chosen |
| Selector.ChosenAt | silo.go:208-214 | the i-th candidate is chosen exactly when it is safe and every earlier one collides |
| Selector.NothingCollidesGivesFirst | silo.go:208-213 | with no collision for ">", the selector returns ">" |
| Selector.AllCandidates | silo.go:173-181 | the building loops put exactly the candidates into the set |
| Selector.RemoveColliding | silo.go:189-193 | the loop over the keys keeps exactly the candidates that the line does not collide with |
| Selector.RemoveContentColliding | silo.go:184-194 | the loop over a content's lines keeps exactly the candidates that none of its lines collides with |
| Selector.SafeCandidates | silo.go:183-195 | after the loop over the files, the set holds exactly the candidates that no content collides with |
| Selector.ShortestLength | silo.go:201-206 | the loop that starts at 51 finds the length of a shortest remaining candidate |
| Selector.PickByPreference | silo.go:208-214 | the preference loop returns the first base character whose run of that length survives, or nothing when none does |
| Selector.ChosenIsFirst | silo.go:201-214 | the run the preference loop picks among the shortest survivors is SafeDelimiter's choice |
| Selector.FindSafeDelimiter | silo.go:172-223 | findSafeDelimiter returns exactly SafeDelimiter's result, and its fallback loop is unreachable |
| Writer.Terminated | silo.go:255-258 | written content is empty exactly when the content is |
| Writer.FirstCollisionFrom | silo.go:236-246 | the first file from position i with a colliding content line, every file before it having none |
| Writer.RenderCons | silo.go:249-264 | the written text is the records one after another, first file first |
| Writer.RenderSnoc | silo.go:249-264 | writing one more file appends its record |
| Writer.RenderPrefix | silo.go:249-264 | the text for the first i+1 files is the text for the first i, followed by the i-th record |
| Writer.FirstCollisionFinds | silo.go:235-247 | the conflict scan finds nothing exactly when no content line collides with the delimiter |
| Writer.AutoDelimiterIsSafe | silo.go:226-233 | with no delimiter set, a write uses a candidate no content collides with, and fails exactly when every candidate collides |
| Writer.ExplicitDelimiterChecked | silo.go:235-247 | a caller's delimiter is kept exactly when no content line collides; otherwise the error names the first colliding file and suggests findSafeDelimiter's choice |
| Writer.Sink.constructor | silo.go:225 | a new writer holds no text |
| Writer.Sink.Write | silo.go:260 | a write appends its argument to the text |
| Writer.ContentHasCollision | silo.go:237-245 | the loop over a content's lines reports exactly whether one collides |
| Writer.Document.constructor | silo.go:19-22 | a document holds the delimiter and files it was given |
| Writer.Document.WriteTo | silo.go:225-267 | files are unchanged; on error nothing is written and the delimiter is unchanged; on success the text is appended and the delimiter is the one used |
| Writer.FindCollision | silo.go:236-246 | the loop over the files returns the first file with a colliding line |
| Writer.WriteRecords | silo.go:249-264 | the output loop appends a declaration line and the terminated content for every file, in order |
| RoundTrip.StoredUnchanged | silo.go:163-167 | what reading back does to a content: the empty content and any content ending with a line feed, other than a lone line feed, come back unchanged; any other content comes back with one line feed added; the result is empty or ends with a line feed |
| RoundTrip.TerminatedEndsLine | silo.go:255-258 | written content ends a line and is the content, or the content plus one line feed |
| RoundTrip.RecordLines | silo.go:249-258 | a record's lines are its declaration line, then its content's lines |
| RoundTrip.RenderLines | silo.go:249-264 | the lines of the written text are each file's declaration line followed by its content's lines |
| RoundTrip.RenderNoCR | silo.go:249-264 | without carriage returns in the delimiter, paths and contents, the text has none |
| RoundTrip.StoredBody | silo.go:139-142 | joining a written content's lines and terminating them gives the content back, except "\n" becomes empty |
| RoundTrip.ContentStaysContent | silo.go:138 | a content with no colliding line opens no record when read |
| RoundTrip.HeaderDeclares | silo.go:145 | a written declaration line is read as declaring its path |
| RoundTrip.HeaderDetected | tortise_go.go:23-50 | the first written declaration line is detected as the delimiter and the path |
| RoundTrip.RecordsLayout | silo.go:135-167 | the record loop reads the written lines back as the stored files |
| RoundTrip.ParseLayout | silo.go:103-169 | the parser reads the written lines back as the written delimiter and the stored files |
| RoundTrip.RoundTrip | silo.go:88-170 | reading the text written under a detectable delimiter gives back the files in order, with their paths and stored contents |
| RoundTrip.CandidateReadable | tortise_go.go:52-57 | every delimiter findSafeDelimiter can choose is accepted by both delimiter rules |
| RoundTrip.WriteThenRead | silo.go:225-267 | what WriteTo writes, either reader reads back as the files under the delimiter WriteTo used |
| RoundTrip.StoredIsStable | silo.go:139-142 | reading back is idempotent: stored contents are stored unchanged |
| Glob.HexValue | glob.go:38 | a hex digit's value is below 16 |
| Glob.Unescape | glob.go:37-44 | a decode is never longer than the pattern, and strictly shorter when the pattern holds '%' |
| Glob.HexDigit | glob.go:38 | the digit for a value below 16 decodes back to it |
| Glob.UnescapeEscape | glob.go:38 | percent-encoding every byte of a string and decoding gives the string back |
| Glob.TraversalHasParent | glob.go:68-70 | a pattern holding "\..\" or "/../" holds ".." |
| Glob.ValidatePatternIsSafe | glob.go:35-73 | a pattern is accepted exactly when it is safe (not absolute unless allowed, no "..", no drive letter, safe once decoded), and the traversal error never occurs |
| Glob.PatternRejections | glob.go:47-65 | a pattern with "..", a forbidden leading slash or a drive letter is rejected, and one whose decode is rejected gets the encoded-content error |
| Glob.RelativePathIsPattern | glob.go:76-93 | a relative path is accepted exactly when it is accepted as a pattern, and the ".." segment error never occurs |
| Glob.AcceptedPathIsRelative | glob.go:76-93 | with absolute paths forbidden, an accepted path is relative, safe and has no ".." segment |
| Glob.Dedup | glob.go:181-185 | the result has no repeats and the same elements as the input |
| Glob.FirstIndex | glob.go:182 | the position of an element's first occurrence |
| Glob.DedupOrder | glob.go:181-185 | de-duplication keeps elements in the order of their first occurrence |
| Glob.DedupDistinct | glob.go:181-185 | a list without repeats is unchanged |
| Glob.AcceptedStops | glob.go:166-169 | the first unsafe match decides the error for a pattern |
| Glob.CollectStops | glob.go:132-156 | the first failing pattern decides the error for the whole expansion |
| Glob.FirstInvalidPatternStops | glob.go:134-136 | the expansion stops at the first invalid pattern, with that pattern's error |
| Glob.AcceptedAreValidated | glob.go:166-179 | each accepted match passed ValidatePath and was normalised, one result per match |
| Glob.CollectedAreSafe | glob.go:165-179 | with absolute paths forbidden, every collected path passed ValidatePath |
| Glob.ExpandResult | glob.go:128-190 | the result has no repeats, holds exactly the collected paths in first-seen order, and with absolute paths forbidden only safe paths |
| Glob.ExpandPatterns | glob.go:128-190 | the loop over the patterns with allFiles and seenFiles returns exactly Expand's result |
| Glob.AddMatches | glob.go:166-186 | the loop over one pattern's matches validates, normalises and appends unseen paths, keeping seenFiles equal to the paths kept |
| Examples.DetectArrow | tortise_go_test.go:486 | "-> file.txt" declares "file.txt" with delimiter "->" under both rules |
| Examples.DetectNoSpace | tortise_go_test.go:505 | "file.txt" is no declaration under either rule |
| Examples.DetectBare | tortise_go_test.go:506-508 | ">" and "> " are no declarations and "" is an empty line |
| Examples.EmojiDelimiter | tortise_go_test.go:494-495 | "🐢 file.txt" declares "file.txt" under the turtle emoji with silo.go's rule, and is no declaration with tortise_go.go's isPunctuation rule |
| Examples.EmptyInput | tortise_go_test.go:88-99 | empty input reads as a document with no files |
| Examples.TwoLines | silo.go:89-97 | two lines, each ended by a line feed, are read as exactly those two lines |
| Examples.ParseEmptyPath | tortise_go_test.go:132-145 | "> " then "content" fails on line 1: the trimmed "> " has no space after the delimiter |
| Examples.ParseBadPath | silo.go:115-125 | "> p" then one more line fails on line 1 with the error validatePath gives p |
| Examples.BadFirstDeclaration | silo.go:115-125 | any lines opening with "> p", for a path p that validatePath refuses, fail on line 1 with that error |
| Examples.ParseAbsolutePath | tortise_go_test.go:132-145 | "> /absolute/path" then "content" fails on line 1 as an absolute path |
| Examples.ParseParentPath | tortise_go_test.go:132-145 | "> ../parent/path" then "content" fails on line 1 as a parent reference |
| Examples.ParseDotPath | tortise_go_test.go:132-145 | "> ." then "content" fails on line 1 as an invalid path |
| Examples.PlainPathAccepted | tortise_go.go:59-73 | a non-empty relative path other than "." without NUL and without two dots in a row is accepted |
| Examples.ValidPathExamples | tortise_go_test.go:536-550 | the test's valid paths "file.txt" and "dir/file.txt" are accepted |
| Examples.ValidPathExamplesNested | tortise_go_test.go:536-550 | the test's valid paths "deeply/nested/dir/file.txt" and "file-with-dashes.txt" are accepted |
| Examples.ValidPathExamplesDotted | tortise_go_test.go:536-550 | the test's valid paths "file_with_underscores.txt" and "file.with.dots.txt" are accepted |
| Examples.ParentPathRejected | tortise_go.go:59-73 | a relative path containing ".." anywhere is refused as a parent reference |
| Examples.InvalidPathExamples | tortise_go_test.go:552-565 | the six invalid paths of the test are refused: "" and "." as invalid, "/absolute/path" as absolute, the three with ".." as parent references |
| Examples.NoConflictPrefersGreaterThan | tortise_go_test.go:631-639 | with no conflicting content the selector picks ">" |
| Examples.ConflictPrefersEquals | tortise_go_test.go:640-647 | a "> ..." content line makes the selector pick "=" |
| Examples.GreaterThanWithoutSpace | tortise_go_test.go:784-788 | content lines starting with ">" but not "> " leave ">" free, so the selector picks ">" |
| Examples.AllSinglesBlocked | tortise_go_test.go:664-671 | with all four one-character delimiters blocked the selector picks ">>" |
| Examples.ExplicitCollisionSuggests | tortise_go_test.go:1163-1190 | a colliding caller delimiter ">" is refused, naming the file and suggesting "=" |
| Examples.AutoDelimiterAvoidsConflict | tortise_go_test.go:696-714 | with no delimiter set and a "> ..." line, the output starts "= file1.txt\n" |
| Examples.WriteTwoFiles | tortise_go_test.go:260-284 | the two-file document is written as in the expected text |
| Examples.PatternsAccepted | glob_test.go:23-46 | "*.go", "src/", "./file.txt" and ".gitignore" are accepted |
| Examples.ParentPatternsRejected | glob_test.go:40-43 | ".." and a backslash traversal are rejected as parent references |
| Examples.AbsolutePatternRejected | glob_test.go:30 | "/etc/passwd" is rejected unless absolute paths are allowed |
| Examples.DriveLetterRejected | glob_test.go:31 | "C:\Windows\System32" is rejected for its drive letter |
| Examples.EncodedTraversalRejected | glob_test.go:321 | the URL-encoded "../../../" is rejected as encoded forbidden content |
| Examples.ExpandDeduplicates | glob_test.go:268-302 | "test.go", "*.go", "test.go" all matching test.go expand to just "test.go" |

## Left out

- I/O: the scanner's token-size limit, `scanner.Err()` and write errors of the `io.Writer` are not modelled. The reader starts from the input text and the writer appends to a `Sink` that cannot fail.
- Strings are sequences of characters. `tortise_go.go`'s byte-by-byte delimiter scan is modelled on characters. The outcome is the same: every byte of a multi-byte UTF-8 character is above 127, so it is neither punctuation nor a space and stops the scan. `silo.go`'s invalid UTF-8 bytes appear only as the RuneError character U+FFFD they decode to.
- Go's map iteration order is not modelled. The selector keeps its candidates in a set and the parser keeps seen paths in a set. The outcome does not depend on the order, which the lemmas about `Selector.FindSafeDelimiter` show.
- The selector's second loop over the candidates (silo.go:216-222) and its "internal error" return are unreachable, because some run of the shortest length always survives. The model proves the preference loop always returns and writes `assert false` there.
- The parser's duplicate check on the first path (silo.go:127-129) can never fire, because no path has been seen yet. The model starts with the first path already seen.
- `glob.go`'s "\..\" / "/../" check (glob.go:68-70) and its second leading-slash check (glob.go:57-59) never decide the result, because earlier checks catch those patterns. `Glob.ValidatePatternIsSafe` proves this for the first. The relative-path segment scan of `ValidatePath` (glob.go:84-93) never rejects, which `Glob.RelativePathIsPattern` proves.
- `filepath.IsAbs` follows the Unix rule (a leading '/'). `filepath.ToSlash` is the identity. Windows path semantics are not modelled.
- Glob matching, `os.Stat`, `filepath.Abs` and `filepath.Rel` belong to the operating system and libraries. They enter as the functions of `Glob.Host`. `NewSecureGlobExpander`'s `os.Getwd` enters the same way, as the working directory behind `resolve` and `relative`. Error messages are represented by error constructors, not by their text.
- `url.QueryUnescape` is modelled on the decoded bytes as characters below 256. A decode that yields invalid UTF-8 is not told apart.
- RoundTrip.RoundTrip: a content of exactly one line feed reads back as empty. The lemma states this through `Stored` rather than promising identity. Paths must already be trimmed and on one line, and contents free of carriage returns, because the reader changes those.
- `ReadDirectoryTree`, `ReadFiles`, `WriteToDirectory` and the command-line programs are outside the modelled core.

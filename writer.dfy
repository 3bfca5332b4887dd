/**
 * SiloDocument.WriteTo / TortiseDocument.WriteTo: a document is written as one declaration
 * line `<delimiter> <path>` per file followed by the file's content, with a final line feed
 * added to content that lacks one. With no delimiter set, one is chosen by findSafeDelimiter;
 * a delimiter set by the caller is refused when some content line would read as a
 * declaration, and the error suggests the delimiter the selector would choose instead.
 */
module Writer {
  import opened Wrappers
  import opened GoStrings
  import opened Format
  import opened Selector

  datatype WriteError =
    | NoSafeDelimiter                                                   // findSafeDelimiter failed
    | Conflict(delimiter: string, path: string, suggestion: Option<string>)  // caller's delimiter collides

  /** What a successful write produces: the delimiter the document ends up with, and the text. */
  datatype Output = Output(delimiter: string, text: string)

  /** Content as written: a line feed is added unless the content is empty or ends with one. */
  function Terminated(content: string): (t: string)
    ensures content == [] <==> t == []
  {
    if !HasSuffix(content, "\n") && content != "" then content + "\n" else content
  }

  /** One file's declaration line and content. */
  function Record(d: string, f: File): string {
    d + " " + f.path + "\n" + Terminated(f.content)
  }

  /** The whole text written for the files under delimiter d. */
  function Render(d: string, files: seq<File>): string {
    if files == [] then ""
    else Render(d, files[..|files| - 1]) + Record(d, files[|files| - 1])
  }

  /** The first file, from position i on, with a content line that collides with d. */
  function FirstCollisionFrom(d: string, files: seq<File>, i: nat): (r: Option<nat>)
    requires i <= |files|
    ensures r.Some? ==> i <= r.value < |files| && ContentCollides(d, files[r.value].content)
    ensures r.Some? ==> forall j :: i <= j < r.value ==> !ContentCollides(d, files[j].content)
    ensures r.None? ==> forall j :: i <= j < |files| ==> !ContentCollides(d, files[j].content)
    decreases |files| - i
  {
    if i == |files| then None
    else if ContentCollides(d, files[i].content) then Some(i)
    else FirstCollisionFrom(d, files, i + 1)
  }

  function FirstCollision(d: string, files: seq<File>): Option<nat> {
    FirstCollisionFrom(d, files, 0)
  }

  /** WriteTo's outcome for a document with delimiter d ("" when unset) and the given files. */
  function Serialize(d: string, files: seq<File>): Result<Output, WriteError> {
    if d == "" then
      match SafeDelimiter(files)
      case None => Err(NoSafeDelimiter)
      case Some(a) => Ok(Output(a, Render(a, files)))
    else
      match FirstCollision(d, files)
      case Some(i) => Err(Conflict(d, files[i].path, SafeDelimiter(files)))
      case None => Ok(Output(d, Render(d, files)))
  }

  // ---------------------------------------------------------------------------------------
  // Properties of the writer

  /** The text is the records one after another, first file first. */
  lemma {:induction false} RenderCons(d: string, f: File, files: seq<File>)
    ensures Render(d, [f] + files) == Record(d, f) + Render(d, files)
    decreases |files|
  {
    if files == [] {
      assert ([f] + files)[..0] == [];
    } else {
      var init, last := files[..|files| - 1], files[|files| - 1];
      assert files == init + [last];
      assert [f] + files == ([f] + init) + [last];
      RenderCons(d, f, init);
      RenderSnoc(d, [f] + files, [f] + init, last);
      RenderSnoc(d, files, init, last);
      Associative(Record(d, f), Render(d, init), Record(d, last));
    }
  }

  lemma Associative(a: string, b: string, c: string)
    ensures (a + b) + c == a + (b + c)
  {
  }

  /** Render at its last file, for a sequence given as init + [last]. */
  lemma RenderSnoc(d: string, all: seq<File>, init: seq<File>, last: File)
    requires all == init + [last]
    ensures Render(d, all) == Render(d, init) + Record(d, last)
  {
    assert all[..|all| - 1] == init;
  }

  lemma FirstCollisionFinds(d: string, files: seq<File>)
    ensures FirstCollision(d, files).None? <==> !Collides(files, d)
  {
    if Collides(files, d) {
      var f :| 0 <= f < |files| && ContentCollides(d, files[f].content);
    }
  }

  /** With no delimiter set, the chosen one is a candidate that no content line collides
      with; the write fails only when every candidate collides. */
  lemma AutoDelimiterIsSafe(files: seq<File>)
    ensures Serialize("", files).Ok? ==>
      var a := Serialize("", files).value.delimiter;
      IsCandidate(a) && !Collides(files, a) && Serialize("", files).value.text == Render(a, files)
    ensures Serialize("", files) == Err(NoSafeDelimiter) <==> forall d :: IsCandidate(d) ==> Collides(files, d)
  {
    SafeDelimiterFails(files);
    if SafeDelimiter(files).Some? {
      SafeDelimiterIsSafeAndFirst(files);
    }
  }

  /**
   * A delimiter set by the caller is kept exactly when no content line collides with it;
   * otherwise the error names the first file with such a line and suggests the delimiter
   * findSafeDelimiter picks, if any.
   */
  lemma ExplicitDelimiterChecked(d: string, files: seq<File>)
    requires d != ""
    ensures Serialize(d, files).Ok? <==> !Collides(files, d)
    ensures Serialize(d, files).Ok? ==> Serialize(d, files).value == Output(d, Render(d, files))
    ensures Serialize(d, files).Err? ==>
      exists i :: 0 <= i < |files| && ContentCollides(d, files[i].content)
        && (forall j :: 0 <= j < i ==> !ContentCollides(d, files[j].content))
        && Serialize(d, files).error == Conflict(d, files[i].path, SafeDelimiter(files))
  {
    FirstCollisionFinds(d, files);
  }

  // ---------------------------------------------------------------------------------------
  // The document and the writer it writes to

  /** An io.Writer that keeps everything written to it (write errors are not modelled). */
  class Sink {
    var text: string

    constructor()
      ensures text == ""
    {
      text := "";
    }

    method Write(s: string)
      modifies this
      ensures text == old(text) + s
    {
      text := text + s;
    }
  }

  /** Whether some line of the content collides with d (the loop over the content's lines). */
  method ContentHasCollision(d: string, content: string) returns (b: bool)
    ensures b == ContentCollides(d, content)
  {
    var lines := Split(content, '\n');
    for li := 0 to |lines|
      invariant forall k :: 0 <= k < li ==> !LineCollides(d, lines[k])
    {
      var line := lines[li];
      if line != "" && HasPrefix(line, d + " ") {
        return true;
      }
    }
    return false;
  }

  /** SiloDocument / TortiseDocument. */
  class Document {
    var delimiter: string
    var files: seq<File>

    constructor(delimiter: string, files: seq<File>)
      ensures this.delimiter == delimiter && this.files == files
    {
      this.delimiter := delimiter;
      this.files := files;
    }

    /** WriteTo: the text and the new delimiter are Serialize's; nothing is written on error. */
    method WriteTo(w: Sink) returns (err: Option<WriteError>)
      modifies this, w
      ensures files == old(files)
      ensures match Serialize(old(delimiter), files)
        case Err(e) => err == Some(e) && delimiter == old(delimiter) && w.text == old(w.text)
        case Ok(out) => err == None && delimiter == out.delimiter && w.text == old(w.text) + out.text
    {
      var wasAutoDetected := delimiter == "";
      if delimiter == "" {
        var found := FindSafeDelimiter(files);
        if found.None? {
          return Some(NoSafeDelimiter);
        }
        delimiter := found.value;
      }

      if !wasAutoDetected {
        var collision := FindCollision(delimiter, files);
        if collision.Some? {
          var suggestion := FindSafeDelimiter(files);
          return Some(Conflict(delimiter, files[collision.value].path, suggestion));
        }
      }

      WriteRecords(w, delimiter, files);
      return None;
    }
  }

  /** The loop over the files and their content lines that checks a caller's delimiter. */
  method FindCollision(d: string, files: seq<File>) returns (r: Option<nat>)
    ensures r == FirstCollision(d, files)
  {
    for f := 0 to |files|
      invariant FirstCollisionFrom(d, files, 0) == FirstCollisionFrom(d, files, f)
    {
      var collides := ContentHasCollision(d, files[f].content);
      if collides {
        return Some(f);
      }
    }
    return None;
  }

  /** Rendering one more file appends its record. */
  lemma RenderPrefix(d: string, files: seq<File>, i: nat)
    requires i < |files|
    ensures Render(d, files[..i + 1]) == Render(d, files[..i]) + Record(d, files[i])
  {
    assert files[..i + 1][..i] == files[..i];
  }

  lemma AppendRecord(start: string, done: string, header: string, content: string)
    ensures start + done + header + content == start + (done + (header + content))
  {
  }

  /** The output loop: each file's declaration line, then its terminated content. */
  method WriteRecords(w: Sink, d: string, files: seq<File>)
    modifies w
    ensures w.text == old(w.text) + Render(d, files)
  {
    for i := 0 to |files|
      invariant w.text == old(w.text) + Render(d, files[..i])
    {
      var before := w.text;
      var header := d + " " + files[i].path + "\n";
      w.Write(header);
      var content := files[i].content;
      if !HasSuffix(content, "\n") && content != "" {
        content := content + "\n";
      }
      w.Write(content);
      assert w.text == before + header + content;
      assert header + content == Record(d, files[i]);
      RenderPrefix(d, files, i);
      AppendRecord(old(w.text), Render(d, files[..i]), header, content);
    }
    assert files[..|files|] == files;
  }
}

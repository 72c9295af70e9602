/**
 * Reading and writing the history file. A file is an object holding whether
 * it exists and its text; `load_history`, `write_history` and
 * `append_history` are the loops that scan and emit that text.
 */
module Persistence {
  import opened Entry
  import opened Integers
  import opened TextLines
  import opened Codec

  /** The one I/O failure modelled: opening a file that does not exist. */
  datatype IoError = NotFound

  datatype Result<T> = Ok(value: T) | Err(error: IoError)

  /** A text file on disk. */
  class HistFile {
    var present: bool
    var content: string

    constructor (present: bool, content: string)
      ensures this.present == present && this.content == content
    {
      this.present := present;
      this.content := content;
    }

    /** `File::create`: creates the file, or truncates it when it exists. */
    method Create()
      modifies this
      ensures present && content == ""
    {
      present, content := true, "";
    }

    /** `OpenOptions::new().append(true).create(true).open`: keeps what is there. */
    method OpenAppend()
      modifies this
      ensures present
      ensures content == if old(present) then old(content) else ""
    {
      if !present {
        present, content := true, "";
      }
    }

    /** `writeln!(f, "{}", line)`. */
    method WriteLine(line: string)
      modifies this
      ensures present == old(present)
      ensures content == old(content) + (line + "\n")
    {
      content := content + (line + "\n");
    }
  }

  /**
   * `load_history`: scans the lines of the file keeping a pending epoch. An
   * annotation line replaces it (with `None` when the number does not parse);
   * a command line emits an entry with it and clears it.
   */
  method LoadHistory(f: HistFile) returns (r: Result<seq<HistoryEntry>>)
    ensures !f.present ==> r == Err(NotFound)
    ensures f.present ==> r == Ok(Parse(f.content))
  {
    if !f.present {
      return Err(NotFound);
    }
    var lines := Lines(f.content);
    var entries: seq<HistoryEntry> := [];
    var pending: Option<I64> := None;
    for i := 0 to |lines|
      invariant entries + ParseFrom(lines[i..], pending) == ParseFrom(lines, None)
    {
      var line := lines[i];
      assert lines[i..] == [line] + lines[i + 1..];
      if |line| > 0 && line[0] == '#' {
        ParseAnnotationCons(line, lines[i + 1..], pending);
        pending := ParseI64(line[1..]);
      } else {
        ParseCommandCons(line, lines[i + 1..], pending);
        entries := entries + [HistoryEntry(pending, line)];
        pending := None;
      }
    }
    assert lines[|lines|..] == [] && entries + [] == entries;
    return Ok(entries);
  }

  /** The loop shared by `write_history` and `append_history`. */
  method WriteEntries(f: HistFile, entries: seq<HistoryEntry>)
    modifies f
    ensures f.present == old(f.present)
    ensures f.content == old(f.content) + Serialize(entries)
  {
    for i := 0 to |entries|
      invariant f.present == old(f.present)
      invariant f.content == old(f.content) + Serialize(entries[..i])
    {
      var e := entries[i];
      ghost var before := f.content;
      if e.epoch.Some? {
        f.WriteLine("#" + ShowI64(e.epoch.value));
        ConcatAssoc(before, "#" + ShowI64(e.epoch.value) + "\n", e.cmd + "\n");
      }
      f.WriteLine(e.cmd);
      assert f.content == before + EntryText(e);
      SerializeSplit(entries[..i], [e]);
      assert entries[..i + 1] == entries[..i] + [e];
      assert Serialize([e]) == EntryText(e) + Serialize([]);
      assert EntryText(e) + [] == EntryText(e);
      ConcatAssoc(old(f.content), Serialize(entries[..i]), EntryText(e));
    }
    assert entries[..|entries|] == entries;
  }

  /** `write_history`: the file afterwards holds exactly the serialised entries. */
  method WriteHistory(entries: seq<HistoryEntry>, f: HistFile)
    modifies f
    ensures f.present && f.content == Serialize(entries)
  {
    f.Create();
    WriteEntries(f, entries);
  }

  /**
   * `append_history`: ALL the entries are serialised after what the file
   * held, not only those added since the last write.
   */
  method AppendHistory(entries: seq<HistoryEntry>, f: HistFile)
    modifies f
    ensures f.present
    ensures f.content == (if old(f.present) then old(f.content) else "") + Serialize(entries)
  {
    f.OpenAppend();
    WriteEntries(f, entries);
  }
}

/**
 * The history file format: an optional `#<epoch>` annotation line before
 * each command line. Parsing keeps a pending epoch; serialising writes the
 * annotation exactly when an entry has an epoch.
 */
module Codec {
  import opened Entry
  import opened Integers
  import opened TextLines

  /** A line the parser reads as a timestamp annotation. */
  predicate IsAnnotation(line: string) { |line| > 0 && line[0] == '#' }

  /** What an annotation line sets the pending epoch to (`None` when it does not parse). */
  function AnnotatedEpoch(line: string): Option<I64>
    requires IsAnnotation(line)
  {
    ParseI64(line[1..])
  }

  /** The number of command (non-annotation) lines. */
  function CommandCount(lines: seq<string>): nat
  {
    if lines == [] then 0
    else (if IsAnnotation(lines[0]) then 0 else 1) + CommandCount(lines[1..])
  }

  /**
   * The entries read from `lines` when `pending` is the pending epoch before
   * the first line. One entry per command line; a trailing annotation is lost.
   */
  function ParseFrom(lines: seq<string>, pending: Option<I64>): (r: seq<HistoryEntry>)
    ensures |r| == CommandCount(lines)
  {
    if lines == [] then []
    else if IsAnnotation(lines[0]) then ParseFrom(lines[1..], AnnotatedEpoch(lines[0]))
    else [HistoryEntry(pending, lines[0])] + ParseFrom(lines[1..], None)
  }

  /** The pending epoch once all of `lines` has been scanned. */
  function PendingAfter(lines: seq<string>, pending: Option<I64>): Option<I64>
  {
    if lines == [] then pending
    else PendingAfter(lines[1..], if IsAnnotation(lines[0]) then AnnotatedEpoch(lines[0]) else None)
  }

  /** The entries of a history file's text. */
  function Parse(text: string): seq<HistoryEntry>
  {
    ParseFrom(Lines(text), None)
  }

  /** The pending epoch in force at line `j`: set by the line before it, if any. */
  function PendingAt(lines: seq<string>, pending: Option<I64>, j: nat): Option<I64>
    requires j < |lines|
  {
    if j == 0 then pending
    else if IsAnnotation(lines[j - 1]) then AnnotatedEpoch(lines[j - 1])
    else None
  }

  /** Parsing the two halves of the lines separately, threading the pending epoch. */
  lemma {:induction false} ParseSplit(a: seq<string>, b: seq<string>, pending: Option<I64>)
    ensures ParseFrom(a + b, pending) == ParseFrom(a, pending) + ParseFrom(b, PendingAfter(a, pending))
  {
    if a != [] {
      assert (a + b)[0] == a[0];
      assert (a + b)[1..] == a[1..] + b;
      if IsAnnotation(a[0]) {
        ParseSplit(a[1..], b, AnnotatedEpoch(a[0]));
      } else {
        ParseSplit(a[1..], b, None);
      }
    } else {
      assert a + b == b;
    }
  }

  /** An annotation with no command after it produces no entry. */
  lemma TrailingAnnotationDropped(lines: seq<string>, last: string, pending: Option<I64>)
    requires IsAnnotation(last)
    ensures ParseFrom(lines + [last], pending) == ParseFrom(lines, pending)
  {
    ParseSplit(lines, [last], pending);
  }

  /**
   * The command line at index `j` becomes entry number `CommandCount(lines[..j])`,
   * with the epoch of the annotation right before it (or the initial pending
   * epoch when it is the first line, or none at all).
   */
  lemma {:induction false} EntryOfLine(lines: seq<string>, pending: Option<I64>, j: nat)
    requires j < |lines| && !IsAnnotation(lines[j])
    ensures CommandCount(lines[..j]) < |ParseFrom(lines, pending)|
    ensures ParseFrom(lines, pending)[CommandCount(lines[..j])]
         == HistoryEntry(PendingAt(lines, pending, j), lines[j])
  {
    assert lines[..0] == [];
    if j > 0 {
      var next := if IsAnnotation(lines[0]) then AnnotatedEpoch(lines[0]) else None;
      EntryOfLine(lines[1..], next, j - 1);
      assert lines[..j][1..] == lines[1..][..j - 1];
      assert j - 1 > 0 ==> lines[1..][j - 2] == lines[j - 1];
    }
  }

  /** One entry as the write loops emit it. */
  function EntryText(e: HistoryEntry): string
  {
    if e.epoch.Some? then ("#" + ShowI64(e.epoch.value) + "\n") + (e.cmd + "\n")
    else e.cmd + "\n"
  }

  lemma ConcatAssoc(a: string, b: string, c: string)
    ensures (a + b) + c == a + (b + c)
  {
  }

  /** The text `write_history` and `append_history` emit for `es`. */
  function Serialize(es: seq<HistoryEntry>): string
  {
    if es == [] then "" else EntryText(es[0]) + Serialize(es[1..])
  }

  lemma {:induction false} SerializeSplit(a: seq<HistoryEntry>, b: seq<HistoryEntry>)
    ensures Serialize(a + b) == Serialize(a) + Serialize(b)
  {
    if a != [] {
      assert (a + b)[0] == a[0];
      assert (a + b)[1..] == a[1..] + b;
      SerializeSplit(a[1..], b);
    } else {
      assert a + b == b;
    }
  }

  /** A command that survives a write and a reload. */
  predicate Storable(cmd: string)
  {
    IsLine(cmd) && !IsAnnotation(cmd)
  }

  lemma EpochLineIsLine(n: I64)
    ensures IsLine("#" + ShowI64(n)) && IsAnnotation("#" + ShowI64(n))
    ensures AnnotatedEpoch("#" + ShowI64(n)) == Some(n)
  {
    var l := "#" + ShowI64(n);
    ShowI64Chars(n);
    assert l[1..] == ShowI64(n);
    assert l[|l| - 1] == ShowI64(n)[|ShowI64(n)| - 1];
    ParseShowI64(n);
  }

  lemma ParseCommandCons(line: string, rest: seq<string>, pending: Option<I64>)
    requires !IsAnnotation(line)
    ensures ParseFrom([line] + rest, pending) == [HistoryEntry(pending, line)] + ParseFrom(rest, None)
  {
    assert ([line] + rest)[0] == line && ([line] + rest)[1..] == rest;
  }

  lemma ParseAnnotationCons(line: string, rest: seq<string>, pending: Option<I64>)
    requires IsAnnotation(line)
    ensures ParseFrom([line] + rest, pending) == ParseFrom(rest, AnnotatedEpoch(line))
  {
    assert ([line] + rest)[0] == line && ([line] + rest)[1..] == rest;
  }

  /** The lines of one written entry, followed by those of whatever text comes after it. */
  lemma LinesOfEntryText(e: HistoryEntry, rest: string)
    requires Storable(e.cmd)
    ensures e.epoch.Some? ==>
      Lines(EntryText(e) + rest) == ["#" + ShowI64(e.epoch.value)] + ([e.cmd] + Lines(rest))
    ensures e.epoch.None? ==> Lines(EntryText(e) + rest) == [e.cmd] + Lines(rest)
  {
    var body := e.cmd + "\n" + rest;
    LinesCons(e.cmd, rest);
    if e.epoch.Some? {
      var ann := "#" + ShowI64(e.epoch.value);
      ConcatAssoc(ann + "\n", e.cmd + "\n", rest);
      EpochLineIsLine(e.epoch.value);
      LinesCons(ann, body);
    } else {
      assert EntryText(e) + rest == body;
    }
  }

  /** Reading one written entry back, whatever text follows it. */
  lemma ParseEntryText(e: HistoryEntry, rest: string)
    requires Storable(e.cmd)
    ensures Parse(EntryText(e) + rest) == [e] + Parse(rest)
  {
    LinesOfEntryText(e, rest);
    ParseCommandCons(e.cmd, Lines(rest), e.epoch);
    if e.epoch.Some? {
      var ann := "#" + ShowI64(e.epoch.value);
      EpochLineIsLine(e.epoch.value);
      ParseAnnotationCons(ann, [e.cmd] + Lines(rest), None);
    }
  }

  /** Reading back what was written gives the same entries. */
  lemma {:induction false} RoundTrip(es: seq<HistoryEntry>)
    requires forall i :: 0 <= i < |es| ==> Storable(es[i].cmd)
    ensures Parse(Serialize(es)) == es
  {
    if es != [] {
      RoundTrip(es[1..]);
      ParseEntryText(es[0], Serialize(es[1..]));
    }
  }

  /** A file holding `prior` that gets `es` appended reads back as both, in order. */
  lemma ReloadAfterAppend(prior: seq<HistoryEntry>, es: seq<HistoryEntry>)
    requires forall i :: 0 <= i < |prior| ==> Storable(prior[i].cmd)
    requires forall i :: 0 <= i < |es| ==> Storable(es[i].cmd)
    ensures Parse(Serialize(prior) + Serialize(es)) == prior + es
  {
    SerializeSplit(prior, es);
    RoundTrip(prior + es);
  }

  /** An annotation applies to exactly one following command line. */
  lemma AnnotationAppliesOnce()
    ensures Parse("#100\ncmd1\ncmd2\n")
         == [HistoryEntry(Some(100), "cmd1"), HistoryEntry(None, "cmd2")]
  {
    var es := [HistoryEntry(Some(100), "cmd1"), HistoryEntry(None, "cmd2")];
    assert ShowI64(100) == "100";
    assert Serialize(es[1..]) == "cmd2\n" + Serialize([]);
    assert Serialize(es) == "#100\ncmd1\ncmd2\n";
    assert Storable("cmd1") && Storable("cmd2");
    RoundTrip(es);
  }

  /**
   * An annotation that does not parse (`#x`, `#`, `#+`, `# 1`, an overflow)
   * replaces whatever epoch was pending with none rather than keeping it.
   */
  lemma FailedAnnotationErases(prev: Option<I64>, bad: string, cmd: string)
    requires IsAnnotation(bad) && AnnotatedEpoch(bad) == None
    requires !IsAnnotation(cmd)
    ensures ParseFrom([bad, cmd], prev) == [HistoryEntry(None, cmd)]
  {
    assert [bad, cmd] == [bad] + ([cmd] + []);
    ParseAnnotationCons(bad, [cmd] + [], prev);
    ParseCommandCons(cmd, [], None);
  }

  /**
   * The format has no escaping: a command that starts with `#` is written as
   * it stands and read back as an annotation of the next command.
   */
  lemma AnnotationLikeCommandMisread()
    ensures Parse(Serialize([HistoryEntry(None, "#5"), HistoryEntry(None, "ls")]))
         == [HistoryEntry(Some(5), "ls")]
  {
    var es := [HistoryEntry(None, "#5"), HistoryEntry(None, "ls")];
    assert Serialize(es[1..]) == "ls\n" + Serialize([]);
    assert Serialize(es) == "#5" + "\n" + ("ls" + "\n" + "");
    LinesCons("ls", "");
    LinesCons("#5", "ls" + "\n" + "");
    assert "#5"[1..] == "5";
    ParseAnnotationCons("#5", ["ls"] + [], None);
    ParseCommandCons("ls", [], Some(5));
  }
}

# history store — a Dafny model

A model of the core of a Rust stand-in for the shell `history` builtin
(`scripts/.src/history/main.rs`). The program keeps the commands of a history
file in memory as a vector of entries, each an optional epoch timestamp and a
command line. It reads the file with a parser that carries a *pending epoch*
from a `#<epoch>` annotation line to the next command line. It writes the
store back (overwriting or appending) as `#<epoch>` / command lines. Between
load and persist, the options `-c`, `-d OFFSET`, `-s CMD`, `-r FILE` and
`-n FILE` change the store in place, and `history N` shows the last `N`
entries with 1-based numbers.

Modules, one file each:

- `Entry` (`entry.dfy`): `HistoryEntry`, the `i64` epoch type, and the `(epoch, cmd)` key used by merge-dedup.
- `Integers` (`integers.dfy`): Rust's `i64::from_str` (`ParseI64`) and `i64` display (`ShowI64`).
- `TextLines` (`lines.dfy`): what `BufRead::lines` yields from a file's text.
- `Codec` (`codec.dfy`): the parse and serialise functions of the file format, and the round trip.
- `Persistence` (`persistence.dfy`): files as objects (`HistFile`), plus the loops of `load_history`, `write_history` and `append_history`, proved to compute `Parse` and `Serialize`.
- `Store` (`store.dfy`): the class `History` over `seq<HistoryEntry>`, with the in-place operations and the display window, plus the specification functions `DeleteAt`, `Unseen` and `DisplayStart` and the lemmas about them.
- `Options` (`options.dfy`): the `-r` and `-n` arms of `main`, that is, load another file, then extend or merge, propagating a failed open.

Behaviour captured exactly as the code has it:

- A failed annotation such as `#x` clears the pending epoch. It does not keep an earlier epoch.
- A trailing annotation is dropped.
- A command starting with `#` is read back as an annotation. The format has no escaping.
- `-d` offsets are 0-based from the start, or count from the end when negative. They are not display numbers.
- An out-of-range offset is a silent no-op.
- `append_history` writes the whole store, not a delta.
- The `-n` seen-set is built once, before the merge. Duplicates among the candidates are all kept.

The round trip needs more than "no newline and no leading `#`". A command
must also not end in `\r`, because `lines()` strips one `\r` before each `\n`.

## Model

| member | source | states |
|---|---|---|
| Entry.Keys | scripts/.src/history/main.rs:73-74 | the seen-set holds the `(epoch, cmd)` key of an entry exactly when that entry is in the store |
| Integers.ParseShowI64 | scripts/.src/history/main.rs:136 | parsing the text written for an `i64` epoch (`#{}` at line 152) gives back the same epoch, for every `i64` including the minimum |
| TextLines.Lines | scripts/.src/history/main.rs:133 | the lines read from a file hold no `\n` and are never more than its characters |
| TextLines.LinesCons | scripts/.src/history/main.rs:133 | a line with no `\n` and no final `\r`, followed by `\n`, is read back as it stands, and reading continues after it |
| TextLines.LinesCrlfCons | scripts/.src/history/main.rs:133 | a line with no `\n`, followed by `\r\n`, is read back without the `\r\n`, and reading continues after it |
| TextLines.LinesUnterminated | scripts/.src/history/main.rs:133 | a non-empty last line with no `\n` after it is read as it stands, a final `\r` included |
| Codec.ParseFrom | scripts/.src/history/main.rs:131-145 | the parse yields exactly one entry per non-`#` line |
| Codec.ParseSplit | scripts/.src/history/main.rs:131-145 | parsing a concatenation of lines is parsing the first part, then the second part with the pending epoch the first part left |
| Codec.TrailingAnnotationDropped | scripts/.src/history/main.rs:135-136 | a `#` line at the end, with no command after it, adds no entry |
| Codec.EntryOfLine | scripts/.src/history/main.rs:133-143 | the command line at index `j` becomes entry number (commands before `j`) with its own text as `cmd` and, as epoch, the parse of the annotation right before it, else none (or the initial pending epoch on the first line) |
| Codec.FailedAnnotationErases | scripts/.src/history/main.rs:136 | any annotation that does not parse as an `i64` replaces whatever epoch was pending with none rather than keeping it, so the next command gets no epoch |
| Codec.AnnotationAppliesOnce | scripts/.src/history/main.rs:138-142 | `#100`, `cmd1`, `cmd2` parses to `(100, cmd1)`, `(none, cmd2)`: the pending epoch is reset after one command |
| Codec.SerializeSplit | scripts/.src/history/main.rs:150-155 | the written text of a concatenation is the concatenation of the written texts, entry by entry in order |
| Codec.EpochLineIsLine | scripts/.src/history/main.rs:152 | a `#<epoch>` line is a single line that the parser reads as an annotation carrying that epoch |
| Codec.LinesOfEntryText | scripts/.src/history/main.rs:150-155 | when the command is storable (no `\n`, no leading `#`, no final `\r`), one written entry reads back as the lines `#<epoch>` then `cmd` when it has an epoch, and as the line `cmd` alone when it has none |
| Codec.ParseEntryText | scripts/.src/history/main.rs:133-143 | when the command is storable (no `\n`, no leading `#`, no final `\r`), reading back one written entry followed by any text yields that entry followed by the entries of the text |
| Codec.RoundTrip | scripts/.src/history/main.rs:131-155 | parsing the written text of entries gives the same entries, when no command contains `\n`, starts with `#` or ends with `\r` |
| Codec.ReloadAfterAppend | scripts/.src/history/main.rs:159-167 | when every command is storable (no `\n`, no leading `#`, no final `\r`), a file holding the text of `prior` that gets `es` appended reads back as `prior + es` |
| Codec.AnnotationLikeCommandMisread | scripts/.src/history/main.rs:135-136 | a command `#5` written before `ls` reads back as the single entry `(5, ls)` |
| Persistence.HistFile.Create | scripts/.src/history/main.rs:149 | the file exists afterwards and is empty |
| Persistence.HistFile.OpenAppend | scripts/.src/history/main.rs:160 | the file exists afterwards and keeps its previous content, or is empty if it was absent |
| Persistence.HistFile.WriteLine | scripts/.src/history/main.rs:152 | the line and a `\n` are added at the end of the content |
| Persistence.LoadHistory | scripts/.src/history/main.rs:127-146 | a missing file gives `NotFound`; otherwise the loop with its pending epoch returns exactly `Parse` of the file's text |
| Persistence.WriteEntries | scripts/.src/history/main.rs:150-155 | the loop adds exactly `Serialize(entries)` after the existing content |
| Persistence.WriteHistory | scripts/.src/history/main.rs:148-157 | the file afterwards holds exactly `Serialize(entries)` |
| Persistence.AppendHistory | scripts/.src/history/main.rs:159-168 | the file afterwards holds its old content followed by `Serialize` of the whole store |
| Store.RemovalIndex | scripts/.src/history/main.rs:171-176 | a non-negative offset is the index itself; a negative offset counts from the end, and one reaching before the start wraps to an index past the end |
| Store.DeleteFromStart | scripts/.src/history/main.rs:170-180 | offset `k` in `[0, len)` removes exactly entry `k` and the length drops by one |
| Store.DeleteFromEnd | scripts/.src/history/main.rs:170-180 | a negative offset with `len + offset >= 0` removes exactly entry `len + offset` |
| Store.DeleteLast | scripts/.src/history/main.rs:174-178 | offset `-1` removes the last entry |
| Store.DeleteRemovesIff | scripts/.src/history/main.rs:170-180 | an entry is removed if and only if `-len <= offset < len`; otherwise the store is unchanged |
| Store.DeleteJustOutOfRange | scripts/.src/history/main.rs:177 | offsets `len` and `-(len+1)` leave the store unchanged |
| Store.Unseen | scripts/.src/history/main.rs:75-79 | a candidate is kept exactly when its key is not in the seen-set, and at most all candidates are kept |
| Store.UnseenSplit | scripts/.src/history/main.rs:75-79 | filtering a concatenation of candidates filters each part, in order |
| Store.UnseenSnoc | scripts/.src/history/main.rs:75-78 | one more candidate is pushed at the end exactly when its key is not in the seen-set, and everything kept before it stays |
| Store.UnseenMultiplicity | scripts/.src/history/main.rs:73-79 | a candidate whose key was seen is dropped every time; any other candidate is kept as many times as it occurs |
| Store.UnseenAllNew | scripts/.src/history/main.rs:67-79 | when no candidate is already in the store, the merge is the same as extending |
| Store.MergeKeepsDuplicateCandidates | scripts/.src/history/main.rs:73-79 | `[(1,a)]` merged with `[(1,a),(2,b),(2,b)]` is `[(1,a),(2,b),(2,b)]` |
| Store.DisplayStart | scripts/.src/history/main.rs:191 | the display begins at a valid index, leaving exactly `min(n, len)` entries to show |
| Store.History.constructor | scripts/.src/history/main.rs:29 | the store starts as the loaded entries |
| Store.History.Clear | scripts/.src/history/main.rs:36 | the store is empty afterwards |
| Store.History.DeleteEntry | scripts/.src/history/main.rs:170-180 | the store afterwards is `DeleteAt` of the old store |
| Store.History.AppendEntry | scripts/.src/history/main.rs:182-187 | the length grows by one, earlier entries are unchanged, and the new last entry is `(now, cmd)` with `cmd` verbatim |
| Store.History.Extend | scripts/.src/history/main.rs:68 | the store afterwards is the old store followed by all loaded entries |
| Store.History.MergeNew | scripts/.src/history/main.rs:73-79 | the store afterwards is the old store followed by the candidates whose key was not in the store before the merge, in candidate order |
| Store.History.Window | scripts/.src/history/main.rs:191-213 | exactly the last `min(n, len)` entries are shown, in order, numbered by index plus one, so the numbers run from `len - min(n, len) + 1` to `len` |
| Options.ReadExtend | scripts/.src/history/main.rs:65-69 | a missing file aborts with `NotFound` and the store unchanged; otherwise the file's entries are added unconditionally |
| Options.ReadMerge | scripts/.src/history/main.rs:70-80 | a missing file aborts with `NotFound` and the store unchanged; otherwise the store is merged with the file's entries against the pre-merge store |

## Left out

- Argument dispatch in `main` is not modelled. This covers the `-d` offset parse, missing-argument errors, `process::exit`, `--help` text, the bare `N` option, and the driver's peeking at `args[i+1]` without advancing. It is glue around the store.
- `HISTFILE`/`HOME` resolution, and `-w` always writing the default file, are not modelled. Files are objects passed in.
- Timestamp rendering (`chrono`, `HISTTIMEFORMAT`, ANSI colours) and the `{:>5}` line layout are left out. `Window` returns the numbered rows, not the text.
- The wall-clock reading `Local::now().timestamp()` is a foreign call, so `AppendEntry` takes it as the parameter `now`.
- Of the I/O failures, only opening a missing file for reading (`NotFound`) is modelled. Permission errors, write errors and invalid UTF-8 in a line are not.
- Concurrent writers to the history file are not modelled.
- A 64-bit target is assumed: `isize` has the range of `i64` (`Store.Isize` is `Entry.I64`), and an `as usize` cast is taken modulo 2^64.
- RemovalIndex: says nothing for stores longer than `isize::MAX` entries, which a Rust `Vec` cannot reach. For such lengths the `len as isize` cast would itself wrap.
- DeleteFromEnd: requires the store to have at most `isize::MAX` entries, as every Rust `Vec` does.
- DeleteLast: requires the store to have at most `isize::MAX` entries, as every Rust `Vec` does.
- DeleteRemovesIff: requires the store to have at most `isize::MAX` entries, as every Rust `Vec` does.
- DeleteJustOutOfRange: requires the store to have at most `isize::MAX` entries, as every Rust `Vec` does.

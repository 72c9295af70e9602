/**
 * The `-r` and `-n` options: read another history file and add its entries
 * to the store, unconditionally or with merge-dedup. A file that cannot be
 * opened aborts the option with the error and leaves the store as it was.
 */
module Options {
  import opened Entry
  import opened Codec
  import opened Persistence
  import opened Store

  /** `-r [FILE]`: `load_history(file)?` followed by `history.extend(loaded)`. */
  method ReadExtend(h: History, f: HistFile) returns (r: Result<()>)
    modifies h
    ensures r.Err? <==> !f.present
    ensures h.entries == if f.present then old(h.entries) + Parse(f.content) else old(h.entries)
  {
    var loaded := LoadHistory(f);
    if loaded.Err? {
      return Err(loaded.error);
    }
    h.Extend(loaded.value);
    return Ok(());
  }

  /** `-n [FILE]`: `load_history(file)?` followed by the merge against the current store. */
  method ReadMerge(h: History, f: HistFile) returns (r: Result<()>)
    modifies h
    ensures r.Err? <==> !f.present
    ensures h.entries == if f.present
                         then old(h.entries) + Unseen(Parse(f.content), Keys(old(h.entries)))
                         else old(h.entries)
  {
    var loaded := LoadHistory(f);
    if loaded.Err? {
      return Err(loaded.error);
    }
    h.MergeNew(loaded.value);
    return Ok(());
  }
}

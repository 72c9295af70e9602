/** The history entry: one recorded command plus an optional timestamp. */
module Entry {

  datatype Option<+T> = None | Some(value: T)

  const I64_MIN: int := -0x8000_0000_0000_0000
  const I64_MAX: int := 0x7FFF_FFFF_FFFF_FFFF

  /** Rust's `i64`. */
  type I64 = x: int | I64_MIN <= x <= I64_MAX

  /** `HistoryEntry { epoch: Option<i64>, cmd: String }`. */
  datatype HistoryEntry = HistoryEntry(epoch: Option<I64>, cmd: string)

  /** The `(epoch, cmd)` pair under which merge-dedup remembers an entry. */
  function Key(e: HistoryEntry): (Option<I64>, string)
  {
    (e.epoch, e.cmd)
  }

  /** The set of keys of a store, as the `-n` merge collects it. */
  function Keys(h: seq<HistoryEntry>): (s: set<(Option<I64>, string)>)
    ensures forall e :: Key(e) in s <==> e in h
  {
    set e | e in h :: Key(e)
  }
}

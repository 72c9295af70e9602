/**
 * The in-memory history: a vector of entries in insertion order, changed in
 * place by the `-c`, `-d`, `-s`, `-r` and `-n` options, and the window of it
 * that a `history N` display shows.
 */
module Store {
  import opened Entry

  /** Rust's `isize`; on the 64-bit target modelled here it has the range of `i64`. */
  type Isize = I64

  /** `usize::MAX + 1`: an `as usize` cast keeps its operand modulo this. */
  const USIZE_MODULUS: int := 0x1_0000_0000_0000_0000

  /**
   * The index `delete_entry` removes at: `offset as usize` for a non-negative
   * offset, otherwise `(len as isize + offset) as usize`, which counts from
   * the end and wraps a position before the start to a huge index.
   */
  function RemovalIndex(len: nat, offset: Isize): (idx: nat)
    ensures offset >= 0 ==> idx == offset
    ensures offset < 0 && len <= I64_MAX && len + offset >= 0 ==> idx == len + offset
    ensures offset < 0 && len <= I64_MAX && len + offset < 0 ==> idx >= len
  {
    if offset >= 0 then offset else (len + offset) % USIZE_MODULUS
  }

  /** The store after `delete_entry(offset)`. */
  function DeleteAt(h: seq<HistoryEntry>, offset: Isize): seq<HistoryEntry>
  {
    var idx := RemovalIndex(|h|, offset);
    if idx < |h| then h[..idx] + h[idx + 1..] else h
  }

  /** A non-negative offset is a 0-based index, not a display number. */
  lemma DeleteFromStart(h: seq<HistoryEntry>, offset: Isize)
    requires 0 <= offset < |h|
    ensures DeleteAt(h, offset) == h[..offset] + h[offset + 1..]
    ensures |DeleteAt(h, offset)| == |h| - 1
  {
  }

  /** A negative offset counts from the end: `-1` is the last entry. */
  lemma DeleteFromEnd(h: seq<HistoryEntry>, offset: Isize)
    requires |h| <= I64_MAX
    requires offset < 0 && 0 <= |h| + offset
    ensures DeleteAt(h, offset) == h[..|h| + offset] + h[|h| + offset + 1..]
    ensures |DeleteAt(h, offset)| == |h| - 1
  {
  }

  lemma DeleteLast(h: seq<HistoryEntry>)
    requires 1 <= |h| <= I64_MAX
    ensures DeleteAt(h, -1) == h[..|h| - 1]
  {
    DeleteFromEnd(h, -1);
    assert h[|h|..] == [];
  }

  /**
   * Exactly the offsets in `[-len, len)` remove an entry; every other offset,
   * and every offset on an empty store, leaves the store as it was.
   */
  lemma DeleteRemovesIff(h: seq<HistoryEntry>, offset: Isize)
    requires |h| <= I64_MAX
    ensures -|h| <= offset < |h| <==> |DeleteAt(h, offset)| == |h| - 1
    ensures !(-|h| <= offset < |h|) <==> DeleteAt(h, offset) == h
  {
    if offset >= 0 && offset < |h| {
      DeleteFromStart(h, offset);
    } else if offset < 0 && 0 <= |h| + offset {
      DeleteFromEnd(h, offset);
    }
  }

  /** `history -d LEN` and `history -d -(LEN+1)` change nothing. */
  lemma DeleteJustOutOfRange(h: seq<HistoryEntry>)
    requires |h| <= I64_MAX
    ensures DeleteAt(h, |h|) == h
    ensures DeleteAt(h, -(|h| + 1)) == h
  {
    DeleteRemovesIff(h, |h|);
    DeleteRemovesIff(h, -(|h| + 1));
  }

  /** The candidates the `-n` merge keeps: those whose key is not in `seen`, in order. */
  function Unseen(candidates: seq<HistoryEntry>, seen: set<(Option<I64>, string)>): (r: seq<HistoryEntry>)
    ensures |r| <= |candidates|
    ensures forall e :: e in r <==> e in candidates && Key(e) !in seen
  {
    if candidates == [] then []
    else (if Key(candidates[0]) in seen then [] else [candidates[0]]) + Unseen(candidates[1..], seen)
  }

  lemma {:induction false} UnseenSplit(a: seq<HistoryEntry>, b: seq<HistoryEntry>, seen: set<(Option<I64>, string)>)
    ensures Unseen(a + b, seen) == Unseen(a, seen) + Unseen(b, seen)
  {
    if a == [] {
      assert a + b == b;
    } else {
      assert (a + b)[0] == a[0];
      assert (a + b)[1..] == a[1..] + b;
      UnseenSplit(a[1..], b, seen);
    }
  }

  /** One more candidate: kept at the end exactly when its key was not seen. */
  lemma UnseenSnoc(a: seq<HistoryEntry>, c: HistoryEntry, seen: set<(Option<I64>, string)>)
    ensures Unseen(a + [c], seen) == Unseen(a, seen) + (if Key(c) in seen then [] else [c])
  {
    UnseenSplit(a, [c], seen);
    assert Unseen([c], seen) == (if Key(c) in seen then [] else [c]) + Unseen([], seen);
  }

  /**
   * The merge drops a candidate only for a key already seen; a candidate that
   * is new is kept as often as it occurs among the candidates.
   */
  lemma {:induction false} UnseenMultiplicity(candidates: seq<HistoryEntry>, seen: set<(Option<I64>, string)>, e: HistoryEntry)
    ensures multiset(Unseen(candidates, seen))[e]
         == if Key(e) in seen then 0 else multiset(candidates)[e]
  {
    if candidates != [] {
      UnseenMultiplicity(candidates[1..], seen, e);
      assert candidates == [candidates[0]] + candidates[1..];
    }
  }

  /** With no candidate already present, merging is extending. */
  lemma {:induction false} UnseenAllNew(candidates: seq<HistoryEntry>, h: seq<HistoryEntry>)
    requires forall i :: 0 <= i < |candidates| ==> candidates[i] !in h
    ensures Unseen(candidates, Keys(h)) == candidates
  {
    if candidates != [] {
      UnseenAllNew(candidates[1..], h);
    }
  }

  /** The merge's seen-set is the store before the merge, so duplicate new candidates all stay. */
  lemma MergeKeepsDuplicateCandidates()
    ensures [HistoryEntry(Some(1), "a")]
            + Unseen([HistoryEntry(Some(1), "a"), HistoryEntry(Some(2), "b"), HistoryEntry(Some(2), "b")],
                     Keys([HistoryEntry(Some(1), "a")]))
         == [HistoryEntry(Some(1), "a"), HistoryEntry(Some(2), "b"), HistoryEntry(Some(2), "b")]
  {
    var h := [HistoryEntry(Some(1), "a")];
    var b := HistoryEntry(Some(2), "b");
    var c := [HistoryEntry(Some(1), "a"), b, b];
    assert Key(b) !in Keys(h);
    assert c[1..] == [b, b] && c[1..][1..] == [b];
  }

  /** `display_history_n`'s first shown index: `0` if `n >= len`, else `len - n`. */
  function DisplayStart(len: nat, n: nat): (start: nat)
    ensures start <= len
    ensures len - start == if n < len then n else len
  {
    if n >= len then 0 else len - n
  }

  /** One displayed line: its 1-based number and the entry. */
  datatype Row = Row(number: nat, entry: HistoryEntry)

  class History {
    var entries: seq<HistoryEntry>

    /** The store as `load_history` produced it. */
    constructor (loaded: seq<HistoryEntry>)
      ensures entries == loaded
    {
      entries := loaded;
    }

    /** `-c`: `history.clear()`. */
    method Clear()
      modifies this
      ensures entries == []
    {
      entries := [];
    }

    /** `-d OFFSET`: `delete_entry`, a silent no-op when the index is out of range. */
    method DeleteEntry(offset: Isize)
      modifies this
      ensures entries == DeleteAt(old(entries), offset)
    {
      var idx := RemovalIndex(|entries|, offset);
      if idx < |entries| {
        entries := entries[..idx] + entries[idx + 1..];
      }
    }

    /** `-s CMD`: `append_entry`, stamped with the clock reading `now`. */
    method AppendEntry(cmd: string, now: I64)
      modifies this
      ensures |entries| == |old(entries)| + 1
      ensures entries[..|old(entries)|] == old(entries)
      ensures entries[|old(entries)|] == HistoryEntry(Some(now), cmd)
    {
      entries := entries + [HistoryEntry(Some(now), cmd)];
    }

    /** `-r`: `history.extend(loaded)`, without any deduplication. */
    method Extend(loaded: seq<HistoryEntry>)
      modifies this
      ensures entries == old(entries) + loaded
    {
      entries := entries + loaded;
    }

    /**
     * `-n`: pushes each candidate whose `(epoch, cmd)` pair is not in the
     * seen-set, which is collected once from the store before the merge.
     */
    method MergeNew(candidates: seq<HistoryEntry>)
      modifies this
      ensures entries == old(entries) + Unseen(candidates, Keys(old(entries)))
    {
      var seen := Keys(entries);
      ghost var before := entries;
      for i := 0 to |candidates|
        invariant entries == before + Unseen(candidates[..i], seen)
      {
        var c := candidates[i];
        assert candidates[..i + 1] == candidates[..i] + [c];
        UnseenSnoc(candidates[..i], c, seen);
        if Key(c) !in seen {
          entries := entries + [c];
        }
      }
      assert candidates[..|candidates|] == candidates;
    }

    /**
     * The rows `display_history_n(n)` prints: the last `min(n, len)` entries,
     * each numbered with its 0-based index plus one.
     */
    method Window(n: nat) returns (rows: seq<Row>)
      ensures |rows| == if n < |entries| then n else |entries|
      ensures forall k :: 0 <= k < |rows| ==>
                rows[k] == Row(|entries| - |rows| + k + 1, entries[|entries| - |rows| + k])
    {
      var start := DisplayStart(|entries|, n);
      rows := [];
      for i := start to |entries|
        invariant |rows| == i - start
        invariant forall k :: 0 <= k < |rows| ==> rows[k] == Row(start + k + 1, entries[start + k])
      {
        rows := rows + [Row(i + 1, entries[i])];
      }
    }
  }
}

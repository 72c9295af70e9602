/**
 * Splitting file text into lines as Rust's `BufRead::lines` does: a line ends
 * at `\n`, which is removed together with one `\r` right before it; a last
 * line without `\n` is yielded as it stands; an empty text has no lines.
 */
module TextLines {

  /** The index of the first `\n` in `s`, or `|s|` when there is none. */
  function NewlineIndex(s: string): (k: nat)
    ensures k <= |s|
    ensures k < |s| ==> s[k] == '\n'
    ensures forall i :: 0 <= i < k ==> s[i] != '\n'
  {
    if s == [] || s[0] == '\n' then 0 else 1 + NewlineIndex(s[1..])
  }

  /** Drops one trailing carriage return. */
  function StripCr(l: string): (r: string)
    ensures l == r || l == r + "\r"
  {
    if |l| > 0 && l[|l| - 1] == '\r' then l[..|l| - 1] else l
  }

  function Lines(s: string): (ls: seq<string>)
    ensures |ls| <= |s|
    ensures forall i :: 0 <= i < |ls| ==> '\n' !in ls[i]
    decreases |s|
  {
    if s == [] then []
    else
      var k := NewlineIndex(s);
      if k == |s| then [s]
      else [StripCr(s[..k])] + Lines(s[k + 1..])
  }

  /** A line that `Lines` gives back unchanged when it is followed by `\n`. */
  predicate IsLine(l: string)
  {
    '\n' !in l && (|l| == 0 || l[|l| - 1] != '\r')
  }

  lemma LinesCons(l: string, rest: string)
    requires IsLine(l)
    ensures Lines(l + "\n" + rest) == [l] + Lines(rest)
  {
    var s := l + "\n" + rest;
    assert s[|l|] == '\n';
    assert forall i :: 0 <= i < |l| ==> s[i] == l[i];
    assert NewlineIndex(s) == |l|;
    assert s[..|l|] == l;
    assert s[|l| + 1..] == rest;
  }

  /** A line ended by `\r\n` is read back without either character. */
  lemma LinesCrlfCons(l: string, rest: string)
    requires '\n' !in l
    ensures Lines(l + "\r\n" + rest) == [l] + Lines(rest)
  {
    var s := l + "\r\n" + rest;
    assert s[|l| + 1] == '\n' && s[|l|] == '\r';
    assert forall i :: 0 <= i < |l| ==> s[i] == l[i];
    assert NewlineIndex(s) == |l| + 1;
    assert s[..|l| + 1] == l + "\r";
    assert (l + "\r")[..|l|] == l;
    assert s[|l| + 2..] == rest;
  }

  /** A last line with no `\n` after it is read as it stands, even ending in `\r`. */
  lemma LinesUnterminated(l: string)
    requires l != [] && '\n' !in l
    ensures Lines(l) == [l]
  {
    assert forall i :: 0 <= i < |l| ==> l[i] != '\n';
  }
}

/** Pieces of text at positions of a format string. */
module Reading {
  import opened Wrappers
  import opened Numerals
  import opened ParseInt
  import opened FormatterSpec

  /** A meaning, with the cursor put at a position. */
  function Placed<V>(r: Result<(V, Indexing), string>, pos: nat): Result<(V, Cursor), string> {
    if r.Failure? then Failure(r.error) else Success((r.value.0, Cursor(pos, r.value.1)))
  }

  /** The text f reads `piece` at position s, and `tail` after it. */
  ghost predicate Reads(f: string, s: nat, piece: string, tail: string) {
    s <= |f| && f[s..] == piece + tail
  }

  lemma ReadOn(f: string, s: nat, piece: string, tail: string)
    requires Reads(f, s, piece, tail)
    ensures s + |piece| <= |f| && f[s + |piece|..] == tail
    ensures forall i :: 0 <= i < |piece| ==> CharAt(f, s + i) == piece[i]
    ensures CharAt(f, s + |piece|) == CharAt(tail, 0)
  {
    assert forall i :: 0 <= i < |piece| ==> f[s + i] == f[s..][i];
    assert tail != "" ==> f[s + |piece|] == f[s..][|piece|];
    assert f[s + |piece|..] == f[s..][|piece|..];
  }

  lemma Break(f: string, s: nat, a: string, b: string, tail: string)
    requires Reads(f, s, a + b, tail)
    ensures Reads(f, s, a, b + tail) && Reads(f, s + |a|, b, tail)
  {
    assert a + b + tail == a + (b + tail);
    ReadOn(f, s, a, b + tail);
  }

  lemma StillAt(f: string, c: Cursor, s: nat, piece: string, tail: string)
    requires At(f, c) && Reads(f, s, piece, tail)
    ensures At(f, Cursor(s, c.ix))
  {
  }

  lemma Whole(f: string, s: nat, piece: string, tail: string)
    requires Reads(f, s, piece, tail)
    ensures s <= |f| && f == f[..s] + piece + tail
  {
    assert f == f[..s] + f[s..] == f[..s] + (piece + tail) == f[..s] + piece + tail;
  }

  lemma NumberReads(f: string, s: nat, n: nat, tail: string)
    requires Reads(f, s, Decimal(n), tail) && n <= INT_MAX && !IsDigit(CharAt(tail, 0))
    ensures IsDigit(CharAt(f, s)) && ReadInt(f, s) == Success((n, s + |Decimal(n)|))
  {
    hide Decimal, Verdict, RunEnd, Reads;
    Whole(f, s, Decimal(n), tail);
    PrintedReadsBack(f[..s], n, tail);
  }

  /** A run of digits that denotes n, leading zeros included. */
  lemma DigitsRead(f: string, s: nat, ds: string, n: nat, tail: string)
    requires Reads(f, s, ds, tail) && ds != [] && AllDigits(ds) && Decode(ds, 10) == n <= INT_MAX && !IsDigit(CharAt(tail, 0))
    ensures IsDigit(CharAt(f, s)) && ReadInt(f, s) == Success((n, s + |ds|))
  {
    hide Decode, Verdict, RunEnd, AllDigits, Reads;
    Whole(f, s, ds, tail);
    DigitsReadBack(f[..s], ds, tail, n);
  }

  /** Bounds and indexing state at a cursor, and the cursor from them. */
  lemma AtKnows(f: string, c: Cursor)
    requires At(f, c)
    ensures c.pos <= |f| && Disciplined(c.ix)
  {
  }

  lemma AtOf(f: string, pos: nat, ix: Indexing)
    requires Disciplined(ix) && pos <= |f|
    ensures At(f, Cursor(pos, ix))
  {
  }

  lemma Within(f: string, s: nat, piece: string, tail: string)
    requires Reads(f, s, piece, tail)
    ensures s + |piece| <= |f|
  {
    ReadOn(f, s, piece, tail);
  }

  lemma StandsAt(before: string, piece: string, rest: string)
    ensures Reads(before + piece + rest, |before|, piece, rest)
  {
  }
}

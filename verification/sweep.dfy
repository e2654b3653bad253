/** Clearing completed rows after a lock, and the score/level/speed bookkeeping. */
module Sweep {
  import opened Grid
  import opened Shapes
  import Lock

  /** The rows that are not complete, in their original top-to-bottom order. */
  function Kept(b: Board): (kept: Board)
    ensures |kept| + CountFull(b) == |b|
  {
    if |b| == 0 then []
    else if IsFull(b[0]) then Kept(b[1..])
    else [b[0]] + Kept(b[1..])
  }

  /** The number of complete rows. */
  function CountFull(b: Board): nat
  {
    if |b| == 0 then 0
    else (if IsFull(b[0]) then 1 else 0) + CountFull(b[1..])
  }

  /** Every kept row is an incomplete row of the original board. */
  lemma {:induction false} KeptRows(b: Board)
    ensures forall k | 0 <= k < |Kept(b)| :: !IsFull(Kept(b)[k]) && Kept(b)[k] in b
  {
    if |b| > 0 {
      KeptRows(b[1..]);
    }
  }

  lemma {:induction false} SplitRows(a: Board, c: Board)
    ensures Kept(a + c) == Kept(a) + Kept(c)
    ensures CountFull(a + c) == CountFull(a) + CountFull(c)
  {
    if |a| > 0 {
      var ac := a + c;
      assert ac[0] == a[0];
      assert ac[1..] == a[1..] + c;
      SplitRows(a[1..], c);
      assert Kept(ac) == (if IsFull(a[0]) then [] else [a[0]]) + Kept(a[1..] + c);
      assert Kept(a) == (if IsFull(a[0]) then [] else [a[0]]) + Kept(a[1..]);
    } else {
      assert a + c == c;
    }
  }

  lemma {:induction false} KeptSettled(b: Board)
    requires Settled(b)
    ensures Kept(b) == b
    ensures CountFull(b) == 0
  {
    if |b| > 0 {
      KeptSettled(b[1..]);
    }
  }

  /** The board the sweep must produce: one empty row on top for every complete row,
      then the incomplete rows in their original order. */
  function Swept(b: Board): Board
  {
    Empties(CountFull(b)) + Kept(b)
  }

  /** The swept board has the same dimensions and no complete row. */
  lemma SweptShape(b: Board)
    requires WellFormed(b)
    ensures WellFormed(Swept(b))
    ensures Settled(Swept(b))
  {
    EmptyRowNotFull();
    var s := Swept(b);
    var n := CountFull(b);
    KeptRows(b);
    forall r | 0 <= r < |s|
      ensures |s[r]| == Width && !IsFull(s[r])
    {
      if r >= n {
        assert s[r] == Kept(b)[r - n];
      }
    }
  }

  /** The sweep of a single row; stated once so that the splice lemmas below need not
      unfold `Kept` and `CountFull` themselves, which keeps their proofs stable. */
  lemma OneRow(row: Row)
    ensures Kept([row]) == if IsFull(row) then [] else [row]
    ensures CountFull([row]) == if IsFull(row) then 1 else 0
  {
  }

  /** A complete row between `above` and `below` is not kept ... */
  lemma DropFullKept(above: Board, row: Row, below: Board)
    requires IsFull(row)
    ensures Kept(above + [row] + below) == Kept(above) + Kept(below)
  {
    OneRow(row);
    SplitRows(above + [row], below);
    SplitRows(above, [row]);
    assert Kept(above) + [] == Kept(above);
  }

  /** ... and counts once. */
  lemma DropFullCount(above: Board, row: Row, below: Board)
    requires IsFull(row)
    ensures CountFull(above + [row] + below) == CountFull(above) + 1 + CountFull(below)
    ensures CountFull(above + [row]) == CountFull(above) + 1
  {
    OneRow(row);
    SplitRows(above + [row], below);
    SplitRows(above, [row]);
  }

  /** Regrouping a concatenation, stated apart so that `PrependKept` does not leave it to
      the solver's sequence axioms. */
  lemma Associative<T>(a: seq<T>, b: seq<T>, c: seq<T>)
    ensures a + b + c == a + (b + c)
  {
  }

  /** Putting an incomplete row on top of the board adds it to the kept rows ... */
  lemma PrependKept(e: Row, above: Board, below: Board)
    requires !IsFull(e)
    ensures Kept([e] + above + below) == [e] + (Kept(above) + Kept(below))
  {
    OneRow(e);
    SplitRows([e] + above, below);
    SplitRows([e], above);
    Associative([e], Kept(above), Kept(below));
  }

  /** ... and not to the count. */
  lemma PrependCount(e: Row, above: Board, below: Board)
    requires !IsFull(e)
    ensures CountFull([e] + above + below) == CountFull(above) + CountFull(below)
    ensures CountFull([e] + above) == CountFull(above)
  {
    OneRow(e);
    SplitRows([e] + above, below);
    SplitRows([e], above);
  }

  /** Splicing out the complete row i and putting an empty row on top removes exactly
      that row from the count and adds one empty row in front of the kept rows. */
  lemma SpliceFull(above: Board, row: Row, below: Board, e: Row)
    requires IsFull(row)
    requires !IsFull(e)
    ensures Kept([e] + above + below) == [e] + Kept(above + [row] + below)
    ensures CountFull([e] + above + below) + 1 == CountFull(above + [row] + below)
    ensures CountFull([e] + above) + 1 == CountFull(above + [row])
  {
    DropFullKept(above, row, below);
    DropFullCount(above, row, below);
    PrependKept(e, above, below);
    PrependCount(e, above, below);
  }

  /** What the scan keeps true with `i` the next row index to test: the board keeps its
      size, the rows below `i` are incomplete, the complete rows are either cleared or
      still on the board, and the rows kept so far are the cleared empty rows followed
      by the original incomplete rows. */
  predicate ScanInv(b: Board, r: Board, i: int, cleared: nat)
  {
    && -1 <= i < Height
    && WellFormed(r)
    && (forall k | i < k < Height :: !IsFull(r[k]))
    && cleared + CountFull(r) == CountFull(b)
    && Kept(r) == Empties(cleared) + Kept(b)
  }

  /** The splice keeps the board's dimensions and leaves the rows below i in place. */
  lemma SpliceRows(r: Board, i: nat, e: Row)
    requires WellFormed(r)
    requires i < Height
    requires |e| == Width
    ensures WellFormed([e] + r[..i] + r[i + 1..])
    ensures forall k | i < k < Height :: ([e] + r[..i] + r[i + 1..])[k] == r[k]
  {
  }

  /** One more cleared row is one more empty row on top; stated apart so that `SpliceStep`
      does not unfold `Empties` itself. */
  lemma EmptiesCons(c: nat, tail: Board)
    ensures Empties(c + 1) + tail == [EmptyRow()] + (Empties(c) + tail)
  {
  }

  /** One splice of the scan keeps its invariant and removes a complete row from the
      part of the board still to be scanned. */
  lemma SpliceStep(b: Board, r: Board, i: int, cleared: nat)
    requires ScanInv(b, r, i, cleared)
    requires i >= 0 && IsFull(r[i])
    ensures ScanInv(b, [EmptyRow()] + r[..i] + r[i + 1..], i, cleared + 1)
    ensures CountFull(([EmptyRow()] + r[..i] + r[i + 1..])[..i + 1]) < CountFull(r[..i + 1])
  {
    var e := EmptyRow();
    EmptyRowNotFull();
    var above, row, below := r[..i], r[i], r[i + 1..];
    assert r == above + [row] + below;
    assert r[..i + 1] == above + [row];
    assert ([e] + above + below)[..i + 1] == [e] + above;
    SpliceFull(above, row, below, e);
    SpliceRows(r, i, e);
    EmptiesCons(cleared, Kept(b));
  }

  /** The bottom-up scan: a complete row at index i is spliced out, an empty row is put
      on top, and the same index is tested again (the source's `i++` undoing the loop's
      `i--`); an incomplete row moves the scan one row up. */
  method ClearLines(b: Board) returns (r: Board, cleared: nat)
    requires WellFormed(b)
    ensures WellFormed(r)
    ensures Settled(r)
    ensures cleared == CountFull(b)
    ensures r == Empties(cleared) + Kept(b)
  {
    r, cleared := b, 0;
    var i: int := Height - 1;
    while i >= 0
      invariant ScanInv(b, r, i, cleared)
      decreases i + 1, CountFull(r[..i + 1])
    {
      if IsFull(r[i]) {
        SpliceStep(b, r, i, cleared);
        r, cleared := [EmptyRow()] + r[..i] + r[i + 1..], cleared + 1;
      } else {
        i := i - 1;
      }
    }
    KeptSettled(r);
  }

  /** Score, level, cleared-line total and automatic drop interval (milliseconds). */
  datatype Stats = Stats(score: int, level: int, lines: int, dropInterval: int)

  const InitialStats: Stats := Stats(0, 1, 0, 1000)

  /** Drop interval for a level: 1000 ms at level 1, 100 ms faster per level, never below 100 ms. */
  function IntervalFor(level: int): (ms: int)
    ensures 100 <= ms
    ensures level >= 1 ==> ms <= 1000
    ensures level >= 10 ==> ms == 100
  {
    if 1000 - (level - 1) * 100 > 100 then 1000 - (level - 1) * 100 else 100
  }

  /** A higher level never has a longer drop interval. */
  lemma IntervalMonotone(l1: int, l2: int)
    requires l1 <= l2
    ensures IntervalFor(l2) <= IntervalFor(l1)
  {
  }

  /** What the counters always satisfy: the level is one plus the number of whole tens of
      lines cleared, and the interval is the one that level prescribes. */
  predicate StatsOk(st: Stats)
  {
    && st.score >= 0
    && st.lines >= 0
    && st.level == st.lines / 10 + 1
    && st.dropInterval == IntervalFor(st.level)
  }

  /** The counter update after `n` rows have been cleared by one lock. The score uses the
      level before any increment; the level rises by at most one per lock. */
  function Credit(st: Stats, n: nat): (r: Stats)
    ensures n == 0 ==> r == st
    ensures r.lines == st.lines + n
    ensures r.score == st.score + n * 100 * st.level
    ensures r.level == st.level || r.level == st.level + 1
    ensures r.level == st.level + 1 <==> n > 0 && st.lines + n >= st.level * 10
    ensures r.level != st.level ==> r.dropInterval == IntervalFor(r.level)
    ensures r.level == st.level ==> r.dropInterval == st.dropInterval
  {
    if n > 0 then
      var lines := st.lines + n;
      var score := st.score + n * 100 * st.level;
      if lines >= st.level * 10 then
        Stats(score, st.level + 1, lines, IntervalFor(st.level + 1))
      else
        Stats(score, st.level, lines, st.dropInterval)
    else st
  }

  lemma InitialStatsOk()
    ensures StatsOk(InitialStats)
  {
  }

  /** Clearing fewer than ten rows at once never lets the level fall behind the line total. */
  lemma CreditKeepsStats(st: Stats, n: nat)
    requires StatsOk(st)
    requires n < 10
    ensures StatsOk(Credit(st, n))
  {
  }

  /** If the complete rows of `m` all lie in [lo, hi), there are at most hi - max(lo, 0) of them. */
  lemma {:induction false} CountFullInBand(m: Board, lo: int, hi: int)
    requires forall k | 0 <= k < |m| && IsFull(m[k]) :: lo <= k < hi
    ensures CountFull(m) <= if hi - (if lo > 0 then lo else 0) > 0 then hi - (if lo > 0 then lo else 0) else 0
  {
    if |m| > 0 {
      forall k | 0 <= k < |m[1..]| && IsFull(m[1..][k])
        ensures lo - 1 <= k < hi - 1
      {
        assert m[1..][k] == m[k + 1];
      }
      CountFullInBand(m[1..], lo - 1, hi - 1);
    }
  }

  /** A lock onto a board without complete rows completes at most as many rows as the
      piece is tall, because only the rows under the piece change. */
  lemma ClearedAtMostPieceHeight(b: Board, s: Shape, x: int, y: int, id: Cell)
    requires WellFormed(b)
    requires Settled(b)
    ensures CountFull(Lock.Stamp(b, s, x, y, id)) <= |s|
  {
    var m := Lock.Stamp(b, s, x, y, id);
    forall k | 0 <= k < |m| && !(y <= k < y + |s|)
      ensures m[k] == b[k]
    {
      forall c | 0 <= c < Width
        ensures m[k][c] == b[k][c]
      {
        assert !Lock.Covers(s, x, y, k, c);
      }
    }
    CountFullInBand(m, y, y + |s|);
  }
}

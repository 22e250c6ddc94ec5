/** Majority-vote reconstruction of one frame from several readings
    (`statistic_processing_for_calibration` and `statistic_processing` in
    `certabo/codes.py`). For each cell the readings are counted against each other and the
    first reading with the highest count wins (`histograms.index(max(histograms))`). */
module Vote {
  import opened Wrappers
  import opened Signatures

  /** The histogram entry of the source: how many readings equal `x`. */
  function Count(cells: seq<Code>, x: Code): (c: nat)
    ensures c == multiset(cells)[x]
  {
    if |cells| == 0 then 0
    else
      assert cells == [cells[0]] + cells[1..];
      (if CompareCells(x, cells[0]) then 1 else 0) + Count(cells[1..], x)
  }

  /** Two different codes cannot together occur more often than there are readings. */
  lemma {:induction false} CountPair(cells: seq<Code>, x: Code, y: Code)
    requires x != y
    ensures Count(cells, x) + Count(cells, y) <= |cells|
  {
    if |cells| > 0 {
      CountPair(cells[1..], x, y);
    }
  }

  /** `histograms.index(max(histograms))`: the first index holding the maximum. */
  function ArgMaxFirst(h: seq<int>): (i: nat)
    requires |h| > 0
    ensures i < |h|
    ensures forall j | 0 <= j < |h| :: h[j] <= h[i]
    ensures forall j | 0 <= j < i :: h[j] < h[i]
  {
    if |h| == 1 then 0
    else
      var i := ArgMaxFirst(h[..|h| - 1]);
      assert forall j | 0 <= j < |h| - 1 :: h[..|h| - 1][j] == h[j];
      if h[|h| - 1] > h[i] then |h| - 1 else i
  }

  /** One histogram entry per key, each counted against all readings. */
  function Histogram(keys: seq<Code>, cells: seq<Code>): (h: seq<int>)
    ensures |h| == |keys|
    ensures forall i | 0 <= i < |keys| :: h[i] == Count(cells, keys[i])
  {
    seq(|keys|, i requires 0 <= i < |keys| => Count(cells, keys[i]))
  }

  /** The readings of one cell, one per frame, in frame order. */
  function CellSamples(samples: seq<Frame>, cell: nat): (cells: seq<Code>)
    requires cell < 64
    ensures |cells| == |samples|
    ensures forall i | 0 <= i < |samples| :: cells[i] == CellCodes(cell, samples[i])
  {
    seq(|samples|, i requires 0 <= i < |samples| => CellCodes(cell, samples[i]))
  }

  /** `x` is `keys[i]` for the first index `i` whose count among `cells` is maximal. */
  ghost predicate IsFirstMode(keys: seq<Code>, cells: seq<Code>, x: Code)
  {
    exists i | 0 <= i < |keys| ::
      && keys[i] == x
      && (forall j | 0 <= j < |keys| :: Count(cells, keys[j]) <= Count(cells, x))
      && (forall j | 0 <= j < i :: Count(cells, keys[j]) < Count(cells, x))
  }

  /** The winning key of one cell's vote. */
  function Winner(keys: seq<Code>, cells: seq<Code>): (x: Code)
    requires |keys| > 0
    ensures x in keys
    ensures IsFirstMode(keys, cells, x)
  {
    var i := ArgMaxFirst(Histogram(keys, cells));
    keys[i]
  }

  /** Reassembles a frame from its 64 cell codes. */
  function FrameOf(codes: seq<Code>): (f: Frame)
    requires |codes| == 64
    ensures forall n | 0 <= n < 64 :: CellCodes(n, f) == codes[n]
  {
    var f: Frame := seq(320, i requires 0 <= i < 320 => codes[i / 5][i % 5]);
    assert forall n, j | 0 <= n < 64 && 0 <= j < 5 :: f[5 * n + j] == codes[n][j];
    f
  }

  /** `statistic_processing_for_calibration(samples)`: every cell takes its most frequent
      reading, the earliest on a tie. `None` stands for the `ValueError` that `max` raises
      when there are no samples. */
  function StatisticProcessingForCalibration(samples: seq<Frame>): (r: Option<Frame>)
    ensures r.None? <==> |samples| == 0
    ensures r.Some? ==> forall n | 0 <= n < 64 ::
      IsFirstMode(CellSamples(samples, n), CellSamples(samples, n), CellCodes(n, r.value))
  {
    if |samples| == 0 then None
    else
      Some(FrameOf(seq(64, n requires 0 <= n < 64 =>
        Winner(CellSamples(samples, n), CellSamples(samples, n)))))
  }

  /** One entry of the voting pool of `statistic_processing`: a reading whose name is `""` (it
      matches no bucket and does not look empty) becomes the all-zero code; a reading
      that looks empty stays as it is, because its name `"-"` is not `""`. */
  function KnownCell(db: Database, c: Code): (k: Code)
    ensures CellEmpty(c) ==> k == c
    ensures k == Zero || (k == c && GetName(db, k) != Unknown)
    ensures c != Zero ==> (k == Zero <==> GetName(db, c) == Unknown)
  {
    if GetName(db, c) == Unknown then Zero else c
  }

  /** The whole pool: `KnownCell` applied to every reading, in order. */
  function KnownCells(db: Database, cells: seq<Code>): (known: seq<Code>)
    ensures |known| == |cells|
    ensures forall i | 0 <= i < |cells| && CellEmpty(cells[i]) :: known[i] == cells[i]
    ensures forall i | 0 <= i < |cells| ::
      known[i] == Zero || (known[i] in cells && GetName(db, known[i]) != Unknown)
    ensures forall i | 0 <= i < |cells| && cells[i] != Zero :: known[i] == Zero <==> GetName(db, cells[i]) == Unknown
  {
    seq(|cells|, i requires 0 <= i < |cells| => KnownCell(db, cells[i]))
  }

  /** One cell's vote in `statistic_processing`: the pool entry with the highest count
      among the original readings, the earliest on a tie. */
  function VoteCell(db: Database, cells: seq<Code>): (x: Code)
    requires |cells| > 0
    ensures IsFirstMode(KnownCells(db, cells), cells, x)
    ensures x == Zero || (x in cells && GetName(db, x) != Unknown)
  {
    var known := KnownCells(db, cells);
    var x := Winner(known, cells);
    assert exists i | 0 <= i < |known| :: known[i] == x;
    x
  }

  /** A key holding a strict majority of the readings is the first mode. */
  lemma FirstModeMajority(keys: seq<Code>, cells: seq<Code>, x: Code, w: Code)
    requires x in keys
    requires 2 * Count(cells, x) > |cells|
    requires IsFirstMode(keys, cells, w)
    ensures w == x
  {
    var k :| 0 <= k < |keys| && keys[k] == x;
    assert Count(cells, keys[k]) <= Count(cells, w);
    if w != x {
      CountPair(cells, w, x);
    }
  }

  /** A reading with a name other than `""` that occurs in a strict majority of a cell's
      readings wins that cell's vote. */
  lemma VoteCellMajority(db: Database, cells: seq<Code>, x: Code)
    requires 2 * Count(cells, x) > |cells|
    requires GetName(db, x) != Unknown
    ensures |cells| > 0 && VoteCell(db, cells) == x
  {
    assert x in multiset(cells);
    var k :| 0 <= k < |cells| && cells[k] == x;
    var known := KnownCells(db, cells);
    assert known[k] == x;
    FirstModeMajority(known, cells, x, VoteCell(db, cells));
  }

  /** `statistic_processing(samples)`: every cell takes the pool entry whose count among the
      ORIGINAL readings is highest, the earliest on a tie. `None` stands for the `[]` the
      source returns; it happens only when there are no samples, since a non-empty pool
      always exists. */
  function StatisticProcessing(db: Database, samples: seq<Frame>): (r: Option<Frame>)
    ensures r.None? <==> |samples| == 0
    ensures r.Some? ==> forall n | 0 <= n < 64 ::
      IsFirstMode(KnownCells(db, CellSamples(samples, n)), CellSamples(samples, n), CellCodes(n, r.value))
    ensures r.Some? ==> forall n | 0 <= n < 64 ::
      || CellCodes(n, r.value) == Zero
      || (CellCodes(n, r.value) in CellSamples(samples, n) && GetName(db, CellCodes(n, r.value)) != Unknown)
  {
    if |samples| == 0 then None
    else Some(FrameOf(seq(64, n requires 0 <= n < 64 => VoteCell(db, CellSamples(samples, n)))))
  }

  /** A reading with a name other than `""` that occurs in a strict majority of the samples
      is the one chosen for its cell. */
  lemma MajorityWins(db: Database, samples: seq<Frame>, n: nat, x: Code)
    requires n < 64
    requires 2 * Count(CellSamples(samples, n), x) > |samples|
    requires GetName(db, x) != Unknown
    ensures StatisticProcessing(db, samples).Some?
    ensures CellCodes(n, StatisticProcessing(db, samples).value) == x
  {
    VoteCellMajority(db, CellSamples(samples, n), x);
    StatisticProcessingCell(db, samples, n);
  }

  /** Cell `n` of the result is the vote over cell `n` of the samples. */
  lemma StatisticProcessingCell(db: Database, samples: seq<Frame>, n: nat)
    requires n < 64 && |samples| > 0
    ensures CellCodes(n, StatisticProcessing(db, samples).value) == VoteCell(db, CellSamples(samples, n))
  {
  }

  /** A frame reassembled from its own cells is the frame. */
  lemma FrameOfCellCodes(f: Frame, codes: seq<Code>)
    requires |codes| == 64
    requires forall n | 0 <= n < 64 :: codes[n] == CellCodes(n, f)
    ensures FrameOf(codes) == f
  {
    var r := FrameOf(codes);
    forall i | 0 <= i < 320
      ensures r[i] == f[i]
    {
      CellIndex(i);
      var n, j := i / 5, i % 5;
      assert CellCodes(n, r)[j] == r[i];
      assert CellCodes(n, f)[j] == f[i];
    }
  }

  lemma CellIndex(i: nat)
    requires i < 320
    ensures i / 5 < 64 && i == 5 * (i / 5) + i % 5 && i % 5 < 5
  {
  }

  /** Calibrating on identical samples reproduces the sample. */
  lemma CalibrationOfIdenticalSamples(f: Frame, m: nat)
    requires m > 0
    ensures StatisticProcessingForCalibration(seq(m, _ => f)) == Some(f)
  {
    var samples := seq(m, _ => f);
    var codes := seq(64, n requires 0 <= n < 64 =>
      Winner(CellSamples(samples, n), CellSamples(samples, n)));
    forall n | 0 <= n < 64
      ensures codes[n] == CellCodes(n, f)
    {
      var cells := CellSamples(samples, n);
      var i :| 0 <= i < |cells| && cells[i] == codes[n];
      assert samples[i] == f;
    }
    FrameOfCellCodes(f, codes);
  }
}

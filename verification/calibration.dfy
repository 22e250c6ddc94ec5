/** Calibration (`calibration` in `certabo/codes.py`): the majority-voted frame of a board
    set up in the starting position is cut into per-kind signature lists, which are merged
    with the previous database unless the session is a new setup. */
module Calibration {
  import opened Wrappers
  import opened Signatures

  /** The piece on the back rank at `file`, a..h. */
  function BackRankKind(file: nat, white: bool): Kind
    requires file < 8
  {
    match file
    case 0 => if white then WhiteRook else BlackRook
    case 1 => if white then WhiteKnight else BlackKnight
    case 2 => if white then WhiteBishop else BlackBishop
    case 3 => if white then WhiteQueen else BlackQueen
    case 4 => if white then WhiteKing else BlackKing
    case 5 => if white then WhiteBishop else BlackBishop
    case 6 => if white then WhiteKnight else BlackKnight
    case _ => if white then WhiteRook else BlackRook
  }

  /** The starting position in cell order (cell 0 is a8, cell 63 is h1): what calibration
      expects on each cell. */
  function StartKind(cell: nat): Option<Kind>
    requires cell < 64
  {
    if cell < 8 then Some(BackRankKind(cell, false))
    else if cell < 16 then Some(BlackPawn)
    else if cell < 48 then None
    else if cell < 56 then Some(WhitePawn)
    else Some(BackRankKind(cell - 56, true))
  }

  /** The extra test a pawn cell must pass to be recorded: a black pawn cell is skipped only
      when it reads exactly all zeros, a white pawn cell whenever it looks empty. */
  predicate Keep(kind: Kind, c: Code)
  {
    match kind
    case BlackPawn => c != Zero
    case WhitePawn => !CellEmpty(c)
    case _ => true
  }

  /** Reference definition of a freshly calibrated bucket: the codes of the cells, from
      `from` on in cell order, where the starting position has `kind`, filtered by `Keep`. */
  function Collect(data: Frame, kind: Kind, from: nat): seq<Code>
    requires from <= 64
    decreases 64 - from
  {
    if from == 64 then []
    else
      var c := CellCodes(from, data);
      (if StartKind(from) == Some(kind) && Keep(kind, c) then [c] else []) + Collect(data, kind, from + 1)
  }

  /** The bucket a calibration on the starting position should give `kind`. */
  function StartBucket(data: Frame, kind: Kind): seq<Code>
  {
    Collect(data, kind, 0)
  }

  lemma {:induction false} CollectSkips(data: Frame, kind: Kind, from: nat, to: nat)
    requires from <= to <= 64
    requires forall cell | from <= cell < to :: StartKind(cell) != Some(kind)
    ensures Collect(data, kind, from) == Collect(data, kind, to)
    decreases (to as int) - from
  {
    if from < to {
      CollectSkips(data, kind, from + 1, to);
    }
  }

  /** First cell of a side's pawn rank: 8 (a7) for black, 48 (a2) for white. */
  function PawnRankStart(white: bool): nat
  {
    if white then 48 else 8
  }

  function PawnKind(white: bool): Kind
  {
    if white then WhitePawn else BlackPawn
  }

  /** The source's two pawn loops, from the `i`-th pawn cell on: a black pawn cell is
      recorded unless it compares equal to all zeros, a white one unless it looks empty. */
  function PawnCodes(data: Frame, white: bool, i: nat): (codes: seq<Code>)
    requires i <= 8
    decreases 8 - i
  {
    if i == 8 then []
    else
      var c := CellCodes(PawnRankStart(white) + i, data);
      var keep := if white then !CellEmpty(c) else !CompareCells(c, Zero);
      (if keep then [c] else []) + PawnCodes(data, white, i + 1)
  }

  lemma PawnCodesStep(data: Frame, white: bool, i: nat)
    requires i < 8
    requires PawnCodes(data, white, i + 1) == Collect(data, PawnKind(white), PawnRankStart(white) + i + 1)
    ensures PawnCodes(data, white, i) == Collect(data, PawnKind(white), PawnRankStart(white) + i)
  {
    assert StartKind(PawnRankStart(white) + i) == Some(PawnKind(white));
  }

  /** Each pawn loop records what the reference records from that cell on. */
  lemma {:induction false} PawnCodesCollected(data: Frame, white: bool, i: nat)
    requires i <= 8
    ensures PawnCodes(data, white, i) == Collect(data, PawnKind(white), PawnRankStart(white) + i)
    decreases 8 - i
  {
    if i < 8 {
      PawnCodesCollected(data, white, i + 1);
      PawnCodesStep(data, white, i);
    } else {
      CollectSkips(data, PawnKind(white), PawnRankStart(white) + 8, 64);
    }
  }

  /** The buckets built from one calibration frame, before the merge (`calibration` lines
      that append to the freshly emptied globals). */
  function Fresh(data: Frame): Database
  {
    Database(
      p := SourceBucket(data, BlackPawn), r := SourceBucket(data, BlackRook),
      n := SourceBucket(data, BlackKnight), b := SourceBucket(data, BlackBishop),
      k := SourceBucket(data, BlackKing), q := SourceBucket(data, BlackQueen),
      P := SourceBucket(data, WhitePawn), R := SourceBucket(data, WhiteRook),
      N := SourceBucket(data, WhiteKnight), B := SourceBucket(data, WhiteBishop),
      K := SourceBucket(data, WhiteKing), Q := SourceBucket(data, WhiteQueen))
  }

  /** The first cell from `from` on where the starting position has a piece `kind`
      contributes its code, and the scan goes on after it. */
  lemma CollectFirst(data: Frame, kind: Kind, from: nat, a: nat)
    requires !IsPawn(kind) && from <= a < 64 && StartKind(a) == Some(kind)
    requires forall cell | from <= cell < a :: StartKind(cell) != Some(kind)
    ensures Collect(data, kind, from) == [CellCodes(a, data)] + Collect(data, kind, a + 1)
  {
    CollectSkips(data, kind, from, a);
  }

  /** A kind the starting position puts on one cell only. */
  lemma CollectOneCell(data: Frame, kind: Kind, a: nat)
    requires !IsPawn(kind) && a < 64 && StartKind(a) == Some(kind)
    requires forall cell | 0 <= cell < 64 && cell != a :: StartKind(cell) != Some(kind)
    ensures Collect(data, kind, 0) == [CellCodes(a, data)]
  {
    CollectFirst(data, kind, 0, a);
    CollectSkips(data, kind, a + 1, 64);
  }

  /** A kind the starting position puts on two cells, `a` before `b`. */
  lemma CollectTwoCells(data: Frame, kind: Kind, a: nat, b: nat)
    requires !IsPawn(kind) && a < b < 64 && StartKind(a) == Some(kind) && StartKind(b) == Some(kind)
    requires forall cell | 0 <= cell < 64 && cell != a && cell != b :: StartKind(cell) != Some(kind)
    ensures Collect(data, kind, 0) == [CellCodes(a, data), CellCodes(b, data)]
  {
    CollectFirst(data, kind, 0, a);
    CollectFirst(data, kind, a + 1, b);
    CollectSkips(data, kind, b + 1, 64);
  }

  /** The codes the source appends to one kind's list: fixed cells for the pieces, the
      filtered pawn loops for the pawns. */
  function SourceBucket(data: Frame, kind: Kind): seq<Code>
  {
    match kind
    case BlackPawn => PawnCodes(data, false, 0)
    case WhitePawn => PawnCodes(data, true, 0)
    case BlackRook => [CellCodes(0, data), CellCodes(7, data)]
    case BlackKnight => [CellCodes(1, data), CellCodes(6, data)]
    case BlackBishop => [CellCodes(2, data), CellCodes(5, data)]
    case BlackQueen => [CellCodes(3, data)]
    case BlackKing => [CellCodes(4, data)]
    case WhiteRook => [CellCodes(56, data), CellCodes(63, data)]
    case WhiteKnight => [CellCodes(57, data), CellCodes(62, data)]
    case WhiteBishop => [CellCodes(58, data), CellCodes(61, data)]
    case WhiteQueen => [CellCodes(59, data)]
    case WhiteKing => [CellCodes(60, data)]
  }

  /** The pawn loops record the starting pawn rank. */
  lemma PawnBucketIsStart(data: Frame, white: bool)
    ensures SourceBucket(data, PawnKind(white)) == StartBucket(data, PawnKind(white))
  {
    CollectSkips(data, PawnKind(white), 0, PawnRankStart(white));
    PawnCodesCollected(data, white, 0);
  }

  /** The fixed cells of the pieces are where the starting position puts them. */
  lemma PieceBucketIsStart(data: Frame, kind: Kind)
    requires !IsPawn(kind)
    ensures SourceBucket(data, kind) == StartBucket(data, kind)
  {
    match kind
    case BlackRook => CollectTwoCells(data, BlackRook, 0, 7);
    case BlackKnight => CollectTwoCells(data, BlackKnight, 1, 6);
    case BlackBishop => CollectTwoCells(data, BlackBishop, 2, 5);
    case BlackQueen => CollectOneCell(data, BlackQueen, 3);
    case BlackKing => CollectOneCell(data, BlackKing, 4);
    case WhiteRook => CollectTwoCells(data, WhiteRook, 56, 63);
    case WhiteKnight => CollectTwoCells(data, WhiteKnight, 57, 62);
    case WhiteBishop => CollectTwoCells(data, WhiteBishop, 58, 61);
    case WhiteQueen => CollectOneCell(data, WhiteQueen, 59);
    case WhiteKing => CollectOneCell(data, WhiteKing, 60);
  }

  lemma FreshBucket(data: Frame, kind: Kind)
    ensures Fresh(data).Bucket(kind) == SourceBucket(data, kind)
  {
  }

  lemma FreshBucketIsStart(data: Frame, kind: Kind)
    ensures Fresh(data).Bucket(kind) == StartBucket(data, kind)
  {
    FreshBucket(data, kind);
    if IsPawn(kind) {
      PawnBucketIsStart(data, kind == WhitePawn);
    } else {
      PieceBucketIsStart(data, kind);
    }
  }

  /** The fresh buckets are the starting position read off the frame: each kind gets the
      codes of the cells it starts on, in cell order, pawn cells filtered. */
  lemma FreshIsStartPosition(data: Frame)
    ensures forall kind :: Fresh(data).Bucket(kind) == StartBucket(data, kind)
  {
    forall kind
      ensures Fresh(data).Bucket(kind) == StartBucket(data, kind)
    {
      FreshBucketIsStart(data, kind);
    }
  }

  /** `add_new`'s appended part: every previous code that equals no current code, in the
      previous order; duplicates among the previous codes are all kept. */
  function Missing(current: seq<Code>, previous: seq<Code>): (r: seq<Code>)
    ensures forall x :: multiset(r)[x] == if x in current then 0 else multiset(previous)[x]
  {
    if |previous| == 0 then []
    else
      var head := if AnyMatch(previous[0], current) then [] else [previous[0]];
      assert previous == [previous[0]] + previous[1..];
      head + Missing(current, previous[1..])
  }

  /** One bucket after the merge: the new codes, then the previous codes they lack. */
  function Merge(current: seq<Code>, previous: seq<Code>): (r: seq<Code>)
    ensures |r| >= |current| && r[..|current|] == current
    ensures forall x | x in previous :: x in r
    ensures forall x | x in r :: x in current || x in previous
    ensures forall x | x !in current :: multiset(r)[x] == multiset(previous)[x]
  {
    var tail := Missing(current, previous);
    assert forall x | x in previous && x !in current :: multiset(tail)[x] > 0;
    assert forall x | x in tail :: multiset(tail)[x] > 0;
    current + tail
  }

  /** Every bucket of `current` merged with the same bucket of `previous` (`add_new` applied
      to each of the twelve lists). */
  function MergeDatabase(current: Database, previous: Database): Database
  {
    Database(
      Merge(current.p, previous.p), Merge(current.r, previous.r), Merge(current.n, previous.n),
      Merge(current.b, previous.b), Merge(current.k, previous.k), Merge(current.q, previous.q),
      Merge(current.P, previous.P), Merge(current.R, previous.R), Merge(current.N, previous.N),
      Merge(current.B, previous.B), Merge(current.K, previous.K), Merge(current.Q, previous.Q))
  }

  lemma MergeDatabaseBucket(current: Database, previous: Database, kind: Kind)
    ensures MergeDatabase(current, previous).Bucket(kind) == Merge(current.Bucket(kind), previous.Bucket(kind))
  {
  }

  lemma MergeDatabaseBuckets(current: Database, previous: Database)
    ensures forall kind ::
      MergeDatabase(current, previous).Bucket(kind) == Merge(current.Bucket(kind), previous.Bucket(kind))
  {
    forall kind
      ensures MergeDatabase(current, previous).Bucket(kind) == Merge(current.Bucket(kind), previous.Bucket(kind))
    {
      MergeDatabaseBucket(current, previous, kind);
    }
  }

  /** `calibration(usb_data, new_setup)`: the new database. With `new_setup` every bucket
      is what the starting position gives; otherwise every bucket keeps those codes first
      and then every previous code that is not among them, so nothing known before is
      lost. */
  function Calibrate(data: Frame, newSetup: bool, previous: Database): (r: Database)
    ensures forall kind ::
      r.Bucket(kind) == (if newSetup then StartBucket(data, kind) else Merge(StartBucket(data, kind), previous.Bucket(kind)))
  {
    FreshIsStartPosition(data);
    MergeDatabaseBuckets(Fresh(data), previous);
    if newSetup then Fresh(data) else MergeDatabase(Fresh(data), previous)
  }

  /** Two calibrations in a row without `new_setup`: every code known after the first is
      still known after the second. */
  lemma CalibrationIsAdditive(d1: Frame, d2: Frame, previous: Database, kind: Kind, x: Code)
    requires x in Calibrate(d1, false, previous).Bucket(kind)
    ensures x in Calibrate(d2, false, Calibrate(d1, false, previous)).Bucket(kind)
  {
  }
}

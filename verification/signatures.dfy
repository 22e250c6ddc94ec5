/** Cell signatures and the signature database (`certabo/codes.py`).

    A frame from the board is 320 integers: 64 cells, five channels each, cell 0 at the top
    left as wired, row-major. The database keeps, for each of the twelve piece kinds, the list
    of signatures seen for that kind; it is the twelve module globals `p, r, n, b, k, q, P,
    R, N, B, K, Q` of the source, held here as one immutable value. */
module Signatures {
  import opened Wrappers

  /** One cell's reading: five channel values, compared exactly. */
  type Code = c: seq<int> | |c| == 5 witness [0, 0, 0, 0, 0]

  /** One board reading: 64 cells of five channels. */
  type Frame = f: seq<int> | |f| == 320 witness seq(320, _ => 0)

  /** The all-zero signature `[0, 0, 0, 0, 0]`. */
  const Zero: Code := [0, 0, 0, 0, 0]

  /** The twelve piece kinds, lower case (`p`, `r`, ...) for black and upper case for white,
      declared in the order in which the lookup scans their buckets. */
  datatype Kind =
    | BlackPawn | WhitePawn | BlackRook | WhiteRook | BlackKnight | WhiteKnight
    | BlackBishop | WhiteBishop | BlackQueen | WhiteQueen | BlackKing | WhiteKing

  /** The bucket scan order of the lookup: p, P, r, R, n, N, b, B, q, Q, k, K. */
  const ScanOrder: seq<Kind> :=
    [BlackPawn, WhitePawn, BlackRook, WhiteRook, BlackKnight, WhiteKnight,
     BlackBishop, WhiteBishop, BlackQueen, WhiteQueen, BlackKing, WhiteKing]

  /** Position of a kind in the scan order. */
  function Rank(k: Kind): (i: nat)
    ensures i < |ScanOrder| && ScanOrder[i] == k
  {
    match k
    case BlackPawn => 0  case WhitePawn => 1  case BlackRook => 2  case WhiteRook => 3
    case BlackKnight => 4  case WhiteKnight => 5  case BlackBishop => 6  case WhiteBishop => 7
    case BlackQueen => 8  case WhiteQueen => 9  case BlackKing => 10  case WhiteKing => 11
  }

  lemma RankOfScanOrder()
    ensures forall i | 0 <= i < |ScanOrder| :: Rank(ScanOrder[i]) == i
  {
  }

  /** The kind's letter in board text. */
  function Letter(k: Kind): char
  {
    match k
    case BlackPawn => 'p'  case WhitePawn => 'P'  case BlackRook => 'r'  case WhiteRook => 'R'
    case BlackKnight => 'n'  case WhiteKnight => 'N'  case BlackBishop => 'b'
    case WhiteBishop => 'B'  case BlackQueen => 'q'  case WhiteQueen => 'Q'
    case BlackKing => 'k'  case WhiteKing => 'K'
  }

  predicate IsWhite(k: Kind)
  {
    k.WhitePawn? || k.WhiteRook? || k.WhiteKnight? || k.WhiteBishop? || k.WhiteQueen? || k.WhiteKing?
  }

  predicate IsPawn(k: Kind)
  {
    k.BlackPawn? || k.WhitePawn?
  }

  /** The signature database, one bucket per kind, fields in the order the source pickles
      them. */
  datatype Database = Database(
    p: seq<Code>, r: seq<Code>, n: seq<Code>, b: seq<Code>, k: seq<Code>, q: seq<Code>,
    P: seq<Code>, R: seq<Code>, N: seq<Code>, B: seq<Code>, K: seq<Code>, Q: seq<Code>)
  {
    function Bucket(kind: Kind): seq<Code>
    {
      match kind
      case BlackPawn => p  case WhitePawn => P  case BlackRook => r  case WhiteRook => R
      case BlackKnight => n  case WhiteKnight => N  case BlackBishop => b  case WhiteBishop => B
      case BlackQueen => q  case WhiteQueen => Q  case BlackKing => k  case WhiteKing => K
    }
  }

  /** The database before any calibration has been loaded. */
  const EmptyDatabase := Database([], [], [], [], [], [], [], [], [], [], [], [])

  /** `cell_codes(n_cell, usb_data)`: the five channels of one cell. */
  function CellCodes(cell: nat, data: Frame): (c: Code)
    requires cell < 64
    ensures forall i | 0 <= i < 5 :: c[i] == data[5 * cell + i]
  {
    data[5 * cell .. 5 * cell + 5]
  }

  /** `compare_cells(x, y)`: channel-by-channel equality, no tolerance. */
  function CompareCells(x: Code, y: Code): (same: bool)
    ensures same <==> x == y
  {
    x[0] == y[0] && x[1] == y[1] && x[2] == y[2] && x[3] == y[3] && x[4] == y[4]
  }

  function ZeroCount(x: seq<int>): nat
  {
    if |x| == 0 then 0 else (if x[0] == 0 then 1 else 0) + ZeroCount(x[1..])
  }

  lemma {:induction false} ZeroCountIsMultiplicity(x: seq<int>)
    ensures ZeroCount(x) == multiset(x)[0]
  {
    if |x| > 0 {
      ZeroCountIsMultiplicity(x[1..]);
      assert x == [x[0]] + x[1..];
    }
  }

  /** `cell_empty(x)`: more than two of the five channels read zero. */
  function CellEmpty(x: Code): (empty: bool)
    ensures empty <==> multiset(x)[0] > 2
  {
    ZeroCountIsMultiplicity(x);
    ZeroCount(x) > 2
  }

  /** The `for cell_p in bucket: if compare_cells(cell, cell_p)` test: some entry of the
      bucket equals the cell. */
  function AnyMatch(cell: Code, bucket: seq<Code>): (found: bool)
    ensures found <==> cell in bucket
  {
    |bucket| > 0 && (CompareCells(cell, bucket[0]) || AnyMatch(cell, bucket[1..]))
  }

  predicate Matches(db: Database, cell: Code, kind: Kind)
  {
    AnyMatch(cell, db.Bucket(kind))
  }

  /** `kind` matches the cell and no kind later in the scan order does: the lookup has no
      `break`, so the last matching bucket is the one that sticks. */
  ghost predicate IsLastMatch(db: Database, cell: Code, kind: Kind)
  {
    Matches(db, cell, kind) && forall k :: Matches(db, cell, k) ==> Rank(k) <= Rank(kind)
  }

  /** What `get_name` reports for a cell: `""`, `"-"` or a piece letter. */
  datatype Name = Unknown | Empty | Piece(kind: Kind)
  {
    /** The string the source returns. */
    function Text(): string
    {
      match this
      case Unknown => ""
      case Empty => "-"
      case Piece(k) => [Letter(k)]
    }
  }

  /** The chain of bucket loops: each matching bucket overwrites the running answer. */
  function Scan(db: Database, cell: Code, order: seq<Kind>, c: Name): Name
    decreases |order|
  {
    if |order| == 0 then c
    else Scan(db, cell, order[1..], if Matches(db, cell, order[0]) then Piece(order[0]) else c)
  }

  /** Without a match the scan keeps its start; otherwise it ends on a matching kind that
      no later kind of the order matches. */
  lemma {:induction false} ScanSpec(db: Database, cell: Code, order: seq<Kind>, c: Name)
    ensures var r := Scan(db, cell, order, c);
      (forall i | 0 <= i < |order| :: !Matches(db, cell, order[i])) ==> r == c
    ensures var r := Scan(db, cell, order, c);
      (exists i | 0 <= i < |order| :: Matches(db, cell, order[i])) ==>
        exists j | 0 <= j < |order| ::
          && r == Piece(order[j]) && Matches(db, cell, order[j])
          && forall j' | j < j' < |order| :: !Matches(db, cell, order[j'])
    decreases |order|
  {
    if |order| > 0 {
      var c' := if Matches(db, cell, order[0]) then Piece(order[0]) else c;
      var rest := order[1..];
      ScanSpec(db, cell, rest, c');
      assert forall i | 1 <= i < |order| :: order[i] == rest[i - 1];
      var r := Scan(db, cell, order, c);
      if exists i | 0 <= i < |rest| :: Matches(db, cell, rest[i]) {
        var j :| 0 <= j < |rest| && r == Piece(rest[j]) && Matches(db, cell, rest[j])
          && forall j' | j < j' < |rest| :: !Matches(db, cell, rest[j']);
        assert r == Piece(order[j + 1]) && Matches(db, cell, order[j + 1]);
      } else if Matches(db, cell, order[0]) {
        assert r == Piece(order[0]);
      }
    }
  }

  /** The last-match property of a scan over any order that lists each kind once, at its
      rank. */
  lemma ScanLastMatch(db: Database, cell: Code, c: Name, order: seq<Kind>, k: Kind)
    requires forall i | 0 <= i < |order| :: Rank(order[i]) == i
    requires forall k' :: Rank(k') < |order| && order[Rank(k')] == k'
    requires Matches(db, cell, k)
    ensures Scan(db, cell, order, c).Piece?
    ensures IsLastMatch(db, cell, Scan(db, cell, order, c).kind)
  {
    var r := Scan(db, cell, order, c);
    ScanSpec(db, cell, order, c);
    assert Matches(db, cell, order[Rank(k)]);
    var j :| 0 <= j < |order| && r == Piece(order[j]) && Matches(db, cell, order[j])
      && forall j' | j < j' < |order| :: !Matches(db, cell, order[j']);
    assert Rank(r.kind) == j;
    forall k' | Matches(db, cell, k')
      ensures Rank(k') <= j
    {
      assert order[Rank(k')] == k';
    }
  }

  /** A scan over such an order keeps its start without a match and otherwise ends on the
      last matching kind. */
  lemma ScanByRank(db: Database, cell: Code, c: Name, order: seq<Kind>)
    requires forall i | 0 <= i < |order| :: Rank(order[i]) == i
    requires forall k' :: Rank(k') < |order| && order[Rank(k')] == k'
    ensures (forall k :: !Matches(db, cell, k)) ==> Scan(db, cell, order, c) == c
    ensures (exists k :: Matches(db, cell, k)) ==>
      Scan(db, cell, order, c).Piece? && IsLastMatch(db, cell, Scan(db, cell, order, c).kind)
  {
    if k :| Matches(db, cell, k) {
      ScanLastMatch(db, cell, c, order, k);
    } else {
      ScanSpec(db, cell, order, c);
      forall i | 0 <= i < |order|
        ensures !Matches(db, cell, order[i])
      {
      }
    }
  }

  lemma ScanOrderScan(db: Database, cell: Code, c: Name)
    ensures (forall k :: !Matches(db, cell, k)) ==> Scan(db, cell, ScanOrder, c) == c
    ensures (exists k :: Matches(db, cell, k)) ==>
      Scan(db, cell, ScanOrder, c).Piece? && IsLastMatch(db, cell, Scan(db, cell, ScanOrder, c).kind)
  {
    RankOfScanOrder();
    ScanByRank(db, cell, c, ScanOrder);
  }

  /** `get_name(cell)`: a bucket match overrides emptiness, the last matching bucket in
      the scan order wins, and without a match an empty-looking cell is `"-"` and any other
      cell is `""`. */
  function GetName(db: Database, cell: Code): (r: Name)
    ensures r.Piece? <==> exists k :: Matches(db, cell, k)
    ensures r.Piece? ==> IsLastMatch(db, cell, r.kind)
    ensures r == Empty <==> (forall k :: !Matches(db, cell, k)) && CellEmpty(cell)
    ensures r == Unknown <==> (forall k :: !Matches(db, cell, k)) && !CellEmpty(cell)
  {
    var start := if CellEmpty(cell) then Empty else Unknown;
    ScanOrderScan(db, cell, start);
    var r := Scan(db, cell, ScanOrder, start);
    assert r.Piece? <==> exists k :: Matches(db, cell, k);
    assert !r.Piece? ==> r == start;
    r
  }

  /** The bucket scan of `usb_data_to_FEN` for a cell that is not empty: the last matching
      kind, or none. */
  function Lookup(db: Database, cell: Code): (r: Option<Kind>)
    ensures r.Some? <==> exists k :: Matches(db, cell, k)
    ensures r.Some? ==> IsLastMatch(db, cell, r.value)
  {
    ScanOrderScan(db, cell, Unknown);
    match Scan(db, cell, ScanOrder, Unknown)
    case Piece(k) => Some(k)
    case _ => None
  }

  /** The last match in the scan order is unique. */
  lemma LastMatchUnique(db: Database, cell: Code, k1: Kind, k2: Kind)
    requires IsLastMatch(db, cell, k1) && IsLastMatch(db, cell, k2)
    ensures k1 == k2
  {
    assert Rank(k1) == Rank(k2);
    assert ScanOrder[Rank(k1)] == k1;
  }

  /** A cell found in exactly one bucket resolves to that bucket's kind. */
  lemma LookupSoleBucket(db: Database, cell: Code, kind: Kind)
    requires cell in db.Bucket(kind)
    requires forall k | k != kind :: cell !in db.Bucket(k)
    ensures Lookup(db, cell) == Some(kind)
    ensures GetName(db, cell) == Piece(kind)
  {
    assert Matches(db, cell, kind);
    LastMatchUnique(db, cell, Lookup(db, cell).value, kind);
    LastMatchUnique(db, cell, GetName(db, cell).kind, kind);
  }
}

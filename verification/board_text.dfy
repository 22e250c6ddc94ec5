/** Board text from a frame (`usb_data_to_FEN` in `certabo/codes.py`).

    Each of the 64 cells is read: a cell that looks empty is a vacant square, any other cell
    is the last bucket it matches in the scan order, and a cell that matches nothing makes
    the whole result `""`. Ranks are written top row first, runs of vacant squares as one
    digit, ranks separated by `/`, and the fixed tail ` w KQkq - 0 1` is appended.

    The board text is compared against a reference reader of the same notation: a rank is
    a sequence of piece letters and digits 1..8 with no two digits in a row, and reads as
    the squares the letters name and as many vacant squares as each digit says. */
module BoardText {
  import opened Wrappers
  import opened Text
  import opened Signatures

  datatype Square = Vacant | Occupied(kind: Kind)

  /** The side-to-move, castling, en-passant and clock fields the source always appends. */
  const Tail: string := " w KQkq - 0 1"

  /** How `usb_data_to_FEN` reads one cell: emptiness is tested first, so unlike
      `get_name` an empty-looking cell is vacant even when it matches a bucket; otherwise the
      last matching bucket names the piece, and `None` is the unknown piece. */
  function ReadCell(db: Database, cell: Code): (r: Option<Square>)
    ensures r == Some(Vacant) <==> CellEmpty(cell)
    ensures r.None? <==> !CellEmpty(cell) && forall k :: !Matches(db, cell, k)
    ensures r.Some? && r.value.Occupied? ==> !CellEmpty(cell) && IsLastMatch(db, cell, r.value.kind)
  {
    if CellEmpty(cell) then Some(Vacant)
    else
      match Lookup(db, cell)
      case Some(k) => Some(Occupied(k))
      case None => None
  }

  function Vacants(n: nat): (r: seq<Square>)
    ensures |r| == n && forall i | 0 <= i < n :: r[i] == Vacant
  {
    seq(n, _ => Vacant)
  }

  /** The digit text for `counter` pending vacant squares; nothing when there are none. */
  function Pending(counter: nat): (t: string)
    ensures counter == 0 ==> t == ""
    ensures 0 < counter < 10 ==> t == [DigitChar(counter)]
  {
    if counter > 0 then NatToDecimal(counter) else ""
  }

  /** The inner loop of `usb_data_to_FEN` over the known squares of one rank, left to
      right: `counter` vacant squares are pending, `acc` is the text so far. A piece flushes
      the pending count as a digit before its letter; the count left at the end of the rank
      is flushed after it. */
  function RenderRow(squares: seq<Square>, counter: nat, acc: string): string
    decreases |squares|
  {
    if |squares| == 0 then acc + Pending(counter)
    else
      match squares[0]
      case Vacant => RenderRow(squares[1..], counter + 1, acc)
      case Occupied(k) => RenderRow(squares[1..], 0, acc + Pending(counter) + [Letter(k)])
  }

  lemma {:induction false} RenderRowAcc(squares: seq<Square>, counter: nat, acc: string)
    ensures RenderRow(squares, counter, acc) == acc + RenderRow(squares, counter, "")
    decreases |squares|
  {
    if |squares| == 0 {
      assert "" + Pending(counter) == Pending(counter);
    } else {
      match squares[0]
      case Vacant =>
        RenderRowAcc(squares[1..], counter + 1, acc);
      case Occupied(k) =>
        var p := Pending(counter) + [Letter(k)];
        var rest := RenderRow(squares[1..], 0, "");
        RenderRowAcc(squares[1..], 0, acc + p);
        RenderRowAcc(squares[1..], 0, p);
        assert acc + Pending(counter) + [Letter(k)] == acc + p;
        assert "" + Pending(counter) + [Letter(k)] == p;
        assert acc + p + rest == acc + (p + rest);
    }
  }

  /** The piece a letter names, if any. */
  function KindOf(c: char): (r: Option<Kind>)
    ensures r.Some? ==> Letter(r.value) == c
  {
    match c
    case 'p' => Some(BlackPawn)  case 'P' => Some(WhitePawn)
    case 'r' => Some(BlackRook)  case 'R' => Some(WhiteRook)
    case 'n' => Some(BlackKnight)  case 'N' => Some(WhiteKnight)
    case 'b' => Some(BlackBishop)  case 'B' => Some(WhiteBishop)
    case 'q' => Some(BlackQueen)  case 'Q' => Some(WhiteQueen)
    case 'k' => Some(BlackKing)  case 'K' => Some(WhiteKing)
    case _ => None
  }

  lemma KindOfLetter(k: Kind)
    ensures KindOf(Letter(k)) == Some(k)
  {
  }

  predicate IsRankDigit(c: char)
  {
    '1' <= c <= '8'
  }

  predicate IsRowChar(c: char)
  {
    IsRankDigit(c) || KindOf(c).Some?
  }

  /** A well-formed rank text: letters and digits 1..8 only, never two digits in a row. */
  predicate ValidRow(t: string)
  {
    && (forall i | 0 <= i < |t| :: IsRowChar(t[i]))
    && (forall i | 0 <= i < |t| - 1 :: !(IsRankDigit(t[i]) && IsRankDigit(t[i + 1])))
  }

  function CharSquares(c: char): seq<Square>
    requires IsRowChar(c)
  {
    if IsRankDigit(c) then Vacants(DigitValue(c)) else [Occupied(KindOf(c).value)]
  }

  /** The squares a rank text stands for. */
  function Expand(t: string): seq<Square>
    requires forall i | 0 <= i < |t| :: IsRowChar(t[i])
  {
    if |t| == 0 then [] else CharSquares(t[0]) + Expand(t[1..])
  }

  lemma {:induction false} ExpandAppend(a: string, b: string)
    requires forall i | 0 <= i < |a| :: IsRowChar(a[i])
    requires forall i | 0 <= i < |b| :: IsRowChar(b[i])
    ensures forall i | 0 <= i < |a + b| :: IsRowChar((a + b)[i])
    ensures Expand(a + b) == Expand(a) + Expand(b)
  {
    if |a| == 0 {
      assert a + b == b;
    } else {
      ExpandAppend(a[1..], b);
      assert (a + b)[0] == a[0];
      assert (a + b)[1..] == a[1..] + b;
      assert CharSquares(a[0]) + (Expand(a[1..]) + Expand(b)) == CharSquares(a[0]) + Expand(a[1..]) + Expand(b);
    }
  }

  /** Reading a reversed rank gives the reversed squares. */
  lemma {:induction false} ExpandReverse(t: string)
    requires forall i | 0 <= i < |t| :: IsRowChar(t[i])
    ensures forall i | 0 <= i < |Reverse(t)| :: IsRowChar(Reverse(t)[i])
    ensures Expand(Reverse(t)) == Reverse(Expand(t))
  {
    if |t| > 0 {
      ExpandReverse(t[1..]);
      ExpandAppend(Reverse(t[1..]), [t[0]]);
      assert Expand([t[0]]) == CharSquares(t[0]);
      var v := CharSquares(t[0]);
      assert Reverse(v) == v;
      ReverseAppend(v, Expand(t[1..]));
    }
  }

  lemma ReverseValidRow(t: string)
    requires ValidRow(t)
    ensures ValidRow(Reverse(t))
  {
    var r := Reverse(t);
    forall i | 0 <= i < |r| - 1
      ensures !(IsRankDigit(r[i]) && IsRankDigit(r[i + 1]))
    {
      assert r[i] == t[|t| - 1 - i] && r[i + 1] == t[|t| - 1 - i - 1];
    }
  }

  lemma ExpandDigit(c: nat)
    requires 1 <= c <= 8
    ensures IsRowChar(DigitChar(c)) && Expand([DigitChar(c)]) == Vacants(c)
  {
    assert [DigitChar(c)][1..] == [];
  }

  lemma ExpandLetter(k: Kind)
    ensures IsRowChar(Letter(k)) && Expand([Letter(k)]) == [Occupied(k)]
  {
    KindOfLetter(k);
    assert [Letter(k)][1..] == [];
  }

  /** The text a piece contributes: the pending count, if any, then its letter. */
  lemma PieceTextReadsBack(counter: nat, k: Kind)
    requires counter <= 8
    ensures ValidRow(Pending(counter) + [Letter(k)])
    ensures Expand(Pending(counter) + [Letter(k)]) == Vacants(counter) + [Occupied(k)]
    ensures var p := Pending(counter) + [Letter(k)]; |p| > 0 && !IsRankDigit(p[|p| - 1])
  {
    ExpandLetter(k);
    if counter > 0 {
      ExpandDigit(counter);
      ExpandAppend([DigitChar(counter)], [Letter(k)]);
    } else {
      assert "" + [Letter(k)] == [Letter(k)];
    }
  }

  /** Two well-formed rank texts, the first ending in a letter, join into one. */
  lemma ValidRowAppend(a: string, b: string)
    requires ValidRow(a) && ValidRow(b) && |a| > 0 && !IsRankDigit(a[|a| - 1])
    ensures ValidRow(a + b)
  {
    var t := a + b;
    forall i | 0 <= i < |t| - 1
      ensures !(IsRankDigit(t[i]) && IsRankDigit(t[i + 1]))
    {
      if i >= |a| {
        assert t[i] == b[i - |a|] && t[i + 1] == b[i - |a| + 1];
      } else if i + 1 < |a| {
        assert t[i] == a[i] && t[i + 1] == a[i + 1];
      }
    }
  }

  /** One rank as rendered reads back as the pending vacant squares followed by the
      squares given, and is well formed. */
  lemma {:induction false} RenderRowReadsBack(squares: seq<Square>, counter: nat)
    requires counter + |squares| <= 8
    ensures ValidRow(RenderRow(squares, counter, ""))
    ensures Expand(RenderRow(squares, counter, "")) == Vacants(counter) + squares
    decreases |squares|
  {
    if |squares| == 0 {
      assert RenderRow(squares, counter, "") == Pending(counter);
      if counter > 0 {
        ExpandDigit(counter);
      }
    } else {
      match squares[0]
      case Vacant =>
        RenderRowReadsBack(squares[1..], counter + 1);
        assert Vacants(counter + 1) + squares[1..] == Vacants(counter) + squares;
      case Occupied(k) =>
        RenderRowReadsBack(squares[1..], 0);
        RenderOccupied(squares, counter, k);
    }
  }

  lemma RenderOccupied(squares: seq<Square>, counter: nat, k: Kind)
    requires counter + |squares| <= 8 && |squares| > 0 && squares[0] == Occupied(k)
    requires ValidRow(RenderRow(squares[1..], 0, ""))
    requires Expand(RenderRow(squares[1..], 0, "")) == squares[1..]
    ensures ValidRow(RenderRow(squares, counter, ""))
    ensures Expand(RenderRow(squares, counter, "")) == Vacants(counter) + squares
  {
    var p := Pending(counter) + [Letter(k)];
    var rest := RenderRow(squares[1..], 0, "");
    RenderRowAcc(squares[1..], 0, p);
    assert "" + Pending(counter) + [Letter(k)] == p;
    PieceThenRest(counter, k, rest, squares[1..]);
    assert squares == [Occupied(k)] + squares[1..];
  }

  /** A piece's text followed by a well-formed rank text reads as the piece's squares
      followed by that text's squares. */
  lemma PieceThenRest(counter: nat, k: Kind, rest: string, tail: seq<Square>)
    requires counter <= 8 && ValidRow(rest) && Expand(rest) == tail
    ensures var p := Pending(counter) + [Letter(k)];
      ValidRow(p + rest) && Expand(p + rest) == Vacants(counter) + ([Occupied(k)] + tail)
  {
    var p := Pending(counter) + [Letter(k)];
    PieceTextReadsBack(counter, k);
    ValidRowAppend(p, rest);
    ExpandAppend(p, rest);
    AppendAssoc(Vacants(counter), [Occupied(k)], tail);
  }

  lemma AppendAssoc(a: seq<Square>, b: seq<Square>, c: seq<Square>)
    ensures a + b + c == a + (b + c)
  {
  }

  /** A board: eight ranks of eight squares, top rank (cell 0..7) first. */
  predicate IsBoard(board: seq<seq<Square>>)
  {
    |board| == 8 && forall j | 0 <= j < 8 :: |board[j]| == 8
  }

  /** The board seen from the other side: rank order and square order both reversed, so
      the square of cell `n` moves to cell `63 - n`. */
  function Rotate(board: seq<seq<Square>>): (r: seq<seq<Square>>)
    requires IsBoard(board)
    ensures IsBoard(r)
    ensures forall j, i | 0 <= j < 8 && 0 <= i < 8 :: r[j][i] == board[7 - j][7 - i]
  {
    seq(8, j requires 0 <= j < 8 => Reverse(board[7 - j]))
  }

  function RankTexts(board: seq<seq<Square>>): (ranks: seq<string>)
    requires IsBoard(board)
    ensures |ranks| == 8
  {
    seq(8, j requires 0 <= j < 8 => RenderRow(board[j], 0, ""))
  }

  /** The board field of the text: the eight rendered ranks joined by `/`. */
  function BoardField(board: seq<seq<Square>>): string
    requires IsBoard(board)
  {
    Join(RankTexts(board), '/')
  }

  /** Eight well-formed rank texts of eight squares each, read as a board. */
  function ReadRanks(ranks: seq<string>): (r: Option<seq<seq<Square>>>)
    ensures r.Some? ==> IsBoard(r.value)
  {
    if |ranks| == 8 && forall j | 0 <= j < 8 :: ValidRow(ranks[j]) && |Expand(ranks[j])| == 8 then
      Some(seq(8, j requires 0 <= j < 8 => Expand(ranks[j])))
    else None
  }

  /** The reference reader of a board field: the `/`-separated ranks read as a board. */
  function ParseBoard(text: string): (r: Option<seq<seq<Square>>>)
    ensures r.Some? ==> IsBoard(r.value)
  {
    ReadRanks(Split(text, '/'))
  }

  lemma ReadRanksOf(ranks: seq<string>, board: seq<seq<Square>>)
    requires IsBoard(board) && |ranks| == 8
    requires forall j | 0 <= j < 8 :: ValidRow(ranks[j]) && Expand(ranks[j]) == board[j]
    ensures ReadRanks(ranks) == Some(board)
  {
    var b := seq(8, j requires 0 <= j < 8 => Expand(ranks[j]));
    assert b == board;
  }

  /** Rank texts without `/` joined by `/` and read back. */
  lemma ParseJoinedRanks(ranks: seq<string>, board: seq<seq<Square>>)
    requires IsBoard(board) && |ranks| == 8
    requires forall j | 0 <= j < 8 :: ValidRow(ranks[j]) && Expand(ranks[j]) == board[j]
    ensures ParseBoard(Join(ranks, '/')) == Some(board)
  {
    forall j | 0 <= j < 8
      ensures '/' !in ranks[j]
    {
      ValidRowHasNoSlash(ranks[j]);
    }
    SplitJoin(ranks, '/');
    ReadRanksOf(ranks, board);
  }

  lemma RankTextsRead(board: seq<seq<Square>>)
    requires IsBoard(board)
    ensures forall j | 0 <= j < 8 :: ValidRow(RankTexts(board)[j]) && Expand(RankTexts(board)[j]) == board[j]
  {
    forall j | 0 <= j < 8
      ensures ValidRow(RankTexts(board)[j]) && Expand(RankTexts(board)[j]) == board[j]
    {
      RenderRowReadsBack(board[j], 0);
      assert Vacants(0) + board[j] == board[j];
    }
  }

  lemma ValidRowHasNoSlash(t: string)
    requires ValidRow(t)
    ensures '/' !in t
  {
    forall i | 0 <= i < |t|
      ensures t[i] != '/'
    {
      assert IsRowChar(t[i]);
    }
  }

  /** The board field reads back as the board. */
  lemma BoardFieldReadsBack(board: seq<seq<Square>>)
    requires IsBoard(board)
    ensures ParseBoard(BoardField(board)) == Some(board)
  {
    RankTextsRead(board);
    ParseJoinedRanks(RankTexts(board), board);
  }

  /** The reversed board field reads back as the rotated board. */
  lemma ReversedFieldReadsRotated(board: seq<seq<Square>>)
    requires IsBoard(board)
    ensures ParseBoard(Reverse(BoardField(board))) == Some(Rotate(board))
  {
    var ranks := RankTexts(board);
    var rotated := ReverseEach(Reverse(ranks));
    JoinReversed(ranks, '/');
    RankTextsRead(board);
    forall j | 0 <= j < 8
      ensures ValidRow(rotated[j]) && Expand(rotated[j]) == Rotate(board)[j]
    {
      assert rotated[j] == Reverse(ranks[7 - j]);
      ReversedRank(ranks[7 - j], board[7 - j]);
    }
    ParseJoinedRanks(rotated, Rotate(board));
  }

  /** A well-formed rank text read backwards reads as its squares backwards. */
  lemma ReversedRank(t: string, squares: seq<Square>)
    requires ValidRow(t) && Expand(t) == squares
    ensures ValidRow(Reverse(t)) && Expand(Reverse(t)) == Reverse(squares)
  {
    ReverseValidRow(t);
    ExpandReverse(t);
  }

  /** The reading of every cell of a frame, cell 0 first. */
  function ReadCells(db: Database, data: Frame): (cells: seq<Option<Square>>)
    ensures |cells| == 64
    ensures forall n | 0 <= n < 64 :: cells[n] == ReadCell(db, CellCodes(n, data))
  {
    seq(64, n requires 0 <= n < 64 => ReadCell(db, CellCodes(n, data)))
  }

  /** Sixty-four squares cut into ranks, rank `j` holding squares `8 * j` to `8 * j + 7`. */
  function Ranks(squares: seq<Square>): (board: seq<seq<Square>>)
    requires |squares| == 64
    ensures IsBoard(board)
    ensures forall j, i | 0 <= j < 8 && 0 <= i < 8 :: board[j][i] == squares[8 * j + i]
  {
    seq(8, j requires 0 <= j < 8 => squares[8 * j .. 8 * j + 8])
  }

  /** The board read off a frame; `None` when some cell cannot be read. */
  function ReadBoard(db: Database, data: Frame): (r: Option<seq<seq<Square>>>)
    ensures r.None? <==> exists n | 0 <= n < 64 :: ReadCells(db, data)[n].None?
    ensures r.Some? ==> IsBoard(r.value)
    ensures r.Some? ==> forall j, i | 0 <= j < 8 && 0 <= i < 8 ::
      ReadCells(db, data)[8 * j + i] == Some(r.value[j][i])
  {
    var cells := ReadCells(db, data);
    if forall n | 0 <= n < 64 :: cells[n].Some? then
      Some(Ranks(seq(64, n requires 0 <= n < 64 => cells[n].value)))
    else None
  }

  /** `usb_data_to_FEN(usb_data, rotate180)`. */
  function UsbDataToFen(db: Database, data: Frame, rotate: bool): (r: string)
    ensures r == "" <==> exists n | 0 <= n < 64 :: ReadCells(db, data)[n].None?
  {
    match ReadBoard(db, data)
    case None => ""
    case Some(board) =>
      var field := BoardField(board);
      (if rotate then ReverseFields(field, '/') else field) + Tail
  }

  /** What a non-empty result says: its board field reads back as the cells of the frame,
      seen from the other side when rotated, followed by the fixed tail. */
  lemma UsbDataToFenReadsBack(db: Database, data: Frame, rotate: bool)
    requires UsbDataToFen(db, data, rotate) != ""
    ensures var r := UsbDataToFen(db, data, rotate);
      && |r| >= |Tail| && r[|r| - |Tail|..] == Tail
      && var b := ParseBoard(r[..|r| - |Tail|]);
      && b.Some?
      && forall j, i | 0 <= j < 8 && 0 <= i < 8 ::
           var n := if rotate then 63 - (8 * j + i) else 8 * j + i;
           ReadCells(db, data)[n] == Some(b.value[j][i])
  {
    var board := ReadBoard(db, data).value;
    var r := UsbDataToFen(db, data, rotate);
    var field := if rotate then Reverse(BoardField(board)) else BoardField(board);
    if rotate {
      ReverseFieldsIsReverse(BoardField(board), '/');
    }
    assert r == field + Tail;
    assert r[..|r| - |Tail|] == field;
    if rotate {
      RotatedCells(db, data, board);
    } else {
      BoardFieldReadsBack(board);
    }
  }

  /** The rotated board field names cell `63 - n` where the plain one names cell `n`. */
  lemma RotatedCells(db: Database, data: Frame, board: seq<seq<Square>>)
    requires ReadBoard(db, data) == Some(board)
    ensures ParseBoard(Reverse(BoardField(board))) == Some(Rotate(board))
    ensures forall j, i | 0 <= j < 8 && 0 <= i < 8 ::
      ReadCells(db, data)[63 - (8 * j + i)] == Some(Rotate(board)[j][i])
  {
    ReversedFieldReadsRotated(board);
    RotatedCellsOf(ReadCells(db, data), board);
  }

  lemma RotatedCellsOf(cells: seq<Option<Square>>, board: seq<seq<Square>>)
    requires IsBoard(board) && |cells| == 64
    requires forall j, i | 0 <= j < 8 && 0 <= i < 8 :: cells[8 * j + i] == Some(board[j][i])
    ensures forall j, i | 0 <= j < 8 && 0 <= i < 8 :: cells[63 - (8 * j + i)] == Some(Rotate(board)[j][i])
  {
    forall j, i | 0 <= j < 8 && 0 <= i < 8
      ensures cells[63 - (8 * j + i)] == Some(Rotate(board)[j][i])
    {
      assert 63 - (8 * j + i) == 8 * (7 - j) + (7 - i);
    }
  }

  /** With `rotate180` the text before the tail is the unrotated one read backwards. */
  lemma RotatedFenIsReversed(db: Database, data: Frame)
    requires UsbDataToFen(db, data, false) != ""
    ensures var plain := UsbDataToFen(db, data, false);
      var turned := UsbDataToFen(db, data, true);
      && |plain| >= |Tail| && |turned| == |plain|
      && turned[..|turned| - |Tail|] == Reverse(plain[..|plain| - |Tail|])
  {
    var field := BoardField(ReadBoard(db, data).value);
    ReverseFieldsIsReverse(field, '/');
    var plain := UsbDataToFen(db, data, false);
    var turned := UsbDataToFen(db, data, true);
    assert plain[..|plain| - |Tail|] == field;
    assert turned[..|turned| - |Tail|] == Reverse(field);
  }
}

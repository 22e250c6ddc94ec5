/** Move inference (`get_moves` in `certabo/codes.py`): which legal move, or pair of
    moves, turns the current position into the board field the board reports.

    The chess rules are not modelled. The search sees them through an oracle: the legal
    moves of a position in generation order, the position after a move, the board field
    of a position and the UCI text of a move. */
module Moves {
  import opened Wrappers
  import opened Text

  datatype Rules<!Pos, !Mv> = Rules(
    legal: Pos -> seq<Mv>,
    play: (Pos, Mv) -> Pos,
    boardFen: Pos -> string,
    uci: Mv -> string)

  datatype MoveError =
    | NoBoardField  // `IndexError`: the text has no first word
    | InvalidMove   // no move or pair of moves reaches the text

  /** The position after `m` shows the board field `field`. */
  predicate Reaches<Pos, Mv>(rules: Rules<Pos, Mv>, pos: Pos, m: Mv, field: string)
  {
    rules.boardFen(rules.play(pos, m)) == field
  }

  /** Index of the first move, from `from` on, after which the board field is `field`. */
  function FirstSingle<Pos, Mv>(rules: Rules<Pos, Mv>, pos: Pos, moves: seq<Mv>, field: string, from: nat)
    : (r: Option<nat>)
    requires from <= |moves|
    ensures r.None? <==> forall i | from <= i < |moves| :: !Reaches(rules, pos, moves[i], field)
    ensures r.Some? ==> from <= r.value < |moves| && Reaches(rules, pos, moves[r.value], field)
    ensures r.Some? ==> forall i | from <= i < r.value :: !Reaches(rules, pos, moves[i], field)
    decreases |moves| - from
  {
    if from == |moves| then None
    else if Reaches(rules, pos, moves[from], field) then Some(from)
    else FirstSingle(rules, pos, moves, field, from + 1)
  }

  /** The replies to the first move `moves[i]`. */
  function Replies<Pos, Mv>(rules: Rules<Pos, Mv>, pos: Pos, moves: seq<Mv>, i: nat): seq<Mv>
    requires i < |moves|
  {
    rules.legal(rules.play(pos, moves[i]))
  }

  /** The pair `(moves[i], reply j)` reaches the field. */
  predicate PairReaches<Pos, Mv>(rules: Rules<Pos, Mv>, pos: Pos, moves: seq<Mv>, field: string, i: nat, j: nat)
    requires i < |moves|
  {
    j < |Replies(rules, pos, moves, i)|
    && Reaches(rules, rules.play(pos, moves[i]), Replies(rules, pos, moves, i)[j], field)
  }

  /** The first pair, first moves in generation order and replies in generation order
      within each, from first move `from` on. */
  function FirstPair<Pos, Mv>(rules: Rules<Pos, Mv>, pos: Pos, moves: seq<Mv>, field: string, from: nat)
    : (r: Option<(nat, nat)>)
    requires from <= |moves|
    ensures r.None? <==> forall i, j | from <= i < |moves| :: !PairReaches(rules, pos, moves, field, i, j)
    ensures r.Some? ==> from <= r.value.0 < |moves| && PairReaches(rules, pos, moves, field, r.value.0, r.value.1)
    ensures r.Some? ==> forall i, j | from <= i < r.value.0 :: !PairReaches(rules, pos, moves, field, i, j)
    ensures r.Some? ==> forall j | 0 <= j < r.value.1 :: !PairReaches(rules, pos, moves, field, r.value.0, j)
    decreases |moves| - from
  {
    if from == |moves| then None
    else
      var replies := Replies(rules, pos, moves, from);
      match FirstSingle(rules, rules.play(pos, moves[from]), replies, field, 0)
      case Some(j) =>
        assert PairReaches(rules, pos, moves, field, from, j);
        Some((from, j))
      case None => FirstPair(rules, pos, moves, field, from + 1)
  }

  /** `get_moves(board, fen, max_depth)`: `[]` when the board already shows the field,
      else the UCI text of the first single move that reaches it, else, when `maxDepth`
      exceeds 1, of the first pair that does. */
  function GetMoves<Pos, Mv>(rules: Rules<Pos, Mv>, pos: Pos, fen: string, maxDepth: int)
    : (r: Result<seq<string>, MoveError>)
    ensures r == Err(NoBoardField) <==> FirstWord(fen).None?
  {
    match FirstWord(fen)
    case None => Err(NoBoardField)
    case Some(field) =>
      if rules.boardFen(pos) == field then Ok([])
      else
        var moves := rules.legal(pos);
        match FirstSingle(rules, pos, moves, field, 0)
        case Some(i) => Ok([rules.uci(moves[i])])
        case None =>
          if maxDepth > 1 then
            match FirstPair(rules, pos, moves, field, 0)
            case Some((i, j)) => Ok([rules.uci(moves[i]), rules.uci(Replies(rules, pos, moves, i)[j])])
            case None => Err(InvalidMove)
          else Err(InvalidMove)
  }

  /** The outcomes of the search: no move exactly when the board field is unchanged; one
      move, the first in generation order that reaches the field; two moves only when no
      single move does and `maxDepth > 1`; `InvalidMove` when nothing within reach
      does. */
  lemma GetMovesOutcomes<Pos, Mv>(rules: Rules<Pos, Mv>, pos: Pos, fen: string, maxDepth: int)
    requires FirstWord(fen).Some?
    ensures var field, moves, r := FirstWord(fen).value, rules.legal(pos), GetMoves(rules, pos, fen, maxDepth);
      && (r == Ok([]) <==> rules.boardFen(pos) == field)
      && (r.Ok? && |r.value| == 1 <==>
            rules.boardFen(pos) != field && exists i | 0 <= i < |moves| :: Reaches(rules, pos, moves[i], field))
      && (r.Ok? && |r.value| == 1 ==>
            exists i | 0 <= i < |moves| ::
              && Reaches(rules, pos, moves[i], field) && r.value == [rules.uci(moves[i])]
              && forall i' | 0 <= i' < i :: !Reaches(rules, pos, moves[i'], field))
      && (r.Ok? && |r.value| == 2 <==>
            && rules.boardFen(pos) != field && maxDepth > 1
            && (forall i | 0 <= i < |moves| :: !Reaches(rules, pos, moves[i], field))
            && exists i, j | 0 <= i < |moves| :: PairReaches(rules, pos, moves, field, i, j))
      && (r == Err(InvalidMove) <==>
            && rules.boardFen(pos) != field
            && (forall i | 0 <= i < |moves| :: !Reaches(rules, pos, moves[i], field))
            && (maxDepth <= 1 || forall i, j | 0 <= i < |moves| :: !PairReaches(rules, pos, moves, field, i, j)))
  {
    var field, moves := FirstWord(fen).value, rules.legal(pos);
    match FirstSingle(rules, pos, moves, field, 0)
    case Some(i) =>
    case None =>
      if maxDepth > 1 {
        match FirstPair(rules, pos, moves, field, 0)
        case Some((i, j)) =>
          assert PairReaches(rules, pos, moves, field, i, j);
        case None =>
      }
  }

  /** A pair is the first one in the search order. */
  lemma GetMovesFirstPair<Pos, Mv>(rules: Rules<Pos, Mv>, pos: Pos, fen: string, maxDepth: int, i: nat, j: nat)
    requires FirstWord(fen).Some?
    requires var field, moves := FirstWord(fen).value, rules.legal(pos);
      && i < |moves| && PairReaches(rules, pos, moves, field, i, j)
      && (forall i', j' | 0 <= i' < i :: !PairReaches(rules, pos, moves, field, i', j'))
      && (forall j' | 0 <= j' < j :: !PairReaches(rules, pos, moves, field, i, j'))
      && rules.boardFen(pos) != field && maxDepth > 1
      && forall k | 0 <= k < |moves| :: !Reaches(rules, pos, moves[k], field)
    ensures var moves := rules.legal(pos);
      GetMoves(rules, pos, fen, maxDepth)
        == Ok([rules.uci(moves[i]), rules.uci(Replies(rules, pos, moves, i)[j])])
  {
    var field, moves := FirstWord(fen).value, rules.legal(pos);
    var p := FirstPair(rules, pos, moves, field, 0);
    assert p.Some?;
    assert p.value == (i, j);
  }
}

/** The string heuristics `FEN2board` and `FENs2move` of `certabo/codes.py`: the player's
    pieces are picked out of two board texts, and the move between them is guessed from
    where the player's pieces disappeared and appeared. */
module FenHeuristics {
  import opened Wrappers
  import opened Text
  import Leds

  /** A square as `FEN2board` writes it: one of the player's piece letters, `-` for a
      vacant square, `*` for anything else (the opponent's pieces, unknown letters). */
  datatype Mark = Mine(piece: char) | Blank | Foreign

  function Pieces(white: bool): string
  {
    if white then "RBKNPQ" else "rbknpq"
  }

  /** The marks one character stands for; a digit 0..9 is that many vacant squares. */
  function CharMarks(c: char, pieces: string): seq<Mark>
  {
    if c in pieces then [Mine(c)]
    else if IsDigit(c) then seq(DigitValue(c), _ => Blank)
    else [Foreign]
  }

  /** The marks of one row of text, character by character. */
  function RowMarks(t: string, pieces: string): seq<Mark>
  {
    if |t| == 0 then [] else CharMarks(t[0], pieces) + RowMarks(t[1..], pieces)
  }

  /** The loop of `FEN2board` from character `s[0]` on, with the rows finished so far
      and the row being built. */
  function Fen2BoardFrom(s: string, pieces: string, board: seq<seq<Mark>>, row: seq<Mark>)
    : seq<seq<Mark>>
    decreases |s|
  {
    if |s| == 0 then board + [row]
    else
      var c := s[0];
      if c in pieces then Fen2BoardFrom(s[1..], pieces, board, row + [Mine(c)])
      else if c == '/' then Fen2BoardFrom(s[1..], pieces, board + [row], [])
      else if c == ' ' then board + [row]
      else if IsDigit(c) then Fen2BoardFrom(s[1..], pieces, board, row + seq(DigitValue(c), _ => Blank))
      else Fen2BoardFrom(s[1..], pieces, board, row + [Foreign])
  }

  /** `FEN2board(FEN_string, play_white)`. */
  function Fen2Board(s: string, white: bool): seq<seq<Mark>>
  {
    Fen2BoardFrom(s, Pieces(white), [], [])
  }

  /** The text before the first space. */
  function UpToSpace(s: string): (r: string)
    ensures ' ' !in r
  {
    if |s| == 0 || s[0] == ' ' then "" else [s[0]] + UpToSpace(s[1..])
  }

  function RowsMarks(parts: seq<string>, pieces: string): (rows: seq<seq<Mark>>)
    ensures |rows| == |parts|
  {
    seq(|parts|, k requires 0 <= k < |parts| => RowMarks(parts[k], pieces))
  }

  lemma RowsMarksCons(parts: seq<string>, pieces: string)
    requires |parts| >= 1
    ensures RowsMarks(parts, pieces) == [RowMarks(parts[0], pieces)] + RowsMarks(parts[1..], pieces)
  {
  }

  lemma {:induction false} Fen2BoardFromSplit(s: string, pieces: string, board: seq<seq<Mark>>, row: seq<Mark>)
    requires '/' !in pieces && ' ' !in pieces
    ensures var parts := Split(UpToSpace(s), '/');
      Fen2BoardFrom(s, pieces, board, row)
        == board + [row + RowMarks(parts[0], pieces)] + RowsMarks(parts[1..], pieces)
    decreases |s|
  {
    if |s| == 0 || s[0] == ' ' {
      assert Split(UpToSpace(s), '/') == [""];
      assert row + RowMarks("", pieces) == row;
    } else if s[0] == '/' {
      Fen2BoardFromSplit(s[1..], pieces, board + [row], []);
      SlashStep(s, pieces, board, row);
    } else {
      Fen2BoardFromSplit(s[1..], pieces, board, row + CharMarks(s[0], pieces));
      CharStep(s, pieces, board, row);
    }
  }

  lemma SlashStep(s: string, pieces: string, board: seq<seq<Mark>>, row: seq<Mark>)
    requires |s| > 0 && s[0] == '/' && '/' !in pieces
    requires var rest := Split(UpToSpace(s[1..]), '/');
      Fen2BoardFrom(s[1..], pieces, board + [row], [])
        == board + [row] + [[] + RowMarks(rest[0], pieces)] + RowsMarks(rest[1..], pieces)
    ensures var parts := Split(UpToSpace(s), '/');
      Fen2BoardFrom(s, pieces, board, row)
        == board + [row + RowMarks(parts[0], pieces)] + RowsMarks(parts[1..], pieces)
  {
    var rest := Split(UpToSpace(s[1..]), '/');
    var parts := Split(UpToSpace(s), '/');
    SplitAtSlash(s);
    SlashUnfold(s, pieces, board, row);
    RowsMarksCons(rest, pieces);
    RowsAppend(board, row, RowMarks(rest[0], pieces), RowsMarks(rest[1..], pieces));
    assert parts[1..] == rest;
    assert RowMarks(parts[0], pieces) == [];
  }

  lemma SlashUnfold(s: string, pieces: string, board: seq<seq<Mark>>, row: seq<Mark>)
    requires |s| > 0 && s[0] == '/' && '/' !in pieces
    ensures Fen2BoardFrom(s, pieces, board, row) == Fen2BoardFrom(s[1..], pieces, board + [row], [])
  {
  }

  lemma RowsAppend(board: seq<seq<Mark>>, row: seq<Mark>, first: seq<Mark>, others: seq<seq<Mark>>)
    ensures board + [row] + [[] + first] + others == board + [row + []] + ([first] + others)
  {
    assert [] + first == first;
    assert row + [] == row;
  }

  lemma SplitAtSlash(s: string)
    requires |s| > 0 && s[0] == '/'
    ensures Split(UpToSpace(s), '/') == [""] + Split(UpToSpace(s[1..]), '/')
  {
    var u := UpToSpace(s[1..]);
    var t := UpToSpace(s);
    assert t == ['/'] + u;
    assert t[1..] == u;
  }

  lemma CharStep(s: string, pieces: string, board: seq<seq<Mark>>, row: seq<Mark>)
    requires |s| > 0 && s[0] != '/' && s[0] != ' '
    requires var rest := Split(UpToSpace(s[1..]), '/');
      Fen2BoardFrom(s[1..], pieces, board, row + CharMarks(s[0], pieces))
        == board + [row + CharMarks(s[0], pieces) + RowMarks(rest[0], pieces)] + RowsMarks(rest[1..], pieces)
    ensures var parts := Split(UpToSpace(s), '/');
      Fen2BoardFrom(s, pieces, board, row)
        == board + [row + RowMarks(parts[0], pieces)] + RowsMarks(parts[1..], pieces)
  {
    var c := s[0];
    var rest := Split(UpToSpace(s[1..]), '/');
    var parts := Split(UpToSpace(s), '/');
    assert UpToSpace(s) == [c] + UpToSpace(s[1..]);
    assert parts == [[c] + rest[0]] + rest[1..];
    assert ([c] + rest[0])[1..] == rest[0];
    assert RowMarks([c] + rest[0], pieces) == CharMarks(c, pieces) + RowMarks(rest[0], pieces);
    assert row + CharMarks(c, pieces) + RowMarks(rest[0], pieces) == row + RowMarks([c] + rest[0], pieces);
    assert Fen2BoardFrom(s, pieces, board, row)
      == Fen2BoardFrom(s[1..], pieces, board, row + CharMarks(c, pieces));
  }

  /** `FEN2board` reads the text up to its first space as `/`-separated rows, each row
      character by character. */
  lemma Fen2BoardIsSplit(s: string, white: bool)
    ensures Fen2Board(s, white) == RowsMarks(Split(UpToSpace(s), '/'), Pieces(white))
  {
    var parts := Split(UpToSpace(s), '/');
    Fen2BoardFromSplit(s, Pieces(white), [], []);
    RowsMarksCons(parts, Pieces(white));
    var none: seq<seq<Mark>>, empty: seq<Mark> := [], [];
    var first := RowMarks(parts[0], Pieces(white));
    assert empty + first == first;
    assert none + [first] == [first];
  }

  /** A Python dict with string keys and values, in insertion order. */
  type Dict = seq<(char, string)>

  function Keys(d: Dict): (ks: seq<char>)
    ensures |ks| == |d| && forall k | 0 <= k < |d| :: ks[k] == d[k].0
  {
    seq(|d|, k requires 0 <= k < |d| => d[k].0)
  }

  predicate Distinct(ks: seq<char>)
  {
    forall a, b | 0 <= a < b < |ks| :: ks[a] != ks[b]
  }

  /** `d[key]`, `None` when absent. */
  function Get(d: Dict, key: char): (r: Option<string>)
    ensures r.None? <==> key !in Keys(d)
  {
    if |d| == 0 then None
    else if d[0].0 == key then Some(d[0].1)
    else Get(d[1..], key)
  }

  /** `d[key] = value`: an existing key keeps its place, a new key goes last. */
  function Put(d: Dict, key: char, value: string): (r: Dict)
    ensures key in Keys(d) ==> Keys(r) == Keys(d)
    ensures key !in Keys(d) ==> Keys(r) == Keys(d) + [key]
  {
    if |d| == 0 then [(key, value)]
    else
      KeysCons(d);
      if d[0].0 == key then
        var r := [(key, value)] + d[1..];
        KeysCons(r);
        r
      else
        var r := [d[0]] + Put(d[1..], key, value);
        KeysCons(r);
        r
  }

  /** After `d[key] = value` the key reads as the new value and every other key as
      before. */
  lemma {:induction false} PutGet(d: Dict, key: char, value: string, k: char)
    ensures Get(Put(d, key, value), k) == if k == key then Some(value) else Get(d, k)
  {
    if |d| > 0 {
      var r := Put(d, key, value);
      if d[0].0 == key {
        assert r[0] == (key, value) && r[1..] == d[1..];
      } else {
        PutGet(d[1..], key, value, k);
        assert r[0] == d[0] && r[1..] == Put(d[1..], key, value);
      }
    }
  }

  lemma KeysCons(d: Dict)
    requires |d| > 0
    ensures Keys(d) == [d[0].0] + Keys(d[1..])
  {
  }

  /** The square name `letter[j] + str(8 - i)` of cell `n = 8 * i + j`. */
  function SquareName(n: nat): (name: string)
    requires n < 64
    ensures |name| == 2 && name[1] == DigitChar(8 - n / 8)
  {
    [Leds.Files[n % 8], DigitChar(8 - n / 8)]
  }

  /** The dict the double loop builds, after the first `|hits|` cells: cell `n` with a hit
      `Some(c)` does `d[c] = name of cell n`. */
  function Track(hits: seq<Option<char>>): Dict
    requires |hits| <= 64
  {
    if |hits| == 0 then []
    else
      var d := Track(hits[..|hits| - 1]);
      match hits[|hits| - 1]
      case None => d
      case Some(c) => Put(d, c, SquareName(|hits| - 1))
  }

  /** The keys of `hits` in order of first occurrence. */
  function FirstOccurrences(hits: seq<Option<char>>): (ks: seq<char>)
    ensures forall c :: c in ks <==> Some(c) in hits
  {
    if |hits| == 0 then []
    else
      var ks := FirstOccurrences(hits[..|hits| - 1]);
      assert hits == hits[..|hits| - 1] + [hits[|hits| - 1]];
      match hits[|hits| - 1]
      case None => ks
      case Some(c) => if c in ks then ks else ks + [c]
  }

  /** The last cell holding a hit for `c`. */
  ghost predicate IsLastHit(hits: seq<Option<char>>, c: char, n: nat)
  {
    n < |hits| && hits[n] == Some(c) && forall n' | n < n' < |hits| :: hits[n'] != Some(c)
  }

  /** `d` holds each key of `hits` once, in order of first occurrence, with the name of
      the last cell that hit it. */
  ghost predicate Tracks(hits: seq<Option<char>>, d: Dict)
    requires |hits| <= 64
  {
    && Keys(d) == FirstOccurrences(hits)
    && (forall c :: Get(d, c).None? <==> Some(c) !in hits)
    && (forall c, n | IsLastHit(hits, c, n) :: Get(d, c) == Some(SquareName(n)))
  }

  /** The dict the loop builds is the one `Tracks` describes. */
  lemma {:induction false} TrackSpec(hits: seq<Option<char>>)
    requires |hits| <= 64
    ensures Keys(Track(hits)) == FirstOccurrences(hits)
    ensures forall c :: Get(Track(hits), c).None? <==> Some(c) !in hits
    ensures forall c, n | IsLastHit(hits, c, n) :: Get(Track(hits), c) == Some(SquareName(n))
  {
    if |hits| > 0 {
      var init, last := hits[..|hits| - 1], hits[|hits| - 1];
      TrackSpec(init);
      TrackSnoc(init, last);
      TrackStep(init, last, Track(init));
      HitsSnoc(hits);
    }
  }

  lemma HitsSnoc(hits: seq<Option<char>>)
    requires |hits| > 0
    ensures hits[..|hits| - 1] + [hits[|hits| - 1]] == hits
  {
  }

  /** One more cell: `Track` of the longer sequence, unfolded once. */
  lemma TrackSnoc(init: seq<Option<char>>, h: Option<char>)
    requires |init| < 64
    ensures Track(init + [h]) == match h
      case None => Track(init)
      case Some(c) => Put(Track(init), c, SquareName(|init|))
  {
    assert (init + [h])[..|init|] == init;
  }

  lemma FirstOccurrencesSnoc(init: seq<Option<char>>, h: Option<char>)
    ensures FirstOccurrences(init + [h]) == match h
      case None => FirstOccurrences(init)
      case Some(c) => if c in FirstOccurrences(init) then FirstOccurrences(init) else FirstOccurrences(init) + [c]
  {
    assert (init + [h])[..|init|] == init;
  }

  /** The step of the loop keeps the description: a cell without a hit changes nothing,
      and a hit for `c` records the cell's name under `c`. */
  lemma TrackStep(init: seq<Option<char>>, h: Option<char>, d: Dict)
    requires |init| < 64 && Tracks(init, d)
    ensures Tracks(init + [h], match h case None => d case Some(c) => Put(d, c, SquareName(|init|)))
  {
    match h
    case None => TrackStepNone(init, d);
    case Some(c) => TrackStepSome(init, c, d);
  }

  lemma TrackStepNone(init: seq<Option<char>>, d: Dict)
    requires |init| < 64 && Tracks(init, d)
    ensures Tracks(init + [None], d)
  {
    var hits := init + [None];
    FirstOccurrencesSnoc(init, None);
    forall k
      ensures Get(d, k).None? <==> Some(k) !in hits
    {
      assert Some(k) in hits <==> Some(k) in init;
    }
    forall k, n | IsLastHit(hits, k, n)
      ensures Get(d, k) == Some(SquareName(n))
    {
      LastHitOfInit(init, None, k, n);
    }
  }

  lemma TrackStepSome(init: seq<Option<char>>, c: char, d: Dict)
    requires |init| < 64 && Tracks(init, d)
    ensures Tracks(init + [Some(c)], Put(d, c, SquareName(|init|)))
  {
    FirstOccurrencesSnoc(init, Some(c));
    PutAbsent(init, c, d);
    PutLastHit(init, c, d);
  }

  lemma PutAbsent(init: seq<Option<char>>, c: char, d: Dict)
    requires |init| < 64
    requires forall k :: Get(d, k).None? <==> Some(k) !in init
    ensures var d' := Put(d, c, SquareName(|init|));
      forall k :: Get(d', k).None? <==> Some(k) !in init + [Some(c)]
  {
    var d' := Put(d, c, SquareName(|init|));
    forall k
      ensures Get(d', k).None? <==> Some(k) !in init + [Some(c)]
    {
      PutGet(d, c, SquareName(|init|), k);
      assert Some(k) in init + [Some(c)] <==> Some(k) in init || k == c;
    }
  }

  lemma PutLastHit(init: seq<Option<char>>, c: char, d: Dict)
    requires |init| < 64
    requires forall k, n | IsLastHit(init, k, n) :: Get(d, k) == Some(SquareName(n))
    ensures var d' := Put(d, c, SquareName(|init|));
      forall k, n | IsLastHit(init + [Some(c)], k, n) :: Get(d', k) == Some(SquareName(n))
  {
    var d' := Put(d, c, SquareName(|init|));
    forall k, n | IsLastHit(init + [Some(c)], k, n)
      ensures Get(d', k) == Some(SquareName(n))
    {
      PutGet(d, c, SquareName(|init|), k);
      if k != c {
        LastHitOfInit(init, Some(c), k, n);
      } else {
        LastHitIsNew(init, c, n);
      }
    }
  }

  /** The last hit of the new cell's key is the new cell. */
  lemma LastHitIsNew(init: seq<Option<char>>, c: char, n: nat)
    requires IsLastHit(init + [Some(c)], c, n)
    ensures n == |init|
  {
    var hits := init + [Some(c)];
    assert hits[|init|] == Some(c);
  }

  /** The last hit of a key other than the new cell's lies in the earlier cells. */
  lemma LastHitOfInit(init: seq<Option<char>>, h: Option<char>, k: char, n: nat)
    requires IsLastHit(init + [h], k, n) && h != Some(k)
    ensures IsLastHit(init, k, n)
  {
    var hits := init + [h];
    assert n != |init|;
    assert forall n' | n < n' < |init| :: init[n'] == hits[n'];
  }

  /** Why `FENs2move` fails: a row of one of the texts is too short or missing. */
  datatype HeuristicError = IndexError

  function At(board: seq<seq<Mark>>, i: nat, j: nat): Option<Mark>
  {
    if i < |board| && j < |board[i]| then Some(board[i][j]) else None
  }

  /** Every access of the double loop succeeds: each of the 64 squares of the current
      board, and the previous board's square wherever the current one is not `*` (only
      then do the two tests look at it). */
  predicate Accessible(prev: seq<seq<Mark>>, cur: seq<seq<Mark>>)
  {
    forall n | 0 <= n < 64 ::
      && At(cur, n / 8, n % 8).Some?
      && (At(cur, n / 8, n % 8) != Some(Foreign) ==> At(prev, n / 8, n % 8).Some?)
  }

  /** The first test: the square was emptied of one of the player's pieces. */
  function FromHit(prev: seq<seq<Mark>>, cur: seq<seq<Mark>>, n: nat): Option<char>
  {
    match (At(cur, n / 8, n % 8), At(prev, n / 8, n % 8))
    case (Some(Blank), Some(Mine(c))) => Some(c)
    case _ => None
  }

  /** The second test: one of the player's pieces stands where none of them stood. */
  function ToHit(prev: seq<seq<Mark>>, cur: seq<seq<Mark>>, n: nat): Option<char>
  {
    match (At(cur, n / 8, n % 8), At(prev, n / 8, n % 8))
    case (Some(Mine(c)), Some(m)) => if m.Mine? then None else Some(c)
    case _ => None
  }

  function FromHits(prev: seq<seq<Mark>>, cur: seq<seq<Mark>>): (hits: seq<Option<char>>)
    ensures |hits| == 64
  {
    seq(64, n requires 0 <= n < 64 => FromHit(prev, cur, n))
  }

  function ToHits(prev: seq<seq<Mark>>, cur: seq<seq<Mark>>): (hits: seq<Option<char>>)
    ensures |hits| == 64
  {
    seq(64, n requires 0 <= n < 64 => ToHit(prev, cur, n))
  }

  /** The first key other than `pawn`, in insertion order. */
  function FirstOtherKey(d: Dict, pawn: char): (r: Option<char>)
    ensures r.Some? ==> r.value != pawn && r.value in Keys(d)
    ensures r.None? <==> forall k | 0 <= k < |d| :: d[k].0 == pawn
  {
    if |d| == 0 then None
    else if d[0].0 != pawn then Some(d[0].0)
    else
      var r := FirstOtherKey(d[1..], pawn);
      assert Keys(d) == [d[0].0] + Keys(d[1..]);
      r
  }

  /** The `for key in p_from: if key in p_to` loop without `break`: the last key of
      `from`, in insertion order, that `to` also holds. */
  function LastCommonKey(from: Dict, to: Dict): (r: Option<char>)
    ensures r.Some? ==> r.value in Keys(from) && r.value in Keys(to)
    ensures r.None? <==> forall k | 0 <= k < |from| :: from[k].0 !in Keys(to)
  {
    if |from| == 0 then None
    else
      var init := from[..|from| - 1];
      var last := from[|from| - 1].0;
      assert Keys(from) == Keys(init) + [last];
      if last in Keys(to) then Some(last) else LastCommonKey(init, to)
  }

  /** The move text for `key` once both dicts are known to hold it. */
  function Joined(from: Dict, to: Dict, key: char): string
  {
    match (Get(from, key), Get(to, key))
    case (Some(a), Some(b)) => a + b
    case _ => ""
  }

  /** The decision of `FENs2move` once both dicts are built. A pawn that left the row
      before promotion (the 7th for white, the 2nd for black) together with any other piece
      of the player appearing is a promotion to that piece; else the king's move, if both
      its squares are known (`k` tested before `K`); else the last piece, in the order it
      was first seen leaving, that also appeared somewhere; else `""`. */
  function Guess(from: Dict, to: Dict, white: bool): string
  {
    var pawn, row := if white then 'P' else 'p', if white then '7' else '2';
    var promoted := match Get(from, pawn)
      case Some(sq) => if row in sq then FirstOtherKey(to, pawn) else None
      case None => None;
    if promoted.Some? then
      Get(from, pawn).value + Get(to, promoted.value).value + [promoted.value]
    else if Get(from, 'k').Some? && Get(to, 'k').Some? then Joined(from, to, 'k')
    else if Get(from, 'K').Some? && Get(to, 'K').Some? then Joined(from, to, 'K')
    else
      match LastCommonKey(from, to)
      case Some(key) => Joined(from, to, key)
      case None => ""
  }

  /** `FENs2move(FEN_prev, FEN, play_white)`. */
  function Fens2Move(prev: string, cur: string, white: bool): (r: Result<string, HeuristicError>)
    ensures r.Err? <==> !Accessible(Fen2Board(prev, white), Fen2Board(cur, white))
  {
    var bp, b := Fen2Board(prev, white), Fen2Board(cur, white);
    if !Accessible(bp, b) then Err(IndexError)
    else Ok(Guess(Track(FromHits(bp, b)), Track(ToHits(bp, b)), white))
  }

  /** Exactly one hit, `c` at cell `n`. */
  predicate SoleHit(hits: seq<Option<char>>, c: char, n: nat)
  {
    n < |hits| && hits[n] == Some(c) && forall n' | 0 <= n' < |hits| && n' != n :: hits[n'].None?
  }

  lemma {:induction false} SoleHitPrefix(hits: seq<Option<char>>, c: char, n: nat, k: nat)
    requires |hits| <= 64 && SoleHit(hits, c, n) && k <= |hits|
    ensures Track(hits[..k]) == if k <= n then [] else [(c, SquareName(n))]
  {
    if k > 0 {
      SoleHitPrefix(hits, c, n, k - 1);
      assert hits[..k][..k - 1] == hits[..k - 1];
      assert hits[..k][k - 1] == hits[k - 1];
    }
  }

  /** A single hit leaves a dict of one entry. */
  lemma SoleHitDict(hits: seq<Option<char>>, c: char, n: nat)
    requires |hits| <= 64 && SoleHit(hits, c, n)
    ensures Track(hits) == [(c, SquareName(n))]
  {
    SoleHitPrefix(hits, c, n, |hits|);
    assert hits[..|hits|] == hits;
  }

  /** With one piece leaving one square and appearing on one other, the guess is the
      move between the two. A pawn leaving its promotion row is no exception: with no
      other piece appearing, the promotion test finds nothing. */
  lemma GuessSingle(c: char, a: string, b: string, white: bool)
    ensures Guess([(c, a)], [(c, b)], white) == a + b
  {
    var from, to: Dict := [(c, a)], [(c, b)];
    assert FirstOtherKey(to, if white then 'P' else 'p').Some? ==> c != (if white then 'P' else 'p');
    assert from[1..] == [] && to[1..] == [];
    assert forall k :: Get(from, k) == if k == c then Some(a) else None;
    assert forall k :: Get(to, k) == if k == c then Some(b) else None;
    assert from[..|from| - 1] == [];
    assert Keys(to)[0] == c;
    assert LastCommonKey(from, to) == Some(c);
  }

  /** A plain move: one of the player's pieces left exactly one square and appeared on
      exactly one other; the guess is the move between those two squares. */
  lemma PlainMoveFound(prev: string, cur: string, white: bool, c: char, n1: nat, n2: nat)
    requires var bp, b := Fen2Board(prev, white), Fen2Board(cur, white);
      && Accessible(bp, b)
      && SoleHit(FromHits(bp, b), c, n1) && SoleHit(ToHits(bp, b), c, n2)
    ensures Fens2Move(prev, cur, white) == Ok(SquareName(n1) + SquareName(n2))
  {
    var bp, b := Fen2Board(prev, white), Fen2Board(cur, white);
    SoleHitDict(FromHits(bp, b), c, n1);
    SoleHitDict(ToHits(bp, b), c, n2);
    GuessSingle(c, SquareName(n1), SquareName(n2), white);
  }
}

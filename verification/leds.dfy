/** The LED messages (`move2led`, `move2ledbytes`, `diff2squareset` and
    `squareset2ledbytes` in `certabo/codes.py`).

    An LED message is eight bytes, one per board row from rank 8 down to rank 1; bit `f`
    of a byte lights the LED of file `f` (a = 0) in that row. A square of the chess library
    is numbered `8 * (rank - 1) + file` (a1 = 0, h8 = 63), so square `sq` is bit `sq % 8`
    of byte `7 - sq / 8`. */
module Leds {
  import opened Wrappers
  import opened Text
  import opened Signatures
  import opened BoardText

  function Pow2(n: nat): (r: nat)
    ensures r >= 1
  {
    if n == 0 then 1 else 2 * Pow2(n - 1)
  }

  /** Value of a bit sequence, least significant bit first. */
  function BitsValue(bits: seq<bool>): (v: nat)
    ensures v < Pow2(|bits|)
  {
    if |bits| == 0 then 0 else (if bits[0] then 1 else 0) + 2 * BitsValue(bits[1..])
  }

  /** Bit `f` of `x`, bit 0 being the least significant. */
  function TestBit(x: nat, f: nat): bool
  {
    if f == 0 then x % 2 == 1 else TestBit(x / 2, f - 1)
  }

  /** Each bit of the value is the bit of the sequence it came from. */
  lemma {:induction false} TestBitsValue(bits: seq<bool>, f: nat)
    requires f < |bits|
    ensures TestBit(BitsValue(bits), f) == bits[f]
  {
    if f > 0 {
      TestBitsValue(bits[1..], f - 1);
    }
  }

  lemma {:induction false} BitsValueAppend(a: seq<bool>, b: seq<bool>)
    ensures BitsValue(a + b) == BitsValue(a) + Pow2(|a|) * BitsValue(b)
  {
    if |a| > 0 {
      BitsValueAppend(a[1..], b);
      BitsValueFirst(a, b);
      Distribute(BitsValue(a[1..]), Pow2(|a| - 1), BitsValue(b));
    } else {
      assert a + b == b;
    }
  }

  /** The first bit of `a + b` is the first bit of `a`. */
  lemma BitsValueFirst(a: seq<bool>, b: seq<bool>)
    requires |a| > 0
    ensures BitsValue(a + b) == (if a[0] then 1 else 0) + 2 * BitsValue(a[1..] + b)
  {
    assert (a + b)[0] == a[0] && (a + b)[1..] == a[1..] + b;
  }

  lemma Distribute(x: nat, p: nat, y: nat)
    ensures 2 * (x + p * y) == 2 * x + (2 * p) * y
  {
  }

  /** `x.to_bytes(len, byteorder="big")`; a value that does not fit raises
      `OverflowError`, written `None`. */
  function ToBytesBig(x: nat, len: nat): (r: Option<seq<byte>>)
    ensures r.Some? <==> x < Pow2(8 * len)
    ensures r.Some? ==> |r.value| == len
  {
    if len == 0 then (if x == 0 then Some([]) else None)
    else
      assert Pow2(8 * len) == 256 * Pow2(8 * (len - 1)) by {
        Pow2Add(8, 8 * (len - 1));
      }
      match ToBytesBig(x / 256, len - 1)
      case None => None
      case Some(high) => Some(high + [x % 256])
  }

  lemma {:induction false} Pow2Add(a: nat, b: nat)
    ensures Pow2(a + b) == Pow2(a) * Pow2(b)
  {
    if a > 0 {
      Pow2Add(a - 1, b);
    }
  }

  /** `int.from_bytes(bytes, byteorder="big")`. */
  function FromBytesBig(bytes: seq<byte>): nat
  {
    if |bytes| == 0 then 0 else 256 * FromBytesBig(bytes[..|bytes| - 1]) + bytes[|bytes| - 1]
  }

  /** Reading the bytes back gives the number. */
  lemma {:induction false} BytesBigRoundTrip(x: nat, len: nat)
    requires x < Pow2(8 * len)
    ensures FromBytesBig(ToBytesBig(x, len).value) == x
  {
    if len > 0 {
      Pow2Add(8, 8 * (len - 1));
      BytesBigRoundTrip(x / 256, len - 1);
      var r := ToBytesBig(x, len).value;
      assert r[..|r| - 1] == ToBytesBig(x / 256, len - 1).value;
    }
  }

  /** A number whose low bits are `low` and whose higher bits are `high`, cut at a byte. */
  lemma ByteSplit(low: seq<bool>, high: seq<bool>)
    requires |low| == 8
    ensures BitsValue(low + high) % 256 == BitsValue(low)
    ensures BitsValue(low + high) / 256 == BitsValue(high)
  {
    BitsValueAppend(low, high);
    Pow2Eight();
    DivModByte(BitsValue(low), BitsValue(high));
  }

  lemma Pow2Eight()
    ensures Pow2(8) == 256
  {
  }

  lemma DivModByte(lo: nat, hi: nat)
    requires lo < 256
    ensures (lo + 256 * hi) % 256 == lo && (lo + 256 * hi) / 256 == hi
  {
  }

  /** Byte `k` of the big-endian bytes of a bit sequence holds the bits of the byte
      `len - 1 - k` counted from the least significant end. */
  lemma {:induction false} ToBytesBigBits(bits: seq<bool>, len: nat, k: nat)
    requires |bits| == 8 * len && k < len
    ensures BitsValue(bits) < Pow2(8 * len)
    ensures ToBytesBig(BitsValue(bits), len).value[k]
      == BitsValue(bits[8 * (len - 1 - k) .. 8 * (len - k)])
  {
    var low, high := bits[..8], bits[8..];
    assert bits == low + high;
    ByteSplit(low, high);
    var x := BitsValue(bits);
    ToBytesBigLast(x, len);
    if k < len - 1 {
      ToBytesBigBits(high, len - 1, k);
      var lo := 8 * (len - 2 - k);
      assert 8 + lo == 8 * (len - 1 - k) && 8 + lo + 8 == 8 * (len - k);
      SliceOfRest(bits, lo, lo + 8);
    }
  }

  /** The last byte is the value modulo 256, the others the bytes of the rest. */
  lemma ToBytesBigLast(x: nat, len: nat)
    requires len > 0 && x < Pow2(8 * len)
    ensures ToBytesBig(x / 256, len - 1).Some?
    ensures ToBytesBig(x, len).value == ToBytesBig(x / 256, len - 1).value + [x % 256]
  {
    Pow2Add(8, 8 * (len - 1));
    Pow2Eight();
  }

  lemma SliceOfRest(bits: seq<bool>, lo: nat, hi: nat)
    requires lo <= hi <= |bits| - 8
    ensures bits[8..][lo..hi] == bits[8 + lo..8 + hi]
  {
  }

  /** Chess-library square numbers: a1 = 0, b1 = 1, ..., h8 = 63. */
  predicate IsSquareSet(s: set<nat>)
  {
    forall sq | sq in s :: sq < 64
  }

  /** `int(squareset)`: bit `sq` of the 64-bit mask is set iff `sq` is in the set. */
  function Mask(s: set<nat>): (m: nat)
    ensures m < Pow2(64)
    ensures forall sq | 0 <= sq < 64 :: TestBit(m, sq) <==> sq in s
  {
    var bits := seq(64, sq requires 0 <= sq < 64 => sq in s);
    forall sq | 0 <= sq < 64
      ensures TestBit(BitsValue(bits), sq) <==> sq in s
    {
      TestBitsValue(bits, sq);
    }
    BitsValue(bits)
  }

  /** `squareset2ledbytes(squareset)`: the mask as eight bytes, most significant first. */
  function SquareSetToBytes(s: set<nat>): (r: seq<byte>)
    ensures |r| == 8
  {
    ToBytesBig(Mask(s), 8).value
  }

  /** The squares an LED message lights. */
  function LitSquares(bytes: seq<byte>): (s: set<nat>)
    requires |bytes| == 8
    ensures IsSquareSet(s)
  {
    set sq: nat | sq < 64 && TestBit(bytes[7 - sq / 8], sq % 8)
  }

  /** Square `sq` is bit `sq % 8` of byte `7 - sq / 8`. */
  lemma SquareSetToBytesBit(s: set<nat>, sq: nat)
    requires sq < 64
    ensures TestBit(SquareSetToBytes(s)[7 - sq / 8], sq % 8) <==> sq in s
  {
    var bits := seq(64, q requires 0 <= q < 64 => q in s);
    MaskBits(s, bits);
    BytesBit(bits, 8, sq);
  }

  lemma MaskBits(s: set<nat>, bits: seq<bool>)
    requires |bits| == 64 && forall q | 0 <= q < 64 :: bits[q] == (q in s)
    ensures Mask(s) == BitsValue(bits)
  {
    assert bits == seq(64, q requires 0 <= q < 64 => q in s);
  }

  /** Bit `sq` of a sequence of `len` bytes' worth of bits is bit `sq % 8` of byte
      `len - 1 - sq / 8` of its big-endian bytes. */
  lemma BytesBit(bits: seq<bool>, len: nat, sq: nat)
    requires |bits| == 8 * len && sq < 8 * len
    ensures BitsValue(bits) < Pow2(8 * len)
    ensures TestBit(ToBytesBig(BitsValue(bits), len).value[len - 1 - sq / 8], sq % 8) == bits[sq]
  {
    var r, f := sq / 8, sq % 8;
    var k := len - 1 - r;
    ToBytesBigBits(bits, len, k);
    var byteBits := bits[8 * r .. 8 * r + 8];
    TestBitsValue(byteBits, f);
  }

  /** The message lights exactly the squares of the set. */
  lemma SquareSetBytesLight(s: set<nat>)
    requires IsSquareSet(s)
    ensures LitSquares(SquareSetToBytes(s)) == s
  {
    forall sq: nat | sq < 64
      ensures sq in LitSquares(SquareSetToBytes(s)) <==> sq in s
    {
      SquareSetToBytesBit(s, sq);
    }
  }

  /** The empty set is eight zero bytes. */
  lemma EmptySquareSetBytes()
    ensures SquareSetToBytes({}) == [0, 0, 0, 0, 0, 0, 0, 0]
  {
    var none: set<nat> := {};
    var bits := seq(64, q requires 0 <= q < 64 => q in none);
    assert bits == seq(64, _ => false);
    ZeroBits(64);
    assert Mask(none) == 0;
    ZeroBytes(8);
    assert seq(8, _ => 0) == [0, 0, 0, 0, 0, 0, 0, 0];
  }

  lemma {:induction false} ZeroBytes(len: nat)
    ensures ToBytesBig(0, len) == Some(seq(len, _ => 0))
  {
    if len > 0 {
      ZeroBytes(len - 1);
      assert seq(len - 1, _ => 0) + [0] == seq(len, _ => 0);
    } else {
      assert seq(0, _ => 0) == [];
    }
  }

  lemma {:induction false} ZeroBits(n: nat)
    ensures BitsValue(seq(n, _ => false)) == 0
  {
    if n > 0 {
      ZeroBits(n - 1);
      assert seq(n, _ => false)[1..] == seq(n - 1, _ => false);
    }
  }

  /** The square of row `j` (rank `8 - j`) and column `i` of a board. */
  function SquareAt(board: seq<seq<Square>>, sq: nat): Square
    requires IsBoard(board) && sq < 64
  {
    board[7 - sq / 8][sq % 8]
  }

  /** The squares on which two boards differ. */
  function DiffSquares(b1: seq<seq<Square>>, b2: seq<seq<Square>>): (s: set<nat>)
    requires IsBoard(b1) && IsBoard(b2)
    ensures IsSquareSet(s)
    ensures forall sq | 0 <= sq < 64 :: sq in s <==> SquareAt(b1, sq) != SquareAt(b2, sq)
  {
    set sq: nat | sq < 64 && SquareAt(b1, sq) != SquareAt(b2, sq)
  }

  /** `diff2squareset(s1, s2)`: both board fields are read and compared square by
      square; a board field the reader rejects raises `ValueError`, written `None`. */
  function DiffSquareSet(s1: string, s2: string): (r: Option<set<nat>>)
    ensures r.Some? <==> ParseBoard(s1).Some? && ParseBoard(s2).Some?
    ensures r.Some? ==> r.value == DiffSquares(ParseBoard(s1).value, ParseBoard(s2).value)
  {
    match (ParseBoard(s1), ParseBoard(s2))
    case (Some(b1), Some(b2)) => Some(DiffSquares(b1, b2))
    case _ => None
  }

  /** The diff of two rendered board fields lights exactly the squares where the boards
      differ, and nothing when they are equal. */
  lemma DiffOfBoardFields(b1: seq<seq<Square>>, b2: seq<seq<Square>>)
    requires IsBoard(b1) && IsBoard(b2)
    ensures DiffSquareSet(BoardField(b1), BoardField(b2)) == Some(DiffSquares(b1, b2))
    ensures LitSquares(SquareSetToBytes(DiffSquares(b1, b2))) == DiffSquares(b1, b2)
    ensures b1 == b2 ==> SquareSetToBytes(DiffSquares(b1, b2)) == [0, 0, 0, 0, 0, 0, 0, 0]
  {
    BoardFieldReadsBack(b1);
    BoardFieldReadsBack(b2);
    SquareSetBytesLight(DiffSquares(b1, b2));
    if b1 == b2 {
      assert DiffSquares(b1, b2) == {};
      EmptySquareSetBytes();
    }
  }

  /** Why a move cannot be shown. */
  datatype LedError =
    | ShortMove     // `IndexError`: fewer than four characters
    | BadFile       // `ValueError` from `letter.index`: not a file letter a..h
    | BadRank       // `ValueError` from `int`: not a decimal digit
    | ByteOverflow  // `ValueError` from `bytearray.append`: a byte above 255

  const Files: string := "abcdefgh"

  /** `letter.index(c)`. */
  function FileIndex(c: char): (r: Result<nat, LedError>)
    ensures r.Ok? <==> c in Files
    ensures r.Ok? ==> r.value < 8 && Files[r.value] == c
  {
    if 'a' <= c <= 'h' then Ok(c as int - 'a' as int) else Err(BadFile)
  }

  /** `int(c)` for one character. */
  function RankDigit(c: char): (r: Result<int, LedError>)
    ensures r.Ok? <==> IsDigit(c)
    ensures r.Ok? ==> r.value == DigitValue(c) && 0 <= r.value <= 9
  {
    if IsDigit(c) then Ok(DigitValue(c)) else Err(BadRank)
  }

  /** What `move2led` returns: the target row and bit value, then the source row and bit
      value. A row is `8 - rank`, so it lies outside `0..7` for the ranks 0 and 9. */
  datatype LedTarget = LedTarget(row: int, value: nat, sourceRow: int, sourceValue: nat)

  /** `move2led(move, rotate180)`. Seen from the other side, the file index is counted
      from h (`reversed_letter`) and the rank is `9 - rank`. Characters are read in the
      order the source reads them: target file, target rank, source file, source rank. */
  function Move2Led(move: string, rotate: bool): (r: Result<LedTarget, LedError>)
    ensures r.Ok? ==> |move| >= 4
    ensures r.Ok? <==>
      && |move| >= 4
      && move[0] in Files && move[2] in Files && IsDigit(move[1]) && IsDigit(move[3])
  {
    if |move| < 3 then Err(ShortMove)
    else
      match FileIndex(move[2])
      case Err(e) => Err(e)
      case Ok(f) =>
        if |move| < 4 then Err(ShortMove)
        else
          match RankDigit(move[3])
          case Err(e) => Err(e)
          case Ok(rank) =>
            match FileIndex(move[0])
            case Err(e) => Err(e)
            case Ok(sf) =>
              match RankDigit(move[1])
              case Err(e) => Err(e)
              case Ok(srank) =>
                var i := if rotate then 7 - f else f;
                var j := if rotate then 9 - rank else rank;
                var k := if rotate then 7 - sf else sf;
                var l := if rotate then 9 - srank else srank;
                Ok(LedTarget(8 - j, Pow2(i), 8 - l, Pow2(k)))
  }

  /** Byte `j` of `move2ledbytes`: the target's value on its row, the source's on its
      row, their sum when the rows coincide. */
  function RowByte(t: LedTarget, j: nat): int
  {
    (if j == t.row then t.value else 0) + (if j == t.sourceRow then t.sourceValue else 0)
  }

  /** `move2ledbytes(move, rotate180)`; rows outside `0..7` are silently dropped. */
  function Move2LedBytes(move: string, rotate: bool): (r: Result<seq<byte>, LedError>)
    ensures r.Ok? ==> Move2Led(move, rotate).Ok? && |r.value| == 8
    ensures r.Ok? ==> forall j | 0 <= j < 8 :: r.value[j] == RowByte(Move2Led(move, rotate).value, j)
    ensures Move2Led(move, rotate).Err? ==> r == Err(Move2Led(move, rotate).error)
    ensures Move2Led(move, rotate).Ok? ==>
      (r.Ok? <==> forall j | 0 <= j < 8 :: RowByte(Move2Led(move, rotate).value, j) < 256)
  {
    match Move2Led(move, rotate)
    case Err(e) => Err(e)
    case Ok(t) => LedRows(t, 0, [])
  }

  /** The loop `for j in range(8)` of `move2ledbytes`, from row `j` on. */
  function LedRows(t: LedTarget, j: nat, acc: seq<byte>): (r: Result<seq<byte>, LedError>)
    requires j <= 8 && |acc| == j
    requires forall j' | 0 <= j' < j :: acc[j'] == RowByte(t, j')
    ensures r.Ok? ==> |r.value| == 8 && forall j' | 0 <= j' < 8 :: r.value[j'] == RowByte(t, j')
    ensures r.Ok? <==> forall j' | j <= j' < 8 :: RowByte(t, j') < 256
    decreases 8 - j
  {
    if j == 8 then Ok(acc)
    else
      var b := RowByte(t, j);
      if b < 256 then LedRows(t, j + 1, acc + [b]) else Err(ByteOverflow)
  }

  /** The chess-library square of a file letter and rank digit 1..8. */
  function SquareOf(file: char, rank: char): nat
    requires file in Files && '1' <= rank <= '8'
  {
    8 * (DigitValue(rank) - 1) + FileIndex(file).value
  }

  lemma Pow2Bit(f: nat, g: nat)
    requires f < 8 && g < 8
    ensures TestBit(Pow2(f), g) <==> f == g
  {
    MarkedValue(8, f, f);
    TestBitsValue(Marked(8, f, f), g);
  }

  /** The bits `0..n-1` with exactly bits `f` and `g` set (one bit when they coincide,
      none for a negative index). */
  function Marked(n: nat, f: int, g: int): (bits: seq<bool>)
    ensures |bits| == n && forall i | 0 <= i < n :: bits[i] == (i == f || i == g)
  {
    seq(n, i requires 0 <= i < n => i == f || i == g)
  }

  lemma MarkedTail(n: nat, f: int, g: int)
    requires n > 0
    ensures Marked(n, f, g)[1..] == Marked(n - 1, f - 1, g - 1)
  {
  }

  lemma {:induction false} MarkedValue(n: nat, f: int, g: int)
    requires f < n && g < n
    ensures BitsValue(Marked(n, f, g))
      == (if 0 <= f then Pow2(f) else 0) + (if 0 <= g && g != f then Pow2(g) else 0)
  {
    if n > 0 {
      MarkedValue(n - 1, f - 1, g - 1);
      MarkedTail(n, f, g);
    }
  }

  lemma TwoBits(f: nat, g: nat, h: nat)
    requires f < 8 && g < 8 && h < 8 && f != g
    ensures Pow2(f) + Pow2(g) < 256
    ensures TestBit(Pow2(f) + Pow2(g), h) <==> h == f || h == g
  {
    MarkedValue(8, f, g);
    TestBitsValue(Marked(8, f, g), h);
    assert Pow2(8) == 256;
  }

  /** The target and source rows and bit values of a move, in square numbers. */
  lemma Move2LedSquares(move: string, rotate: bool)
    requires |move| >= 4 && move[0] in Files && move[2] in Files
    requires '1' <= move[1] <= '8' && '1' <= move[3] <= '8'
    ensures Move2Led(move, rotate).Ok?
    ensures var t := Move2Led(move, rotate).value;
      var from, to := SquareOf(move[0], move[1]), SquareOf(move[2], move[3]);
      var target, source := if rotate then 63 - to else to, if rotate then 63 - from else from;
      && t.row == 7 - target / 8 && t.value == Pow2(target % 8)
      && t.sourceRow == 7 - source / 8 && t.sourceValue == Pow2(source % 8)
  {
  }

  /** The bytes of a target and source on two different squares light exactly those
      squares. */
  lemma RowBytesLight(t: LedTarget, target: nat, source: nat)
    requires target < 64 && source < 64 && target != source
    requires t.row == 7 - target / 8 && t.value == Pow2(target % 8)
    requires t.sourceRow == 7 - source / 8 && t.sourceValue == Pow2(source % 8)
    ensures LedRows(t, 0, []).Ok?
    ensures LitSquares(LedRows(t, 0, []).value) == {target, source}
  {
    forall j | 0 <= j < 8
      ensures RowByte(t, j) < 256
    {
      RowByteFits(t, target, source, j);
    }
    var bytes := LedRows(t, 0, []).value;
    forall sq: nat | sq < 64
      ensures sq in LitSquares(bytes) <==> sq == target || sq == source
    {
      assert bytes[7 - sq / 8] == RowByte(t, 7 - sq / 8);
      RowByteBit(t, target, source, sq);
    }
  }

  lemma Pow2Byte(f: nat)
    requires f < 8
    ensures Pow2(f) < 256
  {
    MarkedValue(8, f, f);
    assert Pow2(8) == 256;
  }

  lemma RowByteFits(t: LedTarget, target: nat, source: nat, j: nat)
    requires target < 64 && source < 64 && target != source
    requires t.row == 7 - target / 8 && t.value == Pow2(target % 8)
    requires t.sourceRow == 7 - source / 8 && t.sourceValue == Pow2(source % 8)
    ensures RowByte(t, j) < 256
  {
    Pow2Byte(target % 8);
    Pow2Byte(source % 8);
    if j == t.row && j == t.sourceRow {
      TwoBits(target % 8, source % 8, 0);
    }
  }

  lemma RowByteBit(t: LedTarget, target: nat, source: nat, sq: nat)
    requires target < 64 && source < 64 && target != source && sq < 64
    requires t.row == 7 - target / 8 && t.value == Pow2(target % 8)
    requires t.sourceRow == 7 - source / 8 && t.sourceValue == Pow2(source % 8)
    ensures TestBit(RowByte(t, 7 - sq / 8), sq % 8) <==> sq == target || sq == source
  {
    var j, f := 7 - sq / 8, sq % 8;
    if j == t.row && j == t.sourceRow {
      TwoBits(target % 8, source % 8, f);
    } else if j == t.row {
      Pow2Bit(target % 8, f);
    } else if j == t.sourceRow {
      Pow2Bit(source % 8, f);
    } else {
      ZeroTestBit(f);
    }
  }

  lemma DistinctSquares(move: string)
    requires |move| >= 4 && move[0] in Files && move[2] in Files
    requires '1' <= move[1] <= '8' && '1' <= move[3] <= '8'
    requires move[..2] != move[2..4]
    ensures SquareOf(move[0], move[1]) != SquareOf(move[2], move[3])
  {
    assert move[..2] == [move[0], move[1]] && move[2..4] == [move[2], move[3]];
  }

  /** A move between two different squares of the board lights exactly its two squares,
      in the numbering `squareset2ledbytes` uses; seen from the other side, their mirror
      images `63 - sq`. */
  lemma MoveLightsItsSquares(move: string, rotate: bool)
    requires |move| >= 4 && move[0] in Files && move[2] in Files
    requires '1' <= move[1] <= '8' && '1' <= move[3] <= '8'
    requires move[..2] != move[2..4]
    ensures Move2LedBytes(move, rotate).Ok?
    ensures LitSquares(Move2LedBytes(move, rotate).value)
      == Seen(SquareOf(move[0], move[1]), SquareOf(move[2], move[3]), rotate)
  {
    DistinctSquares(move);
    MoveRows(move, rotate);
    TargetLights(SquareOf(move[0], move[1]), SquareOf(move[2], move[3]), rotate);
  }

  /** Two squares as the board shows them: themselves, or seen from the other side their
      mirror images `63 - sq`. */
  function Seen(from: nat, to: nat, rotate: bool): (s: set<nat>)
    requires from < 64 && to < 64
    ensures !rotate ==> s == {from, to}
    ensures rotate ==> s == {63 - from, 63 - to}
  {
    if rotate then {63 - from, 63 - to} else {from, to}
  }

  /** The target `move2led` computes for a move between two squares, given as square
      numbers. */
  function TargetOf(from: nat, to: nat, rotate: bool): LedTarget
    requires from < 64 && to < 64
  {
    var target, source := if rotate then 63 - to else to, if rotate then 63 - from else from;
    LedTarget(7 - target / 8, Pow2(target % 8), 7 - source / 8, Pow2(source % 8))
  }

  lemma MoveRows(move: string, rotate: bool)
    requires |move| >= 4 && move[0] in Files && move[2] in Files
    requires '1' <= move[1] <= '8' && '1' <= move[3] <= '8'
    ensures Move2LedBytes(move, rotate)
      == LedRows(TargetOf(SquareOf(move[0], move[1]), SquareOf(move[2], move[3]), rotate), 0, [])
  {
    Move2LedSquares(move, rotate);
    Move2LedBytesRows(move, rotate);
  }

  /** The rows of a move from `from` to `to` light exactly those two squares. */
  lemma TargetLights(from: nat, to: nat, rotate: bool)
    requires from < 64 && to < 64 && from != to
    ensures LedRows(TargetOf(from, to, rotate), 0, []).Ok?
    ensures LitSquares(LedRows(TargetOf(from, to, rotate), 0, []).value) == Seen(from, to, rotate)
  {
    var target, source := if rotate then 63 - to else to, if rotate then 63 - from else from;
    RowBytesLight(TargetOf(from, to, rotate), target, source);
    PairSwap(target, source);
  }

  lemma Move2LedBytesRows(move: string, rotate: bool)
    requires Move2Led(move, rotate).Ok?
    ensures Move2LedBytes(move, rotate) == LedRows(Move2Led(move, rotate).value, 0, [])
  {
  }

  lemma PairSwap(a: nat, b: nat)
    ensures {a, b} == {b, a}
  {
  }

  lemma {:induction false} ZeroTestBit(f: nat)
    ensures !TestBit(0, f)
  {
    if f > 0 {
      ZeroTestBit(f - 1);
    }
  }
}

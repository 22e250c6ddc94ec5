/** The frame handler of the `Certabo` class (`handle_usb_data`,
    `calibrate_from_usb_data`, `diff_leds`, `has_user_move`, `new_game`), which
    `certabo/certabo.py` and `certabo-lichess.py` each carry a copy of. A call is a pure
    transition of the handler's state that also yields the LED messages it sends, in the
    order `send_leds` is called. */
module Handler {
  import opened Wrappers
  import opened Text
  import opened Signatures
  import Vote
  import Calibration
  import opened BoardText
  import opened Leds
  import Moves

  /** `usb_data_history_depth`. */
  const HistoryDepth: nat := 3

  /** The calibration sample count at which `calibrate_from_usb_data` calibrates. */
  const CalibrationSamples: nat := 15

  /** The default message of `send_leds`: every LED off. */
  const Dark: seq<byte> := [0, 0, 0, 0, 0, 0, 0, 0]

  /** The message of an odd calibration sample. */
  const Blink: seq<byte> := [0xff, 0xff, 0, 0, 0, 0, 0xff, 0xff]

  // ---------------------------------------------------------------------------
  // The history ring

  /** `usb_data_history` with `usb_data_history_i` and `usb_data_history_filled`. A slot
      still holding its `range(3)` placeholder is `None`. */
  datatype Ring = Ring(slots: seq<Option<Frame>>, index: nat, filled: bool)

  const EmptyRing: Ring := Ring([None, None, None], 0, false)

  /** What the handler keeps true of its history: three slots, an index of at most three,
      every slot below the index written, and every slot written once the ring is filled. */
  predicate ValidRing(r: Ring)
  {
    && |r.slots| == HistoryDepth && r.index <= HistoryDepth
    && (forall k | 0 <= k < r.index :: r.slots[k].Some?)
    && (r.filled ==> forall k | 0 <= k < HistoryDepth :: r.slots[k].Some?)
  }

  /** Recording one tracked frame: once the index has reached the depth the ring is marked
      filled and the index wraps to 0; the frame goes to the slot at the index, which then
      advances. */
  function Push(r: Ring, frame: Frame): (r': Ring)
    requires ValidRing(r)
    ensures ValidRing(r')
    ensures 1 <= r'.index <= HistoryDepth && r'.slots[r'.index - 1] == Some(frame)
    ensures forall k | 0 <= k < HistoryDepth && k != r'.index - 1 :: r'.slots[k] == r.slots[k]
    ensures r'.index == r.index % HistoryDepth + 1
    ensures r'.filled <==> r.filled || r.index == HistoryDepth
  {
    var (i, filled) := if r.index >= HistoryDepth then (0, true) else (r.index, r.filled);
    Ring(r.slots[i := Some(frame)], i + 1, filled)
  }

  /** The frames of a filled ring, slot by slot: the samples `statistic_processing` votes
      over. */
  function Frames(r: Ring): (frames: seq<Frame>)
    requires ValidRing(r) && r.filled
    ensures |frames| == HistoryDepth
    ensures forall k | 0 <= k < HistoryDepth :: r.slots[k] == Some(frames[k])
  {
    [r.slots[0].value, r.slots[1].value, r.slots[2].value]
  }

  /** The ring after the tracked frames `frames`, starting from the placeholders. */
  function History(frames: seq<Frame>): (r: Ring)
    ensures ValidRing(r)
  {
    if |frames| == 0 then EmptyRing
    else Push(History(frames[..|frames| - 1]), frames[|frames| - 1])
  }

  /** After `m` tracked frames the index is `(m - 1) % 3 + 1`, and the ring is filled
      exactly from the fourth frame on. */
  lemma {:induction false} HistoryFilled(frames: seq<Frame>)
    ensures var r, m := History(frames), |frames|;
      && r.index == (if m == 0 then 0 else (m - 1) % 3 + 1)
      && (r.filled <==> m >= 4)
  {
    var m := |frames|;
    if m > 0 {
      HistoryFilled(frames[..m - 1]);
    }
  }

  /** Frame `p` sits in slot `p % 3` while it is one of the last three, and slots not
      written yet still hold their placeholders. */
  lemma {:induction false} HistorySlots(frames: seq<Frame>)
    ensures var r, m := History(frames), |frames|;
      && (forall p | 0 <= p < m && m <= p + 3 :: r.slots[p % 3] == Some(frames[p]))
      && (forall k | m <= k < HistoryDepth :: r.slots[k].None?)
  {
    var m := |frames|;
    if m > 0 {
      var init, last := frames[..m - 1], frames[m - 1];
      HistorySlots(init);
      HistoryFilled(frames);
      SlotsStep(init, last, History(init), History(frames));
      Snoc(frames);
    }
  }

  /** Pushing frame number `|init|` puts it in slot `|init| % 3` and keeps the two frames
      before it. */
  lemma SlotsStep(init: seq<Frame>, last: Frame, r0: Ring, r: Ring)
    requires ValidRing(r0) && r == Push(r0, last) && r.index - 1 == |init| % 3
    requires forall p | 0 <= p < |init| && |init| <= p + 3 :: r0.slots[p % 3] == Some(init[p])
    requires forall k | |init| <= k < HistoryDepth :: r0.slots[k].None?
    ensures var frames, m := init + [last], |init| + 1;
      && (forall p | 0 <= p < m && m <= p + 3 :: r.slots[p % 3] == Some(frames[p]))
      && (forall k | m <= k < HistoryDepth :: r.slots[k].None?)
  {
    var frames, m := init + [last], |init| + 1;
    forall p | 0 <= p < m && m <= p + 3
      ensures r.slots[p % 3] == Some(frames[p])
    {
      if p < m - 1 {
        assert frames[p] == init[p];
        assert p % 3 != (m - 1) % 3;
      }
    }
  }

  /** Once three frames have been tracked, the slots hold exactly the last three of them. */
  lemma HistoryHoldsLastThree(frames: seq<Frame>)
    requires |frames| >= 3
    ensures var r := History(frames);
      forall k | 0 <= k < HistoryDepth ::
        exists p | |frames| - 3 <= p < |frames| :: r.slots[k] == Some(frames[p])
    ensures var r := History(frames);
      forall p | |frames| - 3 <= p < |frames| ::
        exists k | 0 <= k < HistoryDepth :: r.slots[k] == Some(frames[p])
  {
    HistorySlots(frames);
    var m := |frames|;
    var r := History(frames);
    forall k | 0 <= k < HistoryDepth
      ensures exists p | m - 3 <= p < m :: r.slots[k] == Some(frames[p])
    {
      var p := SlotFrame(m, k);
      assert r.slots[p % 3] == Some(frames[p]);
    }
  }

  /** The one of the last three frames that lands in slot `k`. */
  function SlotFrame(m: nat, k: nat): (p: nat)
    requires m >= 3 && k < 3
    ensures m - 3 <= p < m && p % 3 == k
  {
    m - 1 - (m - 1 - k) % 3
  }

  // ---------------------------------------------------------------------------
  // The handler state

  /** The fields of `Certabo` the handler reads or writes. The database is the twelve
      buckets `certabo/codes.py` keeps in module globals. */
  datatype Certabo<Pos> = Certabo(
    calibration: bool,    // `calibration`: frames go to calibration instead of tracking
    newSetup: bool,       // `new_setup`
    rotate: bool,         // `rotate180`
    db: Database,
    chessboard: Pos,      // the game position
    boardState: string,   // `board_state_usb`: the last board text read from the board
    phase: string,        // `mystate`
    samples: seq<Frame>,  // `calibration_samples`
    counter: nat,         // `calibration_samples_counter`
    ring: Ring)

  /** The state `Certabo.__init__` of `certabo/certabo.py` leaves, given the position of
      the starting FEN and the database `load_calibration` loaded. */
  function Init<Pos>(start: Pos, calibrate: bool, db: Database): (c: Certabo<Pos>)
    ensures ValidRing(c.ring) && c.ring == EmptyRing
    ensures c.calibration == calibrate && c.counter == 0 && c.samples == [] && c.boardState == ""
  {
    Certabo(calibrate, false, false, db, start, "", "init", [], 0, EmptyRing)
  }

  /** The state `Certabo.__init__` of `certabo-lichess.py` leaves: calibration is off and
      nothing in that file turns it on. */
  function LichessInit<Pos>(start: Pos, db: Database): (c: Certabo<Pos>)
    ensures !c.calibration && c.ring == EmptyRing && c.counter == 0
  {
    Init(start, false, db)
  }

  /** What one call does: the state after it, the LED messages it sent, and whether it
      ended in an exception (the state changes made before it stay). */
  datatype Outcome<Pos> = Outcome(after: Certabo<Pos>, sent: seq<seq<byte>>, raised: bool)

  // ---------------------------------------------------------------------------
  // LED messages

  /** `diff_leds()`: the message it sends. `None` stands for the exception
      `diff2squareset` raises when a board text does not read as a board. */
  function DiffLeds<Pos>(boardFen: Pos -> string, c: Certabo<Pos>): (r: Option<seq<byte>>)
    ensures var s1, s2 := boardFen(c.chessboard), Split(c.boardState, ' ')[0];
      && (s1 == s2 ==> r == Some(Dark))
      && (s1 != s2 ==> (r.Some? <==> ParseBoard(s1).Some? && ParseBoard(s2).Some?))
      && (s1 != s2 && r.Some? ==>
            |r.value| == 8 && LitSquares(r.value) == DiffSquares(ParseBoard(s1).value, ParseBoard(s2).value))
  {
    var s1, s2 := boardFen(c.chessboard), Split(c.boardState, ' ')[0];
    if s1 != s2 then
      match DiffSquareSet(s1, s2)
      case Some(squares) =>
        SquareSetBytesLight(squares);
        Some(SquareSetToBytes(squares))
      case None => None
    else Some(Dark)
  }

  /** The message lights exactly the squares on which the game and the board differ; with
      nothing changed every LED is off. */
  lemma DiffLedsLightsChanges<Pos>(boardFen: Pos -> string, c: Certabo<Pos>, game: seq<seq<Square>>, seen: seq<seq<Square>>)
    requires IsBoard(game) && IsBoard(seen)
    requires ParseBoard(boardFen(c.chessboard)) == Some(game)
    requires ParseBoard(Split(c.boardState, ' ')[0]) == Some(seen)
    ensures var r := DiffLeds(boardFen, c);
      r.Some? && |r.value| == 8 && LitSquares(r.value) == DiffSquares(game, seen)
    ensures game == seen ==> DiffLeds(boardFen, c) == Some(Dark)
  {
    var s1, s2 := boardFen(c.chessboard), Split(c.boardState, ' ')[0];
    var none: set<nat> := {};
    if s1 == s2 {
      EmptySquareSetBytes();
      SquareSetBytesLight(none);
      assert DiffSquares(game, seen) == none;
    } else if game == seen {
      assert DiffSquares(game, seen) == none;
      EmptySquareSetBytes();
    }
  }

  /** All-ones bits below `n`. */
  lemma {:induction false} LowBitsSet(n: nat, f: nat)
    requires f < n
    ensures TestBit(Pow2(n) - 1, f)
  {
    if f > 0 {
      LowBitsSet(n - 1, f - 1);
      assert (Pow2(n) - 1) / 2 == Pow2(n - 1) - 1;
    }
  }

  /** Square `sq` lies on rank 1, 2, 7 or 8. */
  predicate OnStartRanks(sq: nat)
  {
    sq < 16 || 48 <= sq
  }

  /** The calibration blink lights ranks 1, 2, 7 and 8: the squares the pieces stand on
      in the starting position. */
  lemma BlinkLightsStartSquares()
    ensures LitSquares(Blink) == set sq: nat | sq < 64 && OnStartRanks(sq)
  {
    assert Pow2(8) - 1 == 0xff;
    forall sq: nat | sq < 64
      ensures sq in LitSquares(Blink) <==> OnStartRanks(sq)
    {
      var byte := 7 - sq / 8;
      if sq < 16 || 48 <= sq {
        assert Blink[byte] == 0xff;
        LowBitsSet(8, sq % 8);
      } else {
        assert Blink[byte] == 0;
        ZeroTestBit(sq % 8);
      }
    }
  }

  // ---------------------------------------------------------------------------
  // The handler

  /** `calibrate_from_usb_data(usb_data)`: record the sample; from the fifteenth sample on,
      calibrate over all samples, leave calibration mode and turn the LEDs off; before
      that, blink on odd counts and go dark on even ones. */
  function CalibrateFromUsbData<Pos>(c: Certabo<Pos>, frame: Frame): (r: Outcome<Pos>)
    ensures r.after.samples == c.samples + [frame] && r.after.counter == c.counter + 1
    ensures r.after == c.(samples := r.after.samples, counter := r.after.counter,
                          db := r.after.db, calibration := r.after.calibration)
    ensures !r.raised && |r.sent| == 1
    ensures r.after.calibration <==> c.calibration && c.counter + 1 < CalibrationSamples
    ensures c.counter + 1 >= CalibrationSamples ==>
      && r.sent == [Dark]
      && r.after.db == Calibration.Calibrate(
           Vote.StatisticProcessingForCalibration(c.samples + [frame]).value, c.newSetup, c.db)
    ensures c.counter + 1 < CalibrationSamples ==>
      r.after.db == c.db && r.sent == [if (c.counter + 1) % 2 == 1 then Blink else Dark]
  {
    var samples, counter := c.samples + [frame], c.counter + 1;
    var c1 := c.(samples := samples, counter := counter);
    if counter >= CalibrationSamples then
      var data := Vote.StatisticProcessingForCalibration(samples).value;
      Outcome(c1.(db := Calibration.Calibrate(data, c.newSetup, c.db), calibration := false), [Dark], false)
    else if counter % 2 == 1 then Outcome(c1, [Blink], false)
    else Outcome(c1, [Dark], false)
  }

  /** The board text of the voted history, `""` when a cell cannot be read. */
  function ReadHistory(db: Database, r: Ring, rotate: bool): string
    requires ValidRing(r) && r.filled
  {
    UsbDataToFen(db, Vote.StatisticProcessing(db, Frames(r)).value, rotate)
  }

  /** `handle_usb_data` after the conversion to integers: calibration mode hands the frame
      to calibration; otherwise the frame enters the history, and once the history is
      filled the voted frame is read and, when it reads, becomes the board state and the
      difference to the game is shown. */
  function HandleFrame<Pos>(boardFen: Pos -> string, c: Certabo<Pos>, frame: Frame): (r: Outcome<Pos>)
    requires ValidRing(c.ring)
    ensures ValidRing(r.after.ring)
    ensures r.after.chessboard == c.chessboard && r.after.phase == c.phase
    ensures r.after.newSetup == c.newSetup && r.after.rotate == c.rotate
    ensures r.after.counter >= c.counter && c.samples <= r.after.samples
    ensures r.after.counter == c.counter + 1 || r.after.ring == Push(c.ring, frame)
  {
    if c.calibration then CalibrateFromUsbData(c, frame)
    else
      var ring := Push(c.ring, frame);
      var fen := if ring.filled then ReadHistory(c.db, ring, c.rotate) else "";
      var r := Track(boardFen, c, ring, fen);
      assert r.after.ring == ring;
      r
  }

  /** The tracking branch once the frame is in the ring; `fen` is the text read from the
      voted history, and is only looked at when the ring is filled. */
  function Track<Pos>(boardFen: Pos -> string, c: Certabo<Pos>, ring: Ring, fen: string): (r: Outcome<Pos>)
    ensures r.after == c.(ring := ring, boardState := r.after.boardState)
  {
    var c1 := c.(ring := ring);
    if !ring.filled || fen == "" then Outcome(c1, [], false)
    else
      var c2 := c1.(boardState := fen);
      match DiffLeds(boardFen, c2)
      case Some(message) => Outcome(c2, [message], false)
      case None => Outcome(c2, [], true)
  }

  /** What the tracking branch does for any text read from the history. */
  lemma TrackOutcome<Pos>(boardFen: Pos -> string, c: Certabo<Pos>, ring: Ring, fen: string)
    ensures var r := Track(boardFen, c, ring, fen);
      && r.after == c.(ring := ring, boardState := r.after.boardState)
      && (ring.filled && fen != "" ==>
            && r.after.boardState == fen
            && (r.raised <==> DiffLeds(boardFen, r.after).None?)
            && (!r.raised ==> r.sent == [DiffLeds(boardFen, r.after).value]))
      && (!ring.filled || fen == "" ==> r.after.boardState == c.boardState && r.sent == [] && !r.raised)
  {
  }

  /** In calibration mode a frame only feeds calibration: the history, its index and the
      board state stay as they were. */
  lemma CalibratingFrame<Pos>(boardFen: Pos -> string, c: Certabo<Pos>, frame: Frame)
    requires ValidRing(c.ring) && c.calibration
    ensures var r := HandleFrame(boardFen, c, frame);
      && r == CalibrateFromUsbData(c, frame)
      && r.after.ring == c.ring && r.after.boardState == c.boardState
  {
  }

  /** Tracking mode leaves calibration alone: the flag stays off and the samples, their
      count and the database are kept. */
  lemma TrackedFrameKeepsSamples<Pos>(boardFen: Pos -> string, c: Certabo<Pos>, frame: Frame)
    requires ValidRing(c.ring) && !c.calibration
    ensures var r := HandleFrame(boardFen, c, frame);
      && r.after.ring == Push(c.ring, frame) && !r.after.calibration
      && r.after.samples == c.samples && r.after.counter == c.counter && r.after.db == c.db
  {
  }

  /** Tracking mode: the frame enters the history and nothing of calibration changes; the
      board state changes only when the filled history reads as a board, and then it is
      that board's text and its difference to the game is sent; otherwise nothing is
      sent. */
  lemma TrackedFrame<Pos>(boardFen: Pos -> string, c: Certabo<Pos>, frame: Frame)
    requires ValidRing(c.ring) && !c.calibration
    ensures var r, ring := HandleFrame(boardFen, c, frame), Push(c.ring, frame);
      && r.after.ring == ring && !r.after.calibration
      && r.after.samples == c.samples && r.after.counter == c.counter && r.after.db == c.db
      && (ring.filled && ReadHistory(c.db, ring, c.rotate) != "" ==>
            && r.after.boardState == ReadHistory(c.db, ring, c.rotate)
            && (r.raised <==> DiffLeds(boardFen, r.after).None?)
            && (!r.raised ==> r.sent == [DiffLeds(boardFen, r.after).value]))
      && (!ring.filled || ReadHistory(c.db, ring, c.rotate) == "" ==>
            r.after.boardState == c.boardState && r.sent == [] && !r.raised)
  {
    var ring := Push(c.ring, frame);
    var fen := if ring.filled then ReadHistory(c.db, ring, c.rotate) else "";
    assert HandleFrame(boardFen, c, frame) == Track(boardFen, c, ring, fen);
    TrackOutcome(boardFen, c, ring, fen);
  }

  /** A board text the handler stores has the voted board as its first field. */
  lemma StoredFieldReadsBack(db: Database, data: Frame, rotate: bool)
    requires UsbDataToFen(db, data, rotate) != ""
    ensures var fen := UsbDataToFen(db, data, rotate);
      var b := ParseBoard(Split(fen, ' ')[0]);
      && b.Some?
      && forall j, i | 0 <= j < 8 && 0 <= i < 8 ::
           ReadCells(db, data)[if rotate then 63 - (8 * j + i) else 8 * j + i] == Some(b.value[j][i])
  {
    var fen := UsbDataToFen(db, data, rotate);
    UsbDataToFenReadsBack(db, data, rotate);
    var field := fen[..|fen| - |Tail|];
    ParsedHasNoSpace(field);
    assert fen == field + [' '] + Tail[1..];
    SplitAfterField(field, ' ', Tail[1..]);
  }

  /** A text that reads as a board holds no space. */
  lemma ParsedHasNoSpace(t: string)
    requires ParseBoard(t).Some?
    ensures ' ' !in t
  {
    var parts := Split(t, '/');
    forall k | 0 <= k < |parts|
      ensures ' ' !in parts[k]
    {
      forall i | 0 <= i < |parts[k]|
        ensures parts[k][i] != ' '
      {
        assert IsRowChar(parts[k][i]);
      }
    }
    JoinSplit(t, '/');
    JoinAvoids(parts, '/', ' ');
  }

  lemma {:induction false} JoinAvoids(parts: seq<string>, sep: char, c: char)
    requires c != sep && forall k | 0 <= k < |parts| :: c !in parts[k]
    ensures c !in Join(parts, sep)
  {
    if |parts| > 1 {
      JoinAvoids(parts[1..], sep, c);
    }
  }

  /** When a tracked frame makes the history read as a board, the handler stores that
      board and lights exactly the squares where it differs from the game. */
  lemma SuccessLightsChanges<Pos>(boardFen: Pos -> string, c: Certabo<Pos>, frame: Frame, game: seq<seq<Square>>)
    requires ValidRing(c.ring) && !c.calibration
    requires IsBoard(game) && ParseBoard(boardFen(c.chessboard)) == Some(game)
    requires var ring := Push(c.ring, frame); ring.filled && ReadHistory(c.db, ring, c.rotate) != ""
    ensures var r := HandleFrame(boardFen, c, frame);
      var voted := Vote.StatisticProcessing(c.db, Frames(r.after.ring)).value;
      var seen := ParseBoard(Split(r.after.boardState, ' ')[0]);
      && seen.Some?
      && (forall j, i | 0 <= j < 8 && 0 <= i < 8 ::
            ReadCells(c.db, voted)[if c.rotate then 63 - (8 * j + i) else 8 * j + i] == Some(seen.value[j][i]))
      && !r.raised && |r.sent| == 1 && |r.sent[0]| == 8
      && LitSquares(r.sent[0]) == DiffSquares(game, seen.value)
  {
    var r := HandleFrame(boardFen, c, frame);
    var ring := Push(c.ring, frame);
    var voted := Vote.StatisticProcessing(c.db, Frames(ring)).value;
    TrackedFrame(boardFen, c, frame);
    StoredFieldReadsBack(c.db, voted, c.rotate);
    var seen := ParseBoard(Split(r.after.boardState, ' ')[0]).value;
    DiffLedsLightsChanges(boardFen, r.after, game, seen);
  }

  /** Every one of the 320 fields is an integer text. */
  predicate AllIntegers(fields: seq<string>)
    requires |fields| == 320
  {
    forall i | 0 <= i < 320 :: ParseInt(fields[i]).Some?
  }

  /** `list(map(int, data.split(" ")))` on a line of 320 fields; `None` stands for the
      `ValueError` of a field that is not an integer. */
  function ParseFrame(data: string): (r: Option<Frame>)
    requires |Split(data, ' ')| == 320
    ensures r.Some? <==> AllIntegers(Split(data, ' '))
    ensures r.Some? ==> forall i | 0 <= i < 320 :: ParseInt(Split(data, ' ')[i]) == Some(r.value[i])
  {
    var fields := Split(data, ' ');
    if AllIntegers(fields) then
      Some(seq(320, i requires 0 <= i < 320 => ParseInt(fields[i]).value))
    else None
  }

  /** A frame written out as the board does: its numbers in decimal, separated by single
      spaces. */
  function FrameText(frame: Frame): string
  {
    Join(seq(320, i requires 0 <= i < 320 => IntToDecimal(frame[i])), ' ')
  }

  /** A frame written out as the board does parses back to itself. */
  lemma ParseFrameRoundTrip(frame: Frame)
    ensures var text := FrameText(frame);
      |Split(text, ' ')| == 320 && ParseFrame(text) == Some(frame)
  {
    var fields := seq(320, i requires 0 <= i < 320 => IntToDecimal(frame[i]));
    forall i | 0 <= i < 320
      ensures ' ' !in fields[i] && ParseInt(fields[i]) == Some(frame[i])
    {
      ParseIntRoundTrip(frame[i]);
      DecimalHasNoSpace(frame[i]);
    }
    var text := Join(fields, ' ');
    SplitJoin(fields, ' ');
    assert Split(text, ' ') == fields;
    assert AllIntegers(fields);
    var f := ParseFrame(text).value;
    assert forall i | 0 <= i < 320 :: f[i] == frame[i];
    assert f == frame;
  }

  lemma DecimalHasNoSpace(i: int)
    ensures ' ' !in IntToDecimal(i)
  {
    var t := IntToDecimal(i);
    var digits := NatToDecimal(if i < 0 then -i else i);
    assert t == digits || t == "-" + digits;
    assert forall k | 0 <= k < |digits| :: IsDigit(digits[k]);
  }

  /** `handle_usb_data(data)` for the lines the readers pass on (320 fields): a field that
      is not an integer raises before anything changes. */
  function HandleUsbData<Pos>(boardFen: Pos -> string, c: Certabo<Pos>, data: string): (r: Outcome<Pos>)
    requires ValidRing(c.ring) && |Split(data, ' ')| == 320
    ensures ValidRing(r.after.ring)
    ensures ParseFrame(data).None? ==> r.after == c && r.sent == [] && r.raised
    ensures ParseFrame(data).None? <==> r.after.counter == c.counter && r.after.ring == c.ring
  {
    match ParseFrame(data)
    case None => Outcome(c, [], true)
    case Some(frame) => HandleFrame(boardFen, c, frame)
  }

  // ---------------------------------------------------------------------------
  // Runs of frames

  /** Frames handled one after another; an exception in one call does not stop the next
      (both readers' handlers are called again on the next line). The messages are all
      those sent, in order. */
  function Run<Pos>(boardFen: Pos -> string, c: Certabo<Pos>, frames: seq<Frame>): (r: Outcome<Pos>)
    requires ValidRing(c.ring)
    ensures ValidRing(r.after.ring)
  {
    if |frames| == 0 then Outcome(c, [], false)
    else
      var prev := Run(boardFen, c, frames[..|frames| - 1]);
      var last := HandleFrame(boardFen, prev.after, frames[|frames| - 1]);
      Outcome(last.after, prev.sent + last.sent, prev.raised || last.raised)
  }

  /** Tracked frames from the initial history build exactly the ring `History` describes,
      and leave everything of calibration as it was. */
  lemma {:induction false} TrackedRunHistory<Pos>(boardFen: Pos -> string, c: Certabo<Pos>, frames: seq<Frame>)
    requires c.ring == EmptyRing && !c.calibration
    ensures var r := Run(boardFen, c, frames);
      && r.after.ring == History(frames) && !r.after.calibration
      && r.after.counter == c.counter && r.after.samples == c.samples && r.after.db == c.db
      && r.after.rotate == c.rotate
  {
    if |frames| > 0 {
      var init := frames[..|frames| - 1];
      TrackedRunHistory(boardFen, c, init);
      TrackedFrame(boardFen, Run(boardFen, c, init).after, frames[|frames| - 1]);
    }
  }

  /** No board text is read and no LED message sent for the first three tracked frames. */
  lemma {:induction false} FirstThreeFramesQuiet<Pos>(boardFen: Pos -> string, c: Certabo<Pos>, frames: seq<Frame>)
    requires c.ring == EmptyRing && !c.calibration && |frames| <= 3
    ensures var r := Run(boardFen, c, frames);
      r.after.boardState == c.boardState && r.sent == [] && !r.raised
  {
    if |frames| > 0 {
      var init := frames[..|frames| - 1];
      FirstThreeFramesQuiet(boardFen, c, init);
      TrackedRunHistory(boardFen, c, init);
      HistoryFilled(frames);
      TrackedFrame(boardFen, Run(boardFen, c, init).after, frames[|frames| - 1]);
    }
  }

  /** The fourth tracked frame is the first that reads the board: it stores the text read
      from the voted history whenever that text is not empty. */
  lemma FourthFrameReads<Pos>(boardFen: Pos -> string, c: Certabo<Pos>, frames: seq<Frame>)
    requires c.ring == EmptyRing && !c.calibration && |frames| == 4
    ensures History(frames).filled
    ensures var text := ReadHistory(c.db, History(frames), c.rotate);
      text != "" ==> Run(boardFen, c, frames).after.boardState == text
  {
    var init := frames[..3];
    TrackedRunHistory(boardFen, c, init);
    HistoryFilled(frames);
    TrackedFrame(boardFen, Run(boardFen, c, init).after, frames[3]);
  }

  /** The messages of calibration samples `from + 1` to `from + n`: a blink for every
      odd count and darkness for every even one. */
  function BlinkPattern(from: nat, n: nat): (r: seq<seq<byte>>)
    ensures |r| == n
    ensures forall i | 0 <= i < n :: r[i] == if (from + i + 1) % 2 == 1 then Blink else Dark
  {
    if n == 0 then [] else BlinkPattern(from, n - 1) + [if (from + n) % 2 == 1 then Blink else Dark]
  }

  /** A calibration session that stays below fifteen samples blinks on every odd count
      and goes dark on every even one, and changes nothing but the samples and the count. */
  lemma {:induction false} CalibrationBlinks<Pos>(boardFen: Pos -> string, c: Certabo<Pos>, frames: seq<Frame>)
    requires ValidRing(c.ring) && c.calibration && c.counter + |frames| < CalibrationSamples
    ensures var r := Run(boardFen, c, frames);
      && r.sent == BlinkPattern(c.counter, |frames|) && !r.raised
      && r.after.samples == c.samples + frames && r.after.counter == c.counter + |frames|
      && r.after.calibration && r.after.db == c.db && r.after.ring == c.ring
      && r.after.boardState == c.boardState && r.after.newSetup == c.newSetup
  {
    if |frames| > 0 {
      var init, last := frames[..|frames| - 1], frames[|frames| - 1];
      CalibrationBlinks(boardFen, c, init);
      var prev := Run(boardFen, c, init);
      CalibratingFrame(boardFen, prev.after, last);
      RunLast(boardFen, c, frames);
      BlinkStep(c, init, last, prev, HandleFrame(boardFen, prev.after, last));
      Snoc(frames);
    }
  }

  /** One more sample below fifteen extends the blink pattern by one message. */
  lemma BlinkStep<Pos>(c: Certabo<Pos>, init: seq<Frame>, last: Frame, prev: Outcome<Pos>, step: Outcome<Pos>)
    requires c.counter + |init| + 1 < CalibrationSamples
    requires && prev.sent == BlinkPattern(c.counter, |init|) && !prev.raised
      && prev.after.samples == c.samples + init && prev.after.counter == c.counter + |init|
      && prev.after.calibration && prev.after.db == c.db && prev.after.ring == c.ring
      && prev.after.boardState == c.boardState && prev.after.newSetup == c.newSetup
    requires step == CalibrateFromUsbData(prev.after, last)
    ensures var r := Outcome(step.after, prev.sent + step.sent, prev.raised || step.raised);
      && r.sent == BlinkPattern(c.counter, |init + [last]|) && !r.raised
      && r.after.samples == c.samples + (init + [last]) && r.after.counter == c.counter + |init + [last]|
      && r.after.calibration && r.after.db == c.db && r.after.ring == c.ring
      && r.after.boardState == c.boardState && r.after.newSetup == c.newSetup
  {
    BlinkPatternLast(c.counter, |init| + 1);
    assert c.samples + init + [last] == c.samples + (init + [last]);
  }

  /** A run is the run of all but the last frame followed by the last frame. */
  lemma RunLast<Pos>(boardFen: Pos -> string, c: Certabo<Pos>, frames: seq<Frame>)
    requires ValidRing(c.ring) && |frames| >= 1
    ensures var prev := Run(boardFen, c, frames[..|frames| - 1]);
      var last := HandleFrame(boardFen, prev.after, frames[|frames| - 1]);
      Run(boardFen, c, frames) == Outcome(last.after, prev.sent + last.sent, prev.raised || last.raised)
  {
  }

  lemma BlinkPatternLast(from: nat, n: nat)
    requires n >= 1
    ensures BlinkPattern(from, n) == BlinkPattern(from, n - 1) + [if (from + n) % 2 == 1 then Blink else Dark]
  {
  }

  lemma SamplesSnoc(samples: seq<Frame>, frames: seq<Frame>)
    requires |frames| >= 1
    ensures samples + frames[..|frames| - 1] + [frames[|frames| - 1]] == samples + frames
  {
    assert frames[..|frames| - 1] + [frames[|frames| - 1]] == frames;
  }

  lemma Whole(frames: seq<Frame>)
    ensures [] + frames == frames[..|frames|]
  {
  }

  lemma SamplesPrefix(frames: seq<Frame>, m: nat)
    requires m < |frames|
    ensures frames[..|frames| - 1][..m] == frames[..m]
  {
  }

  /** The sample that brings the count to fifteen completes the session. */
  lemma CalibrationCompletes<Pos>(boardFen: Pos -> string, c: Certabo<Pos>, frames: seq<Frame>)
    requires ValidRing(c.ring) && c.calibration && |frames| >= 1
    requires c.counter + |frames| == CalibrationSamples
    ensures var r := Run(boardFen, c, frames);
      && !r.after.calibration && r.after.counter == CalibrationSamples
      && r.after.samples == c.samples + frames && r.after.newSetup == c.newSetup
  {
    var init, last := frames[..|frames| - 1], frames[|frames| - 1];
    CalibrationBlinks(boardFen, c, init);
    CalibratingFrame(boardFen, Run(boardFen, c, init).after, last);
    SamplesSnoc(c.samples, frames);
  }

  /** The state a handler created in calibration mode reaches after `m` frames: it
      calibrates on the fifteenth and tracks from then on, keeping those fifteen samples. */
  lemma {:induction false} CalibrationPhases<Pos>(boardFen: Pos -> string, start: Pos, db: Database, frames: seq<Frame>)
    ensures var r := Run(boardFen, Init(start, true, db), frames);
      |frames| < CalibrationSamples ==>
        r.after.calibration && r.after.counter == |frames| && r.after.samples == frames
    ensures var r := Run(boardFen, Init(start, true, db), frames);
      |frames| >= CalibrationSamples ==>
        && !r.after.calibration && r.after.counter == CalibrationSamples
        && r.after.samples == frames[..CalibrationSamples]
    ensures !Run(boardFen, Init(start, true, db), frames).after.newSetup
  {
    var c := Init(start, true, db);
    var m := |frames|;
    if m < CalibrationSamples {
      CalibrationBlinks(boardFen, c, frames);
      assert [] + frames == frames;
    } else if m == CalibrationSamples {
      CalibrationCompletes(boardFen, c, frames);
      Whole(frames);
    } else {
      var init, last := frames[..m - 1], frames[m - 1];
      CalibrationPhases(boardFen, start, db, init);
      TrackedStep(boardFen, c, init, last);
      Snoc(frames);
      SamplesPrefix(frames, CalibrationSamples);
    }
  }

  /** A tracked frame after a run keeps the run's calibration state. */
  lemma TrackedStep<Pos>(boardFen: Pos -> string, c: Certabo<Pos>, init: seq<Frame>, last: Frame)
    requires ValidRing(c.ring) && !Run(boardFen, c, init).after.calibration
    ensures var r, p := Run(boardFen, c, init + [last]).after, Run(boardFen, c, init).after;
      !r.calibration && r.counter == p.counter && r.samples == p.samples && r.newSetup == p.newSetup
  {
    assert (init + [last])[..|init|] == init;
    TrackedFrameKeepsSamples(boardFen, Run(boardFen, c, init).after, last);
  }

  lemma Snoc(frames: seq<Frame>)
    requires |frames| >= 1
    ensures frames[..|frames| - 1] + [frames[|frames| - 1]] == frames
  {
  }

  /** The sample count and the samples are never reset: when calibration is switched on
      again after a completed session, its first sample already calibrates, over every
      sample of both sessions. */
  lemma SecondSessionCalibratesAtOnce<Pos>(boardFen: Pos -> string, start: Pos, db: Database, frames: seq<Frame>, frame: Frame)
    requires |frames| >= CalibrationSamples
    ensures var c := Run(boardFen, Init(start, true, db), frames).after.(calibration := true);
      var r := HandleFrame(boardFen, c, frame);
      && !r.after.calibration && r.sent == [Dark]
      && r.after.db == Calibration.Calibrate(
           Vote.StatisticProcessingForCalibration(frames[..CalibrationSamples] + [frame]).value, false, c.db)
  {
    CalibrationPhases(boardFen, start, db, frames);
    var c := Run(boardFen, Init(start, true, db), frames).after.(calibration := true);
    CalibratingFrame(boardFen, c, frame);
  }

  /** The handler of `certabo-lichess.py` never calibrates: its calibration flag starts
      off, so the samples stay empty and every frame is tracked. */
  lemma LichessNeverCalibrates<Pos>(boardFen: Pos -> string, start: Pos, db: Database, frames: seq<Frame>)
    ensures var r := Run(boardFen, LichessInit(start, db), frames);
      && !r.after.calibration && r.after.counter == 0 && r.after.samples == []
      && r.after.db == db && r.after.ring == History(frames)
  {
    TrackedRunHistory(boardFen, LichessInit(start, db), frames);
  }

  // ---------------------------------------------------------------------------
  // Game control

  /** `has_user_move()`: the moves that lead from the game to the board state, two plies
      deep at most; any failure of the search gives no moves. */
  function HasUserMove<Pos, Mv>(rules: Moves.Rules<Pos, Mv>, c: Certabo<Pos>): (moves: seq<string>)
    ensures Moves.GetMoves(rules, c.chessboard, c.boardState, 2).Err? ==> moves == []
    ensures Moves.GetMoves(rules, c.chessboard, c.boardState, 2).Ok? ==>
      moves == Moves.GetMoves(rules, c.chessboard, c.boardState, 2).value
  {
    match Moves.GetMoves(rules, c.chessboard, c.boardState, 2)
    case Ok(moves) => moves
    case Err(_) => []
  }

  /** No moves exactly when the board state has no first field, the board is unchanged,
      or neither a move nor a pair of moves reaches it; otherwise one or two moves. */
  lemma HasUserMoveEmpty<Pos, Mv>(rules: Moves.Rules<Pos, Mv>, c: Certabo<Pos>)
    ensures var moves := HasUserMove(rules, c);
      && (moves == [] <==>
            || FirstWord(c.boardState).None?
            || rules.boardFen(c.chessboard) == FirstWord(c.boardState).value
            || var field, legal := FirstWord(c.boardState).value, rules.legal(c.chessboard);
               && (forall i | 0 <= i < |legal| :: !Moves.Reaches(rules, c.chessboard, legal[i], field))
               && (forall i, j | 0 <= i < |legal| :: !Moves.PairReaches(rules, c.chessboard, legal, field, i, j)))
      && (moves != [] ==> |moves| == 1 || |moves| == 2)
  {
    if FirstWord(c.boardState).Some? {
      Moves.GetMovesOutcomes(rules, c.chessboard, c.boardState, 2);
    }
  }

  /** `new_game()`: back to the starting position and the `init` phase; the board side of
      the state is untouched. */
  function NewGame<Pos>(c: Certabo<Pos>, start: Pos): (r: Certabo<Pos>)
    ensures r.chessboard == start && r.phase == "init"
    ensures r.(chessboard := c.chessboard, phase := c.phase) == c
  {
    c.(chessboard := start, phase := "init")
  }
}

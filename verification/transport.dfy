/** The serial readers: `serialreader` of `certabo/serialreader.py` and the one defined
    inside `certabo-lichess.py`. Only their rules are modelled: which lines reach the
    handler, what reading does to the connection and to the outbound messages, the
    handshake order, the `send_led` guard and the port filter of `find_port`. The serial
    port is a parameter: the lines it delivers, how many steps of opening it succeed and
    which devices open. */
module Transport {
  import opened Wrappers
  import opened Text
  import opened Signatures
  import opened Handler

  // ---------------------------------------------------------------------------
  // ASCII

  predicate IsAscii(s: string)
  {
    forall i | 0 <= i < |s| :: s[i] as int < 128
  }

  /** `s.encode("ascii")` of an ASCII text. */
  function Encode(s: string): (raw: seq<byte>)
    requires IsAscii(s)
    ensures |raw| == |s| && forall i | 0 <= i < |s| :: raw[i] == s[i] as int
  {
    seq(|s|, i requires 0 <= i < |s| => s[i] as int)
  }

  /** `raw.decode("ascii")`; `None` stands for the `UnicodeDecodeError` a byte above 127
      raises. */
  function Decode(raw: seq<byte>): (r: Option<string>)
    ensures r.Some? <==> forall i | 0 <= i < |raw| :: raw[i] < 128
    ensures r.Some? ==> IsAscii(r.value) && Encode(r.value) == raw
  {
    if forall i | 0 <= i < |raw| :: raw[i] < 128 then
      Some(seq(|raw|, i requires 0 <= i < |raw| => raw[i] as char))
    else None
  }

  /** Decoding an encoded ASCII text gives it back. */
  lemma DecodeEncode(s: string)
    requires IsAscii(s)
    ensures Decode(Encode(s)) == Some(s)
  {
    var d := Decode(Encode(s));
    assert d.Some?;
    assert forall i | 0 <= i < |s| :: d.value[i] == s[i];
    assert d.value == s;
  }

  // ---------------------------------------------------------------------------
  // Line acceptance

  /** What a reader does with one line: it fails to decode, it is dropped, or its text is
      handed to the handler. */
  datatype LineResult = Undecodable | Dropped | Handled(text: string)

  /** The acceptance rule both readers share: decode as ASCII, drop the first character
      and the last three, and pass the rest on when it splits on single spaces into
      exactly 320 fields. */
  function ReadLine(raw: seq<byte>): (r: LineResult)
    ensures r.Undecodable? <==> Decode(raw).None?
    ensures r.Handled? ==> |Split(r.text, ' ')| == 320
  {
    match Decode(raw)
    case None => Undecodable
    case Some(line) =>
      var message := Payload(line);
      if |Split(message, ' ')| == 320 then Handled(message) else Dropped
  }

  /** A decodable line is handed on exactly when its inner text holds 319 spaces, and
      then the text is the line without its first character and last three. */
  lemma ReadLineAccepts(raw: seq<byte>)
    requires Decode(raw).Some?
    ensures var line := Decode(raw).value;
      && (ReadLine(raw).Handled? <==> |line| >= 4 && Occurrences(line[1..|line| - 3], ' ') == 319)
      && (ReadLine(raw).Handled? ==> ReadLine(raw).text == line[1..|line| - 3])
  {
    var line := Decode(raw).value;
    if |line| < 4 {
      assert Payload(line) == "";
      assert Occurrences("", ' ') == 0;
    }
  }

  lemma {:induction false} OccurrencesBound(s: string, c: char)
    ensures Occurrences(s, c) <= |s|
  {
    if |s| > 0 {
      OccurrencesBound(s[1..], c);
    }
  }

  /** A line shorter than 323 bytes cannot hold 320 fields and never reaches the handler. */
  lemma ShortLineNeverHandled(raw: seq<byte>)
    requires |raw| < 323
    ensures !ReadLine(raw).Handled?
  {
    if Decode(raw).Some? {
      var message := Payload(Decode(raw).value);
      OccurrencesBound(message, ' ');
    }
  }

  /** A frame framed as the board sends it, one character before and three after, reaches
      the handler as its text, which parses back to the frame. */
  lemma BoardLineHandled(frame: Frame, lead: char, tail: string)
    requires lead as int < 128 && |tail| == 3 && IsAscii(tail)
    ensures var line := [lead] + FrameText(frame) + tail;
      && IsAscii(line)
      && ReadLine(Encode(line)) == Handled(FrameText(frame))
      && ParseFrame(FrameText(frame)) == Some(frame)
  {
    var text := FrameText(frame);
    FrameTextAscii(frame);
    var line := [lead] + text + tail;
    assert IsAscii(line) by {
      forall i | 0 <= i < |line|
        ensures line[i] as int < 128
      {
        if 1 <= i < 1 + |text| {
          assert line[i] == text[i - 1];
        } else if i >= 1 + |text| {
          assert line[i] == tail[i - 1 - |text|];
        }
      }
    }
    DecodeEncode(line);
    assert Payload(line) == text;
    ParseFrameRoundTrip(frame);
  }

  lemma FrameTextAscii(frame: Frame)
    ensures IsAscii(FrameText(frame))
  {
    var parts := seq(320, i requires 0 <= i < 320 => IntToDecimal(frame[i]));
    forall k | 0 <= k < |parts|
      ensures IsAscii(parts[k])
    {
      DecimalAscii(frame[k]);
    }
    JoinAscii(parts, ' ');
  }

  lemma DecimalAscii(i: int)
    ensures IsAscii(IntToDecimal(i))
  {
    var digits := NatToDecimal(if i < 0 then -i else i);
    assert forall k | 0 <= k < |digits| :: IsDigit(digits[k]);
    if i < 0 {
      assert IntToDecimal(i) == "-" + digits;
    }
  }

  lemma {:induction false} JoinAscii(parts: seq<string>, sep: char)
    requires sep as int < 128 && forall k | 0 <= k < |parts| :: IsAscii(parts[k])
    ensures IsAscii(Join(parts, sep))
  {
    if |parts| > 1 {
      JoinAscii(parts[1..], sep);
      var rest := Join(parts[1..], sep);
      var joined := parts[0] + [sep] + rest;
      forall i | 0 <= i < |joined|
        ensures joined[i] as int < 128
      {
        if i < |parts[0]| {
          assert joined[i] == parts[0][i];
        } else if i > |parts[0]| {
          assert joined[i] == rest[i - |parts[0]| - 1];
        }
      }
    }
  }

  // ---------------------------------------------------------------------------
  // Reader of `certabo/serialreader.py`

  /** `send_led(message)`: the message is written only while connected, and the result is
      then the count `write` returns; otherwise nothing is written and the result is
      `None`. */
  function SendLed(connected: bool, written: seq<seq<byte>>, message: seq<byte>)
    : (r: (seq<seq<byte>>, Option<nat>))
    ensures r.1.Some? <==> connected
    ensures r.1.Some? ==> r.1.value == |message|
  {
    if connected then (written + [message], Some(|message|)) else (written, None)
  }

  /** `send_led` applied to each message in turn. */
  function SendAll(connected: bool, written: seq<seq<byte>>, messages: seq<seq<byte>>)
    : (r: seq<seq<byte>>)
  {
    if |messages| == 0 then written
    else SendLed(connected, SendAll(connected, written, messages[..|messages| - 1]), messages[|messages| - 1]).0
  }

  /** While connected every message goes out in order; otherwise none does. */
  lemma {:induction false} SendAllWrites(connected: bool, written: seq<seq<byte>>, messages: seq<seq<byte>>)
    ensures SendAll(connected, written, messages) == if connected then written + messages else written
  {
    if |messages| > 0 {
      var init := messages[..|messages| - 1];
      SendAllWrites(connected, written, init);
      assert init + [messages[|messages| - 1]] == messages;
    }
  }

  datatype PackageReader<Pos> = PackageReader(connected: bool, board: Certabo<Pos>, written: seq<seq<byte>>)

  /** One line of the inner loop of `run`: an exception from decoding or from the handler
      is caught for this line alone, and the handler's messages go through `send_led`. */
  function PackageLine<Pos>(boardFen: Pos -> string, s: PackageReader<Pos>, raw: seq<byte>)
    : (r: PackageReader<Pos>)
    requires ValidRing(s.board.ring)
    ensures ValidRing(r.board.ring)
    ensures r.connected == s.connected
    ensures !ReadLine(raw).Handled? ==> r == s
  {
    match ReadLine(raw)
    case Handled(text) =>
      var o := HandleUsbData(boardFen, s.board, text);
      s.(board := o.after, written := SendAll(s.connected, s.written, o.sent))
    case _ => s
  }

  /** Lines read one after another. */
  function PackageLines<Pos>(boardFen: Pos -> string, s: PackageReader<Pos>, lines: seq<seq<byte>>)
    : (r: PackageReader<Pos>)
    requires ValidRing(s.board.ring)
    ensures ValidRing(r.board.ring)
  {
    if |lines| == 0 then s
    else PackageLine(boardFen, PackageLines(boardFen, s, lines[..|lines| - 1]), lines[|lines| - 1])
  }

  /** No line, however malformed, disconnects this reader. */
  lemma {:induction false} PackageLinesKeepConnection<Pos>(boardFen: Pos -> string, s: PackageReader<Pos>, lines: seq<seq<byte>>)
    requires ValidRing(s.board.ring)
    ensures PackageLines(boardFen, s, lines).connected == s.connected
  {
    if |lines| > 0 {
      PackageLinesKeepConnection(boardFen, s, lines[..|lines| - 1]);
    }
  }

  /** The texts of the lines that reach the handler, in order. */
  function HandledTexts(lines: seq<seq<byte>>): (texts: seq<string>)
    ensures |texts| <= |lines|
    ensures forall i | 0 <= i < |texts| :: |Split(texts[i], ' ')| == 320
  {
    if |lines| == 0 then []
    else
      var texts := HandledTexts(lines[..|lines| - 1]);
      match ReadLine(lines[|lines| - 1])
      case Handled(text) => texts + [text]
      case _ => texts
  }

  /** The handler applied to texts in order, its messages collected. */
  function HandleTexts<Pos>(boardFen: Pos -> string, c: Certabo<Pos>, texts: seq<string>): (r: Outcome<Pos>)
    requires ValidRing(c.ring)
    requires forall i | 0 <= i < |texts| :: |Split(texts[i], ' ')| == 320
    ensures ValidRing(r.after.ring)
  {
    if |texts| == 0 then Outcome(c, [], false)
    else
      var prev := HandleTexts(boardFen, c, texts[..|texts| - 1]);
      var last := HandleUsbData(boardFen, prev.after, texts[|texts| - 1]);
      Outcome(last.after, prev.sent + last.sent, prev.raised || last.raised)
  }

  /** Reading interleaved with handling is the handler run over the accepted lines alone:
      while connected, the board state is the handler's and the messages written are all
      those it sent, in order. */
  lemma {:induction false} PackageLinesHandleAccepted<Pos>(boardFen: Pos -> string, s: PackageReader<Pos>, lines: seq<seq<byte>>)
    requires ValidRing(s.board.ring) && s.connected
    ensures var r, o := PackageLines(boardFen, s, lines), HandleTexts(boardFen, s.board, HandledTexts(lines));
      r.board == o.after && r.written == s.written + o.sent
  {
    if |lines| > 0 {
      var init, raw := lines[..|lines| - 1], lines[|lines| - 1];
      PackageLinesHandleAccepted(boardFen, s, init);
      PackageLinesKeepConnection(boardFen, s, init);
      PackageLineAccepted(boardFen, s, init, raw);
      LinesSnoc(lines);
    }
  }

  lemma LinesSnoc(lines: seq<seq<byte>>)
    requires |lines| >= 1
    ensures lines[..|lines| - 1] + [lines[|lines| - 1]] == lines
  {
  }

  /** The step of the lemma above: one more line. */
  lemma PackageLineAccepted<Pos>(boardFen: Pos -> string, s: PackageReader<Pos>, init: seq<seq<byte>>, raw: seq<byte>)
    requires ValidRing(s.board.ring)
    requires var p, o := PackageLines(boardFen, s, init), HandleTexts(boardFen, s.board, HandledTexts(init));
      p.connected && p.board == o.after && p.written == s.written + o.sent
    ensures var r, o := PackageLines(boardFen, s, init + [raw]), HandleTexts(boardFen, s.board, HandledTexts(init + [raw]));
      r.board == o.after && r.written == s.written + o.sent
  {
    PackageLinesSnoc(boardFen, s, init, raw);
    HandledTextsSnoc(init, raw);
    var texts := HandledTexts(init);
    if ReadLine(raw).Handled? {
      HandleTextsSnoc(boardFen, s.board, texts, ReadLine(raw).text);
      HandledLineStep(boardFen, PackageLines(boardFen, s, init), s.written, HandleTexts(boardFen, s.board, texts), raw);
    } else {
      assert HandledTexts(init + [raw]) == texts;
    }
  }

  lemma HandledLineStep<Pos>(boardFen: Pos -> string, p: PackageReader<Pos>, w: seq<seq<byte>>, prev: Outcome<Pos>, raw: seq<byte>)
    requires ValidRing(p.board.ring) && ReadLine(raw).Handled?
    requires p.connected && p.board == prev.after && p.written == w + prev.sent
    ensures var o := HandleUsbData(boardFen, prev.after, ReadLine(raw).text);
      var r := PackageLine(boardFen, p, raw);
      r.board == o.after && r.written == w + (prev.sent + o.sent)
  {
    var o := HandleUsbData(boardFen, p.board, ReadLine(raw).text);
    PackageLineHandled(boardFen, p, raw);
    SendAllWrites(true, p.written, o.sent);
    Associative(w, prev.sent, o.sent);
  }

  lemma PackageLineHandled<Pos>(boardFen: Pos -> string, p: PackageReader<Pos>, raw: seq<byte>)
    requires ValidRing(p.board.ring) && ReadLine(raw).Handled?
    ensures var o := HandleUsbData(boardFen, p.board, ReadLine(raw).text);
      PackageLine(boardFen, p, raw) == p.(board := o.after, written := SendAll(p.connected, p.written, o.sent))
  {
  }

  lemma Associative(a: seq<seq<byte>>, b: seq<seq<byte>>, c: seq<seq<byte>>)
    ensures a + (b + c) == a + b + c
  {
  }

  lemma PackageLinesSnoc<Pos>(boardFen: Pos -> string, s: PackageReader<Pos>, init: seq<seq<byte>>, raw: seq<byte>)
    requires ValidRing(s.board.ring)
    ensures PackageLines(boardFen, s, init + [raw]) == PackageLine(boardFen, PackageLines(boardFen, s, init), raw)
  {
    assert (init + [raw])[..|init|] == init;
  }

  lemma HandledTextsSnoc(init: seq<seq<byte>>, raw: seq<byte>)
    ensures HandledTexts(init + [raw]) == HandledTexts(init) + Accepted(raw)
  {
    assert (init + [raw])[..|init|] == init;
  }

  lemma HandleTextsSnoc<Pos>(boardFen: Pos -> string, c: Certabo<Pos>, texts: seq<string>, text: string)
    requires ValidRing(c.ring)
    requires forall i | 0 <= i < |texts| :: |Split(texts[i], ' ')| == 320
    requires |Split(text, ' ')| == 320
    ensures var prev := HandleTexts(boardFen, c, texts);
      var last := HandleUsbData(boardFen, prev.after, text);
      HandleTexts(boardFen, c, texts + [text]) == Outcome(last.after, prev.sent + last.sent, prev.raised || last.raised)
  {
    assert (texts + [text])[..|texts|] == texts;
  }

  // ---------------------------------------------------------------------------
  // Reader of `certabo-lichess.py`

  datatype LichessReader<Pos> = LichessReader(
    connected: bool,
    board: Certabo<Pos>,
    queue: seq<seq<byte>>,    // `serial_out`, oldest first: `send_led` only enqueues
    written: seq<seq<byte>>)

  /** What the inner `while uart.inWaiting()` loop leaves: the handler state, the messages
      the handler sent, and whether every line went through. A line that fails to decode
      or whose handler raises ends the loop. */
  datatype Drained<Pos> = Drained(after: Certabo<Pos>, sent: seq<seq<byte>>, ok: bool)

  function Drain<Pos>(boardFen: Pos -> string, c: Certabo<Pos>, lines: seq<seq<byte>>): (r: Drained<Pos>)
    requires ValidRing(c.ring)
    ensures ValidRing(r.after.ring)
    decreases |lines|
  {
    if |lines| == 0 then Drained(c, [], true)
    else
      match ReadLine(lines[0])
      case Undecodable => Drained(c, [], false)
      case Dropped => Drain(boardFen, c, lines[1..])
      case Handled(text) =>
        var o := HandleUsbData(boardFen, c, text);
        if o.raised then Drained(o.after, o.sent, false)
        else
          var rest := Drain(boardFen, o.after, lines[1..]);
          Drained(rest.after, o.sent + rest.sent, rest.ok)
  }

  /** One pass of the connected branch of `run`: the pending lines are read and handled,
      then at most one queued message, the oldest, is written. An exception while reading
      or handling skips the write and drops the connection; the queue keeps its
      messages. */
  function LichessPass<Pos>(boardFen: Pos -> string, s: LichessReader<Pos>, lines: seq<seq<byte>>)
    : (r: LichessReader<Pos>)
    requires ValidRing(s.board.ring)
    ensures ValidRing(r.board.ring)
    ensures r.connected <==> Drain(boardFen, s.board, lines).ok
    ensures r.board == Drain(boardFen, s.board, lines).after
    ensures r.written + r.queue == s.written + s.queue + Drain(boardFen, s.board, lines).sent
    ensures s.written <= r.written && |r.written| <= |s.written| + 1
    ensures !r.connected ==> r.written == s.written
  {
    var d := Drain(boardFen, s.board, lines);
    var queue := s.queue + d.sent;
    if !d.ok then LichessReader(false, d.after, queue, s.written)
    else if |queue| == 0 then LichessReader(true, d.after, queue, s.written)
    else
      assert s.written + queue == s.written + [queue[0]] + queue[1..];
      LichessReader(true, d.after, queue[1..], s.written + [queue[0]])
  }

  /** The message written is the oldest one queued before the pass. */
  lemma LichessWritesOldest<Pos>(boardFen: Pos -> string, s: LichessReader<Pos>, lines: seq<seq<byte>>)
    requires ValidRing(s.board.ring) && |s.queue| > 0
    ensures var r := LichessPass(boardFen, s, lines);
      r.connected ==> r.written == s.written + [s.queue[0]]
  {
  }

  /** A line that fails to decode, wherever it comes in a pass, drops the connection of
      the lichess reader and nothing is written in that pass. */
  lemma {:induction false} UndecodableLineDisconnects<Pos>(boardFen: Pos -> string, s: LichessReader<Pos>, lines: seq<seq<byte>>, k: nat)
    requires ValidRing(s.board.ring) && k < |lines| && Decode(lines[k]).None?
    ensures var r := LichessPass(boardFen, s, lines);
      !r.connected && r.written == s.written
  {
    DrainStopsAt(boardFen, s.board, lines, k);
  }

  lemma {:induction false} DrainStopsAt<Pos>(boardFen: Pos -> string, c: Certabo<Pos>, lines: seq<seq<byte>>, k: nat)
    requires ValidRing(c.ring) && k < |lines| && Decode(lines[k]).None?
    ensures !Drain(boardFen, c, lines).ok
    decreases k
  {
    if k > 0 {
      match ReadLine(lines[0])
      case Undecodable =>
      case Dropped =>
        DrainStopsAt(boardFen, c, lines[1..], k - 1);
      case Handled(text) =>
        var o := HandleUsbData(boardFen, c, text);
        if !o.raised {
          DrainStopsAt(boardFen, o.after, lines[1..], k - 1);
        }
    }
  }

  /** A handler exception on the first accepted line ends the drain. */
  lemma DrainStopsAtRaise<Pos>(boardFen: Pos -> string, c: Certabo<Pos>, lines: seq<seq<byte>>)
    requires ValidRing(c.ring) && |lines| > 0 && ReadLine(lines[0]).Handled?
    requires HandleUsbData(boardFen, c, ReadLine(lines[0]).text).raised
    ensures !Drain(boardFen, c, lines).ok
  {
  }

  /** With every line decodable, the inner loop of the lichess reader is the handler run
      over the accepted lines: it succeeds exactly when no handler call raises, and then
      leaves the handler's state and every message it sent, in order. */
  lemma {:induction false} DrainIsHandleTexts<Pos>(boardFen: Pos -> string, c: Certabo<Pos>, lines: seq<seq<byte>>)
    requires ValidRing(c.ring)
    requires forall i | 0 <= i < |lines| :: Decode(lines[i]).Some?
    ensures var d, o := Drain(boardFen, c, lines), HandleTexts(boardFen, c, HandledTexts(lines));
      (d.ok <==> !o.raised) && (d.ok ==> d.after == o.after && d.sent == o.sent)
    decreases |lines|
  {
    if |lines| > 0 {
      var tail := lines[1..];
      assert [lines[0]] + tail == lines;
      HandledTextsCons(lines[0], tail);
      assert forall i | 0 <= i < |tail| :: Decode(tail[i]).Some? by {
        forall i | 0 <= i < |tail| ensures Decode(tail[i]).Some? {
          assert tail[i] == lines[i + 1];
        }
      }
      assert Decode(lines[0]).Some?;
      match ReadLine(lines[0])
      case Undecodable =>
        assert false;
      case Dropped =>
        assert HandledTexts(lines) == HandledTexts(tail);
        DrainIsHandleTexts(boardFen, c, tail);
      case Handled(text) =>
        var texts := HandledTexts(tail);
        assert HandledTexts(lines) == [text] + texts;
        HandleTextsCons(boardFen, c, text, texts);
        var o0 := HandleUsbData(boardFen, c, text);
        if !o0.raised {
          DrainIsHandleTexts(boardFen, o0.after, tail);
        }
    }
  }

  /** A pass of the lichess reader over decodable lines stays connected exactly when no
      handler call raises, and then holds the handler's state and has queued or written
      every message it sent, in order. */
  lemma LichessPassHandlesAccepted<Pos>(boardFen: Pos -> string, s: LichessReader<Pos>, lines: seq<seq<byte>>)
    requires ValidRing(s.board.ring)
    requires forall i | 0 <= i < |lines| :: Decode(lines[i]).Some?
    ensures var r, o := LichessPass(boardFen, s, lines), HandleTexts(boardFen, s.board, HandledTexts(lines));
      (r.connected <==> !o.raised)
      && (r.connected ==> r.board == o.after && r.written + r.queue == s.written + s.queue + o.sent)
  {
    DrainIsHandleTexts(boardFen, s.board, lines);
    var d := Drain(boardFen, s.board, lines);
    var r := LichessPass(boardFen, s, lines);
    PassOfDrain(s, d, r, HandleTexts(boardFen, s.board, HandledTexts(lines)));
  }

  /** The step of the lemma above, over plain values. */
  lemma PassOfDrain<Pos>(s: LichessReader<Pos>, d: Drained<Pos>, r: LichessReader<Pos>, o: Outcome<Pos>)
    requires (r.connected <==> d.ok) && r.board == d.after
    requires r.written + r.queue == s.written + s.queue + d.sent
    requires (d.ok <==> !o.raised) && (d.ok ==> d.after == o.after && d.sent == o.sent)
    ensures r.connected <==> !o.raised
    ensures r.connected ==> r.board == o.after && r.written + r.queue == s.written + s.queue + o.sent
  {
  }

  lemma {:induction false} HandledTextsCons(raw: seq<byte>, rest: seq<seq<byte>>)
    ensures HandledTexts([raw] + rest) == Accepted(raw) + HandledTexts(rest)
    decreases |rest|
  {
    if |rest| == 0 {
      HandledTextsSingle(raw);
      assert [raw] + rest == [raw];
    } else {
      var init, last := rest[..|rest| - 1], rest[|rest| - 1];
      LinesSnoc(rest);
      HandledTextsCons(raw, init);
      HandledTextsConsStep(raw, init, last, rest);
    }
  }

  lemma HandledTextsSingle(raw: seq<byte>)
    ensures HandledTexts([raw]) == Accepted(raw)
  {
    HandledTextsSnoc([], raw);
    assert [] + [raw] == [raw];
  }

  lemma HandledTextsConsStep(raw: seq<byte>, init: seq<seq<byte>>, last: seq<byte>, rest: seq<seq<byte>>)
    requires rest == init + [last]
    requires HandledTexts([raw] + init) == Accepted(raw) + HandledTexts(init)
    ensures HandledTexts([raw] + rest) == Accepted(raw) + HandledTexts(rest)
  {
    assert ([raw] + init) + [last] == [raw] + rest;
    HandledTextsSnoc([raw] + init, last);
    HandledTextsSnoc(init, last);
    ConsStep(HandledTexts([raw] + rest), HandledTexts([raw] + init), HandledTexts(init),
      HandledTexts(rest), Accepted(raw), Accepted(last));
  }

  /** The texts one line hands to the handler: its inner text, or none. */
  function Accepted(raw: seq<byte>): (texts: seq<string>)
    ensures |texts| <= 1
  {
    if ReadLine(raw).Handled? then [ReadLine(raw).text] else []
  }

  /** The step of the lemma above, over plain sequences. */
  lemma ConsStep(all: seq<string>, front: seq<string>, middle: seq<string>, back: seq<string>, head: seq<string>, next: seq<string>)
    requires all == front + next && front == head + middle && back == middle + next
    ensures all == head + back
  {
  }

  /** `HandleTexts` unfolded from the front: the first text, then the rest from the state
      it leaves. */
  lemma {:induction false} HandleTextsCons<Pos>(boardFen: Pos -> string, c: Certabo<Pos>, text: string, rest: seq<string>)
    requires ValidRing(c.ring) && |Split(text, ' ')| == 320
    requires forall i | 0 <= i < |rest| :: |Split(rest[i], ' ')| == 320
    ensures var o := HandleUsbData(boardFen, c, text);
      var r := HandleTexts(boardFen, o.after, rest);
      HandleTexts(boardFen, c, [text] + rest) == Outcome(r.after, o.sent + r.sent, o.raised || r.raised)
    decreases |rest|
  {
    var o := HandleUsbData(boardFen, c, text);
    var all := [text] + rest;
    assert forall i | 0 <= i < |all| :: |Split(all[i], ' ')| == 320 by {
      forall i | 0 <= i < |all| ensures |Split(all[i], ' ')| == 320 {
        if i > 0 { assert all[i] == rest[i - 1]; }
      }
    }
    if |rest| == 0 {
      assert all[..0] == [];
      assert all[0] == text;
      assert o.sent + [] == [] + o.sent;
    } else {
      var init, last := rest[..|rest| - 1], rest[|rest| - 1];
      assert all[..|all| - 1] == [text] + init;
      assert all[|all| - 1] == last;
      HandleTextsCons(boardFen, c, text, init);
      var r0 := HandleTexts(boardFen, o.after, init);
      var step := HandleUsbData(boardFen, r0.after, last);
      assert HandleTexts(boardFen, o.after, rest) == Outcome(step.after, r0.sent + step.sent, r0.raised || step.raised);
      Associative(o.sent, r0.sent, step.sent);
    }
  }

  /** The same line leaves the reader of `certabo/serialreader.py` connected and its
      board state unchanged. */
  lemma UndecodableLineKeepsPackageReader<Pos>(boardFen: Pos -> string, s: PackageReader<Pos>, raw: seq<byte>)
    requires ValidRing(s.board.ring) && Decode(raw).None?
    ensures PackageLine(boardFen, s, raw) == s
  {
  }

  // ---------------------------------------------------------------------------
  // Connecting

  /** The three handshake writes, in order: `55 AA` four times, `AA 55` four times, and
      eight zero bytes. */
  const Handshake: seq<seq<byte>> := [
    [0x55, 0xaa, 0x55, 0xaa, 0x55, 0xaa, 0x55, 0xaa],
    [0xaa, 0x55, 0xaa, 0x55, 0xaa, 0x55, 0xaa, 0x55],
    [0, 0, 0, 0, 0, 0, 0, 0]]

  /** The outcome of the connect branch of `run`: whether `connected` became true and the
      messages written. */
  datatype Connection = Connection(connected: bool, written: seq<seq<byte>>)

  /** The connect branch of both readers, given how many of its four steps that can raise
      succeed: opening (with locking and flushing), then each of the three writes. An
      exception leaves `connected` false. */
  function Connect(steps: nat): (r: Connection)
    ensures r.connected <==> steps >= 4
    ensures r.written <= Handshake
    ensures r.connected ==> r.written == Handshake
    ensures !r.connected ==> |r.written| < |Handshake|
  {
    if steps >= 4 then Connection(true, Handshake)
    else Connection(false, Handshake[..if steps == 0 then 0 else steps - 1])
  }

  /** A later failure writes a longer prefix of the same handshake. */
  lemma ConnectPrefixes(a: nat, b: nat)
    requires a <= b
    ensures Connect(a).written <= Connect(b).written
  {
  }

  /** The handshake ends in the all-dark message the handler sends, and the connection is
      only made once it has all gone out. */
  lemma HandshakeEndsDark(steps: nat)
    ensures Connect(steps).connected ==> Connect(steps).written[2] == Dark
    ensures |Connect(steps).written| == 3 ==> Connect(steps).connected
  {
  }

  // ---------------------------------------------------------------------------
  // Finding the port

  /** The product and vendor identifiers `find_port` looks for. */
  const ProductId: int := 0xea60
  const VendorId: int := 0x10c4

  /** A listed port: its device name and its USB identifiers, absent for ports that are
      not USB devices. */
  datatype PortInfo = PortInfo(device: string, pid: Option<int>, vid: Option<int>)

  /** The two `continue` tests of `find_port`. */
  predicate Skipped(p: PortInfo)
  {
    Contains(Lower(p.device), "bluetooth") || (p.pid != Some(ProductId) && p.vid != Some(VendorId))
  }

  /** A port is tried exactly when its name does not mention bluetooth in any case and
      one of the two identifiers matches. */
  lemma TriedPorts(p: PortInfo)
    ensures !Skipped(p) <==>
      !Contains(Lower(p.device), "bluetooth") && (p.pid == Some(ProductId) || p.vid == Some(VendorId))
  {
  }

  /** Index of the first port, from `from` on, that is tried and opens. */
  function FirstOpen(ports: seq<PortInfo>, opens: string -> bool, from: nat): (r: Option<nat>)
    requires from <= |ports|
    ensures r.None? <==> forall i | from <= i < |ports| :: Skipped(ports[i]) || !opens(ports[i].device)
    ensures r.Some? ==> from <= r.value < |ports| && !Skipped(ports[r.value]) && opens(ports[r.value].device)
    ensures r.Some? ==> forall i | from <= i < r.value :: Skipped(ports[i]) || !opens(ports[i].device)
    decreases |ports| - from
  {
    if from == |ports| then None
    else if !Skipped(ports[from]) && opens(ports[from].device) then Some(from)
    else FirstOpen(ports, opens, from + 1)
  }

  /** `find_port()`: the device of the first listed port that is tried and opens, where
      `opens` says which devices are not busy. */
  function FindPort(ports: seq<PortInfo>, opens: string -> bool): (r: Option<string>)
    ensures r.None? <==> forall i | 0 <= i < |ports| :: Skipped(ports[i]) || !opens(ports[i].device)
    ensures r.Some? ==> opens(r.value)
  {
    match FirstOpen(ports, opens, 0)
    case Some(i) => Some(ports[i].device)
    case None => None
  }

  /** The port found never has bluetooth in its name and carries one of the two
      identifiers. */
  lemma FindPortFilters(ports: seq<PortInfo>, opens: string -> bool)
    ensures var r := FindPort(ports, opens);
      r.Some? ==> exists i | 0 <= i < |ports| ::
        && ports[i].device == r.value && !Contains(Lower(r.value), "bluetooth")
        && (ports[i].pid == Some(ProductId) || ports[i].vid == Some(VendorId))
  {
    var i := FirstOpen(ports, opens, 0);
    if i.Some? {
      TriedPorts(ports[i.value]);
    }
  }
}

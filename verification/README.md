# certabo board bridge — a Dafny model

This project models the core of the Certabo chessboard bridge. The Certabo board
reports, for each of its 64 squares, a five-channel RFID reading. A line of 320
integers arrives over a serial line. The bridge:

- looks each reading up in a database of known piece signatures;
- reconstructs a stable frame by majority vote over the last three frames;
- writes the board as the board field of a FEN text;
- lights the LEDs of the squares where the board and the game differ;
- infers the move that was played.

A calibration session on the starting position fills the signature database.

The model is functional. The signature database is one immutable value with twelve
buckets. The handler of the `Certabo` class is a state transition that returns the
LED messages it sends. The two serial readers are folds over the lines they read.
Chess rules are an abstract oracle.

Modules, one per concern:

- `Wrappers`: `Option` and `Result`.
- `Text`: the Python string operations the core relies on: `split`, `join`, slicing,
  `int()`, `str()`, ASCII `upper()` and `lower()`.
- `Signatures`: cell codes, the database, emptiness and the bucket lookup.
- `Vote`: the two majority votes.
- `Calibration`: bucket assignment from the starting position, and the merge with the
  previous database.
- `BoardText`: `usb_data_to_FEN`, checked against a reference reader of the board
  notation.
- `Leds`: `move2led`, `move2ledbytes`, `diff2squareset` and `squareset2ledbytes`.
- `Moves`: `get_moves` over a rules oracle.
- `FenHeuristics`: `FEN2board` and `FENs2move`.
- `Handler`: the `Certabo` handler of `certabo/certabo.py` and `certabo-lichess.py`.
- `Transport`: the pure rules of both serial readers: line acceptance, the LED guard
  and queue, the handshake and the port filter.
- `Utils`: `port2number`, `port2udp`, `coords_in` and `get_calibration_file_name`.

The bucket loops of the lookup (certabo/codes.py:87-122) have no `break`, so the
**last** matching bucket in the order p, P, r, R, n, N, b, B, q, Q, k, K wins, not the
first.

## Model

| member | source | states |
|---|---|---|
| Text.JoinSplit | certabo/codes.py:482 | joining the fields of `s.split(sep)` with `sep` gives `s` back, so splitting loses nothing |
| Text.SplitJoin | certabo/codes.py:482 | splitting a join of separator-free fields gives back exactly those fields |
| Text.ReverseFieldsIsReverse | certabo/codes.py:481-482 | reversing the order of the `/`-fields and reversing each field is the same as reversing the whole text |
| Text.Payload | certabo/serialreader.py:102 | `s[1:-3]` has length `len(s) - 4`, or 0 when the text has fewer than four characters |
| Text.ParseIntRoundTrip | certabo/certabo.py:108 | `int(str(i)) == i` for every integer |
| Text.FirstWord | certabo/codes.py:603 | `fen.split()[0]` fails exactly on blank text; otherwise it is a non-empty word without whitespace |
| Text.FirstWordOf | certabo/codes.py:603 | the first word of a word followed by a whitespace-led tail is that word |
| Signatures.CellCodes | certabo/codes.py:12-16 | channel `i` of cell `n` is integer `5n + i` of the frame |
| Signatures.CompareCells | certabo/codes.py:19-24 | two codes compare equal exactly when all five channels are equal, with no tolerance |
| Signatures.CellEmpty | certabo/codes.py:189-197 | a cell looks empty exactly when zero occurs more than twice among its channels |
| Signatures.ZeroCountIsMultiplicity | certabo/codes.py:189-197 | the channel-by-channel zero count equals the multiplicity of 0 in the code |
| Signatures.AnyMatch | certabo/codes.py:87-90 | a bucket loop finds a match exactly when the code is in the bucket |
| Signatures.ScanSpec | certabo/codes.py:87-122 | the chain of bucket loops keeps the initial answer when nothing matches; otherwise it answers a matching kind after which no kind in the order matches |
| Signatures.ScanByRank | certabo/codes.py:87-122 | over any order that lists each kind once at its rank, the scan keeps its start without a match and otherwise answers the last matching kind |
| Signatures.ScanOrderScan | certabo/codes.py:87-122 | over the scan order p, P, r, R, n, N, b, B, q, Q, k, K, the answer is the last matching kind |
| Signatures.GetName | certabo/codes.py:82-123 | a bucket match overrides emptiness and the last match wins; with no match the answer is `"-"` exactly for an empty-looking cell and `""` otherwise |
| Signatures.Lookup | certabo/codes.py:420-457 | the bucket scan of a non-empty cell gives a kind exactly when some bucket matches, and then the last match |
| Signatures.LastMatchUnique | certabo/codes.py:87-122 | the last match is unique, so the lookup is a function of the database and the code |
| Signatures.LookupSoleBucket | certabo/codes.py:82-123 | a code found in exactly one bucket reads as that bucket's kind |
| Vote.Count | certabo/codes.py:62-68 | a histogram entry is the multiplicity of the code among the readings |
| Vote.CountPair | certabo/codes.py:62-68 | two different codes together occur at most as often as there are readings |
| Vote.ArgMaxFirst | certabo/codes.py:70-71 | `index(max(h))` is the first index holding a maximal entry |
| Vote.Winner | certabo/codes.py:62-75 | the winning key is among the keys and is their first mode |
| Vote.FrameOf | certabo/codes.py:73-75 | the reassembled frame holds each cell's code at that cell |
| Vote.StatisticProcessingForCalibration | certabo/codes.py:50-79 | fails exactly when there are no samples; otherwise every cell holds a most frequent reading of that cell, the earliest on a tie |
| Vote.CalibrationOfIdenticalSamples | certabo/codes.py:50-79 | voting over copies of one frame gives that frame |
| Vote.KnownCell | certabo/codes.py:142-150 | an empty-looking reading is kept as itself; a non-zero reading becomes the zero code exactly when its name is `""`, and is otherwise kept |
| Vote.KnownCells | certabo/codes.py:141-151 | empty-looking readings stay in the pool as themselves; every pool entry is the zero code or a reading whose name is not `""`; a non-zero reading is replaced by the zero code exactly when its name is `""` |
| Vote.VoteCell | certabo/codes.py:165-177 | the chosen code is a first mode of the pool, counted against the original readings, and is the zero code or a reading whose name is not `""` |
| Vote.FirstModeMajority | certabo/codes.py:165-177 | a key holding a strict majority of the readings is the only possible first mode |
| Vote.VoteCellMajority | certabo/codes.py:141-177 | a reading whose name is not `""` and that holds a strict majority wins the cell |
| Vote.StatisticProcessing | certabo/codes.py:126-185 | returns `[]` exactly when there are no samples; every output cell is the zero code or one of its readings with a name other than `""` |
| Vote.MajorityWins | certabo/codes.py:126-185 | a reading whose name is not `""` and that holds a strict majority of a cell's samples is chosen for that cell |
| Calibration.PawnCodesCollected | certabo/codes.py:207-213 | the two pawn loops record what the starting-position reference records from the pawn rank on |
| Calibration.PawnBucketIsStart | certabo/codes.py:207-213 | p gets cells 8-15 except exact all-zero codes; P gets cells 48-55 except empty-looking ones |
| Calibration.PieceBucketIsStart | certabo/codes.py:215-234 | r, n, b, q, k come from cells 0-7 and R, N, B, Q, K from cells 56-63, exactly where the starting position puts them |
| Calibration.FreshIsStartPosition | certabo/codes.py:204-234 | each fresh bucket is the codes of the cells the starting position gives that kind, in cell order |
| Calibration.Missing | certabo/codes.py:254-266 | `add_new` appends exactly the previous codes equal to no new code, each with its previous multiplicity |
| Calibration.Merge | certabo/codes.py:254-281 | a merged bucket starts with the new codes, keeps every previous code, and holds nothing else |
| Calibration.Calibrate | certabo/codes.py:200-301 | with `new_setup` each bucket is the fresh one; otherwise it is the fresh one merged with the previous bucket |
| Calibration.CalibrationIsAdditive | certabo/codes.py:285-301 | without `new_setup`, a code known after one calibration is still known after the next |
| BoardText.ReadCell | certabo/codes.py:414-457 | a cell reads as vacant exactly when it looks empty, even if it matches a bucket; otherwise as the last matching kind, or unknown without a match |
| BoardText.Pending | certabo/codes.py:459-471 | no pending vacant squares write nothing; one to nine write their digit |
| BoardText.KindOfLetter | certabo/codes.py:422-457 | each kind's letter reads back as that kind |
| BoardText.ExpandReverse | certabo/codes.py:481-482 | a reversed rank text reads as the reversed squares |
| BoardText.ReverseValidRow | certabo/codes.py:481-482 | reversing a well-formed rank keeps it well formed |
| BoardText.RenderRowReadsBack | certabo/codes.py:409-475 | a rendered rank has no two adjacent digits, only letters and digits 1-8, and reads back as its eight squares |
| BoardText.Rotate | certabo/codes.py:481-482 | the rotated board has the square of cell `63 - n` at cell `n` |
| BoardText.BoardFieldReadsBack | certabo/codes.py:409-475 | the eight ranks joined by `/` read back as the board |
| BoardText.ReversedFieldReadsRotated | certabo/codes.py:481-482 | the reversed board field reads back as the rotated board |
| BoardText.ReadBoard | certabo/codes.py:409-468 | the board is missing exactly when some cell cannot be read; otherwise each square is its cell's reading |
| BoardText.UsbDataToFen | certabo/codes.py:404-487 | the text is `""` exactly when some non-empty cell matches no bucket |
| BoardText.UsbDataToFenReadsBack | certabo/codes.py:404-487 | a non-empty result ends in ` w KQkq - 0 1`, and its board field reads back as the frame's cells, cell `63 - n` in place of `n` when rotated |
| BoardText.RotatedCells | certabo/codes.py:481-482 | the rotated field names cell `63 - n` where the plain field names cell `n` |
| BoardText.RotatedFenIsReversed | certabo/codes.py:481-483 | with `rotate180` the text before the tail is the unrotated one reversed character by character |
| Leds.BitsValue | certabo/codes.py:402 | a bit sequence's value fits in that many bits |
| Leds.ToBytesBig | certabo/codes.py:402 | `to_bytes(len, "big")` succeeds exactly when the value fits in `8 * len` bits, and gives `len` bytes |
| Leds.BytesBigRoundTrip | certabo/codes.py:402 | reading the big-endian bytes back gives the number |
| Leds.ToBytesBigBits | certabo/codes.py:402 | byte `k` of the big-endian bytes holds bits `8(len-1-k)` and up |
| Leds.Mask | certabo/codes.py:402 | bit `sq` of `int(squareset)` is set exactly when `sq` is in the set |
| Leds.BytesBit | certabo/codes.py:402 | bit `sq` of a bit sequence is bit `sq % 8` of big-endian byte `len - 1 - sq / 8` |
| Leds.SquareSetToBytesBit | certabo/codes.py:400-402 | square `sq` is bit `sq % 8` of byte `7 - sq / 8` of the message |
| Leds.SquareSetBytesLight | certabo/codes.py:400-402 | the message lights exactly the squares of the set |
| Leds.EmptySquareSetBytes | certabo/codes.py:400-402 | the empty set is eight zero bytes |
| Leds.DiffSquares | certabo/codes.py:395-397 | a square is in the diff exactly when the two boards differ there |
| Leds.DiffSquareSet | certabo/codes.py:391-398 | the diff fails exactly when a text does not read as a board; otherwise it holds the squares where the boards differ |
| Leds.DiffOfBoardFields | certabo/codes.py:391-402 | the diff of two rendered board fields lights exactly the changed squares, and nothing for equal boards |
| Leds.FileIndex | certabo/codes.py:366-373 | `letter.index(c)` succeeds exactly for a..h and gives the position of the letter |
| Leds.RankDigit | certabo/codes.py:367-374 | `int(c)` on one character succeeds exactly for a decimal digit, and yields that digit's value |
| Leds.Move2Led | certabo/codes.py:364-375 | succeeds exactly when the move has at least four characters, with file letters at 0 and 2 and digits at 1 and 3 (so a promotion such as `e7e8q` succeeds) |
| Leds.LedRows | certabo/codes.py:379-389 | the row loop gives eight bytes, each the target's, the source's or their sum, and fails exactly when a byte exceeds 255 |
| Leds.Move2LedBytes | certabo/codes.py:377-389 | an error of `move2led` propagates; otherwise the bytes are the row bytes, and they fail exactly on a byte above 255 |
| Leds.Move2LedSquares | certabo/codes.py:364-375 | the rows and bit values are those of the source and target squares, mirrored as `63 - sq` when rotated |
| Leds.MoveLightsItsSquares | certabo/codes.py:364-389 | a move between two squares lights exactly those two squares, or their mirror images when rotated |
| Leds.TargetLights | certabo/codes.py:377-389 | the row bytes of a move between two different squares light exactly those squares, mirrored when rotated |
| Moves.FirstSingle | certabo/codes.py:610-615 | finds the first move in generation order whose result shows the field, or reports that none does |
| Moves.FirstPair | certabo/codes.py:616-626 | finds the first (move, reply) pair in search order that shows the field, or reports that none does |
| Moves.GetMoves | certabo/codes.py:595-628 | fails with no board field exactly when the text is blank |
| Moves.GetMovesOutcomes | certabo/codes.py:595-628 | `[]` exactly when the field is unchanged; one move, the first that reaches the field, exactly when one does; two moves only when none does and `max_depth > 1`; `InvalidMove` exactly when nothing within reach does |
| Moves.GetMovesFirstPair | certabo/codes.py:616-626 | the pair returned is the first pair in search order |
| FenHeuristics.Fen2BoardIsSplit | certabo/codes.py:494-520 | `FEN2board` is the text up to the first space, split at `/`, each row read character by character |
| FenHeuristics.Get | certabo/codes.py:552-555 | a lookup is missing exactly when the key is absent |
| FenHeuristics.Put | certabo/codes.py:552-555 | an assignment keeps an existing key in place or appends a new one at the end |
| FenHeuristics.PutGet | certabo/codes.py:552-555 | after an assignment the key reads as the new value and every other key as before |
| FenHeuristics.TrackSpec | certabo/codes.py:548-555 | each dict holds each key once, in order of first hit, with the name of the last square that hit it |
| FenHeuristics.FirstOtherKey | certabo/codes.py:571-574 | the first key other than the pawn, missing exactly when every key is the pawn |
| FenHeuristics.LastCommonKey | certabo/codes.py:583-585 | the last key of `p_from` that `p_to` also holds, missing exactly when there is none |
| FenHeuristics.Fens2Move | certabo/codes.py:523-588 | raises `IndexError` exactly when the boards do not give every square the loop reads |
| FenHeuristics.SoleHitDict | certabo/codes.py:548-555 | a single hit leaves a dict of one entry |
| FenHeuristics.GuessSingle | certabo/codes.py:557-588 | one piece leaving one square and appearing on another guesses the move between them, a pawn leaving its promotion row included, since no other piece appears |
| FenHeuristics.PlainMoveFound | certabo/codes.py:523-588 | when one piece left exactly one square and appeared on exactly one other, the move is those two square names, a pawn leaving its promotion row included |
| Handler.Push | certabo/certabo.py:112-117 | the frame lands in slot `index % 3`, no other slot changes, the index moves on cyclically, and the ring is filled once the index has reached three |
| Handler.Frames | certabo/certabo.py:119 | a filled ring holds three frames, slot by slot |
| Handler.HistoryFilled | certabo/certabo.py:112-118 | after `m` tracked frames the index is `(m - 1) % 3 + 1`, and the ring is filled exactly from the fourth frame on |
| Handler.HistorySlots | certabo/certabo.py:112-116 | frame `p` is in slot `p % 3` while it is one of the last three, and slots never written hold nothing |
| Handler.HistoryHoldsLastThree | certabo/certabo.py:112-116 | once three frames are tracked the slots hold exactly the last three |
| Handler.Init | certabo/certabo.py:30-49 | the handler starts with an empty ring, no samples, count zero and no board state |
| Handler.LichessInit | certabo-lichess.py:144-163 | the lichess handler starts with calibration off |
| Handler.DiffLeds | certabo/certabo.py:97-105 | equal board fields send eight zero bytes; otherwise the message fails exactly when a field does not read as a board, and else lights exactly the squares where they differ |
| Handler.DiffLedsLightsChanges | certabo/certabo.py:97-105 | for readable fields the message lights exactly the changed squares, and nothing when the boards agree |
| Handler.BlinkLightsStartSquares | certabo/certabo.py:139 | the blink message lights ranks 1, 2, 7 and 8 |
| Handler.CalibrateFromUsbData | certabo/certabo.py:127-141 | records the sample and counts it; from the fifteenth sample it calibrates over all samples, leaves calibration and sends dark; before that it blinks on odd counts and sends dark on even ones; nothing else changes |
| Handler.HandleFrame | certabo/certabo.py:109-125 | the game, phase, setup and rotation are untouched; a frame either feeds calibration or enters the ring |
| Handler.Track | certabo/certabo.py:111-125 | the tracking branch changes only the ring and the board state |
| Handler.TrackOutcome | certabo/certabo.py:111-125 | with a filled ring and a text that reads, the text becomes the board state and the LED difference is sent, or the exception is raised when it cannot be computed; otherwise nothing is stored or sent |
| Handler.CalibratingFrame | certabo/certabo.py:109-110 | in calibration mode the ring, its index and the board state stay as they were |
| Handler.TrackedFrameKeepsSamples | certabo/certabo.py:111-125 | a tracked frame keeps the calibration flag off and leaves the samples, the count and the setup as they were |
| Handler.TrackedFrame | certabo/certabo.py:111-125 | a tracked frame enters the ring; the board state changes and a message is sent only when the ring is filled and the voted frame reads as a board |
| Handler.StoredFieldReadsBack | certabo/certabo.py:121-123 | the first field of a stored board text reads back as the voted board |
| Handler.SuccessLightsChanges | certabo/certabo.py:118-125 | when the history reads as a board, that board is stored and the message lights exactly where it differs from the game |
| Handler.ParseFrame | certabo/certabo.py:108 | `map(int, data.split(" "))` succeeds exactly when every field is an integer, and gives those integers |
| Handler.ParseFrameRoundTrip | certabo/certabo.py:108 | a frame written as the board writes it has 320 fields and parses back to itself |
| Handler.HandleUsbData | certabo/certabo.py:107-125 | a non-integer field raises before anything changes; the count or ring changes exactly when the line parses |
| Handler.TrackedRunHistory | certabo/certabo.py:112-117 | tracked frames build exactly the ring their sequence describes and leave calibration untouched |
| Handler.FirstThreeFramesQuiet | certabo/certabo.py:112-118 | no board text is read and no message is sent for the first three tracked frames |
| Handler.FourthFrameReads | certabo/certabo.py:112-123 | the fourth tracked frame fills the ring and stores the voted text whenever it is not empty |
| Handler.BlinkPattern | certabo/certabo.py:138-141 | the message for sample `c` is the blink when `c` is odd and dark when it is even |
| Handler.CalibrationBlinks | certabo/certabo.py:127-141 | a calibration session below fifteen samples blinks on odd counts and goes dark on even ones, changing only the samples and the count |
| Handler.CalibrationCompletes | certabo/certabo.py:131-137 | the sample that brings the count to fifteen leaves calibration mode |
| Handler.CalibrationPhases | certabo/certabo.py:44-49 | a handler created in calibration mode calibrates on the fifteenth frame and tracks from then on, keeping those fifteen samples |
| Handler.TrackedStep | certabo/certabo.py:111-117 | a tracked frame after a finished session keeps the count and the samples |
| Handler.SecondSessionCalibratesAtOnce | certabo/certabo.py:128-134 | the count and the samples are never reset, so a second session calibrates on its first sample, over the old samples and the new one |
| Handler.LichessNeverCalibrates | certabo-lichess.py:147 | the lichess handler tracks every frame: no samples, count zero, database unchanged |
| Handler.HasUserMove | certabo/certabo.py:61-66 | any failure of the search gives `[]`; otherwise the moves it found |
| Handler.HasUserMoveEmpty | certabo/certabo.py:61-66 | no moves exactly when the text is blank, the board is unchanged, or no move or pair reaches the board; otherwise one or two moves |
| Handler.NewGame | certabo/certabo.py:86-88 | back to the starting position and the `init` phase; the board side is untouched |
| Transport.Encode | certabo/serialreader.py:102 | encoding ASCII text keeps every character's code as its byte |
| Transport.Decode | certabo/serialreader.py:102 | `decode("ascii")` fails exactly on a byte above 127, and otherwise inverts encoding |
| Transport.DecodeEncode | certabo/serialreader.py:102 | decoding the encoding of ASCII text gives the text |
| Transport.ReadLine | certabo/serialreader.py:100-106 | a line is undecodable exactly when its ASCII decoding fails, and a handled line has 320 fields |
| Transport.ReadLineAccepts | certabo/serialreader.py:102-106 | a decodable line is handled exactly when its text without the first character and the last three holds 319 spaces, and that text is what is handed on |
| Transport.ShortLineNeverHandled | certabo-lichess.py:125-130 | a line shorter than 323 bytes never reaches the handler |
| Transport.BoardLineHandled | certabo/serialreader.py:100-106 | a frame framed by one leading and three trailing characters is handed on as its text and parses back to itself |
| Transport.SendLed | certabo/serialreader.py:59-63 | a message is written exactly when connected, and the call then returns its length |
| Transport.SendAllWrites | certabo/serialreader.py:59-63 | while connected every message goes out in order; otherwise none does |
| Transport.PackageLine | certabo/serialreader.py:100-109 | an exception on a line is caught there: the connection is kept, and a line that is not handed on changes nothing |
| Transport.PackageLinesKeepConnection | certabo/serialreader.py:97-109 | no sequence of lines changes the connection flag |
| Transport.HandledTexts | certabo/serialreader.py:105 | the lines handed on are at most the lines read, and each has 320 fields |
| Transport.PackageLinesHandleAccepted | certabo/serialreader.py:97-109 | reading interleaved with handling is the handler run over the accepted lines alone, with every message it sends written in order |
| Transport.UndecodableLineKeepsPackageReader | certabo/serialreader.py:101-109 | an undecodable line leaves that reader connected and unchanged |
| Transport.Drain | certabo-lichess.py:123-131 | the handler's history ring stays well formed through the inner loop, however it ends |
| Transport.DrainIsHandleTexts | certabo-lichess.py:123-131 | with every line decodable, the inner loop succeeds exactly when no handler call on an accepted line raises, and then leaves the handler's state and all its messages in order |
| Transport.DrainStopsAtRaise | certabo-lichess.py:123-131 | a handler exception on an accepted line ends the inner loop with a failure |
| Transport.LichessPassHandlesAccepted | certabo-lichess.py:122-140 | over decodable lines a pass stays connected exactly when no handler call raises, and then holds the handler's state with every message it sent queued or written, in order |
| Transport.LichessPass | certabo-lichess.py:122-140 | the flag stays set exactly when the drain succeeds, and the handler state is the one the drain leaves; at most one queued message is written; written plus queued grows by exactly the messages sent, in order |
| Transport.LichessWritesOldest | certabo-lichess.py:133-137 | the message written is the oldest queued before the pass |
| Transport.UndecodableLineDisconnects | certabo-lichess.py:125-140 | an undecodable line anywhere in a pass drops the connection and writes nothing |
| Transport.DrainStopsAt | certabo-lichess.py:123-131 | an undecodable line makes the inner loop fail |
| Transport.Connect | certabo/serialreader.py:67-95 | connected exactly when all steps succeed; the writes are then the whole handshake, and otherwise a proper prefix of it |
| Transport.ConnectPrefixes | certabo/serialreader.py:86-91 | a later failure writes a longer prefix of the same handshake |
| Transport.HandshakeEndsDark | certabo/serialreader.py:86-91 | the handshake ends with eight zero bytes, and all three writes imply a connection |
| Transport.TriedPorts | certabo/serialreader.py:29-33 | a port is tried exactly when its name has no "bluetooth" in any case and one of its two IDs matches |
| Transport.FirstOpen | certabo/serialreader.py:27-46 | the first port in listing order that is tried and opens, or none |
| Transport.FindPort | certabo/serialreader.py:25-49 | finds a port exactly when some listed port is tried and opens, and the port found opens |
| Transport.FindPortFilters | certabo/serialreader.py:29-33 | the port found never mentions bluetooth and carries one of the two IDs |
| Utils.Port2Number | utils.py:17-36 | a non-string is `None`, an integer text is that integer, and a text that is neither an integer nor a `COM`/`/dev/` name is `None` |
| Utils.Port2NumberOfInteger | utils.py:18-21 | every integer written in decimal is its own port number |
| Utils.Port2NumberOfCom | utils.py:23-24 | `COM` in any case followed by `n` is port `n - 1` |
| Utils.Port2NumberOfBadCom | utils.py:23-24 | `COM` followed by anything that is not an integer raises |
| Utils.Port2NumberOfPath | utils.py:25-33 | a `/dev/` path is its trailing digits read backwards, or `None` without any |
| Utils.Port2NumberOfDevice | utils.py:25-33 | a `/dev/` path ending in digits `d` is the value of `d` reversed |
| Utils.Port2NumberOfDeviceWithoutDigits | utils.py:31-32 | a `/dev/` path without trailing digits is `None` |
| Utils.Port2NumberTtyUsb12 | utils.py:25-33 | `/dev/ttyUSB12` is port 21 |
| Utils.Port2Udp | utils.py:39-44 | the GUI port is always the board port plus one; no port number gives the base pair |
| Utils.Port2UdpSeparates | utils.py:39-44 | different port numbers never share a UDP port, except that `COM0` (number -1) shares the unnumbered pair |
| Utils.Port2UdpOfNumber | utils.py:42 | the board port of number `n` lies `2(n + 1)` above the base port 3102 |
| Utils.CoordsIn | utils.py:106-110 | an empty or missing area contains nothing; an area of four numbers gives `True` for the points strictly inside and `False` for every other point; any other length raises |
| Utils.CoordsInBorder | utils.py:110 | a point on the left or right border is outside |
| Utils.CalibrationFileName | certabo/codes.py:27-31 | no port gives `calibration.bin`; a numbered port gives `calibration-com<n+1>.bin` |
| Utils.CalibrationFileNameNumber | certabo/codes.py:27-31 | the number in the file name parses back as the port number plus one |

## Left out

- Serial I/O is not modelled: opening the port, `flock`, `flushInput`, `readline`, `inWaiting`, the sleeps and the retry loop. The lines read are the input of the reader folds.
- A failure to open or lock the port is a step count in `Transport.Connect`.
- Which ports open is the parameter `opens` of `Transport.FindPort`.
- Threads and the `queue.Queue` locking are not modelled. The lichess reader's queue is a plain sequence, and a pass of its loop is one function.
- A failure of `uart.write` is not modelled.
- The pickle persistence is not modelled: `load_calibration`, `pickle.dump` and the calibration file. The database is a value that calibration returns. `get_calibration_file_name` is kept as a string function.
- Chess rules are not modelled. They come from python-chess: legal moves, playing a move, `board_fen` and `uci`.
  - `get_moves` takes them as an oracle.
  - `BaseBoard(s)` in `diff2squareset` is replaced by a reference reader of board fields: ranks of letters and digits 1-8, no two digits in a row, eight squares each.
  - Moves.GetMoves: the oracle does not model the exceptions python-chess may raise inside the search.
  - Leds.DiffSquareSet: python-chess's `BaseBoard` also accepts a `~` promoted-piece marker after a piece letter and strips surrounding whitespace; the reference reader rejects both. Neither occurs in what `diff2squareset` receives, which is `board_fen()` output and `usb_data_to_FEN` output.
- `set_board_from_fen`, `get_reference`, `set_reference`, `get_color`, `set_color`, `get_state` and `set_state` are left out. They are plain field accesses and do nothing the handler reads.
- The lichess/berserk game loop, `main`, `argparse`, logging and the `show_print` display branches are left out.
- `utils.find_port`, `get_engine_list` and `get_book_list` enumerate the file system and are left out. The serial reader's `find_port` is modelled.
- The Python 2 `unicode` branch of `find_port` is not part of this model.
- The `codes` module imported by `certabo-lichess.py` is not part of this model. The lichess handler is taken to call the same functions as `certabo/codes.py`. Under that reading, `codes.load_calibration(None)` at certabo-lichess.py:168 runs `open(None, "rb")`, which raises a `TypeError` that the `except (IOError, OSError)` and `except ValueError` clauses of certabo/codes.py:34-47 do not catch. The lichess `__init__` would then never return. `Handler.LichessInit` describes the state it would leave if the load returned, with the database as a parameter.
- `usb_data_processed` is computed and stored by `handle_usb_data` but read nowhere, so the state does not keep it.
- `move_detect_tries` and `move_detect_max_tries` are never used by the core and are left out.
- `reverse_bits` is never called by the core and is left out.
- Handler.HandleUsbData: requires the 320 fields that both readers check before calling it. A direct call with another number of fields is not modelled.
- Text.ParseInt: models `int()` on an optional sign followed by ASCII digits only. Surrounding whitespace, underscores and non-ASCII digits are not accepted.
- Text.Lower: `upper()` and `lower()` map ASCII letters only.
- Leds.Move2Led: a move text with a non-ASCII digit in a rank position is treated as not a digit.
- The lichess handler's calibration flag is fixed to false with no setter. Its calibration path is modelled (it shares `Handler.CalibrateFromUsbData`) but cannot be reached from `Handler.LichessInit`.
- The "no known cells" abort of `statistic_processing` (certabo/codes.py:154-163) is unreachable. Every pool entry is a reading or the zero code, so the pool is never empty when there are samples. The model has no such branch, and `Vote.StatisticProcessing` states that the result is missing only for no samples.
- The `elif name == "-"` branch of the same loop is dead. An empty-looking reading has already passed the `name != ""` test, so it stays in the pool as itself.

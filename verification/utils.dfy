/** Port helpers of `utils.py` (`port2number`, `port2udp`, `coords_in`) and
    `get_calibration_file_name` of `certabo/codes.py`. */
module Utils {
  import opened Wrappers
  import opened Text

  /** `BASE_PORT` of `constants.py`. */
  const BasePort: int := 3102

  /** The argument of `port2number`: a string, or any other Python value. */
  datatype PortArg = PortText(text: string) | NotText

  /** `ValueError` from `int(port[3:])` on a `COM` name without a number. */
  datatype PortError = NotANumber

  /** The trailing run of decimal digits of `s`, last digit first. */
  function TrailingDigitsReversed(s: string): (d: string)
    ensures AllDigits(d) && |d| <= |s|
  {
    if |s| == 0 || !IsDigit(s[|s| - 1]) then ""
    else [s[|s| - 1]] + TrailingDigitsReversed(s[..|s| - 1])
  }

  /** `port2number(port)`: an integer text is that integer; a name starting with `COM`
      in any case is its number minus one (and raises when there is no number); a
      `/dev/` path is its trailing digits read right to left; anything else is `None`. */
  function Port2Number(port: PortArg): (r: Result<Option<int>, PortError>)
    ensures port.NotText? ==> r == Ok(None)
    ensures port.PortText? && ParseInt(port.text).Some? ==> r == Ok(ParseInt(port.text))
    ensures port.PortText? && ParseInt(port.text).None?
      && !StartsWith(Upper(port.text), "COM") && !StartsWith(Lower(port.text), "/dev/")
      ==> r == Ok(None)
  {
    match port
    case NotText => Ok(None)
    case PortText(s) =>
      match ParseInt(s)
      case Some(n) => Ok(Some(n))
      case None =>
        if StartsWith(Upper(s), "COM") then
          match ParseInt(s[3..])
          case Some(n) => Ok(Some(n - 1))
          case None => Err(NotANumber)
        else if StartsWith(Lower(s), "/dev/") then
          var digits := TrailingDigitsReversed(s);
          if |digits| == 0 then Ok(None) else Ok(Some(DecimalValue(digits)))
        else Ok(None)
  }

  /** An integer written in decimal is its own port number. */
  lemma Port2NumberOfInteger(i: int)
    ensures Port2Number(PortText(IntToDecimal(i))) == Ok(Some(i))
  {
    ParseIntRoundTrip(i);
  }

  /** `COM` (in any case) followed by an integer names the port one below it. */
  lemma Port2NumberOfCom(prefix: string, i: int)
    requires |prefix| == 3 && Upper(prefix) == "COM"
    ensures Port2Number(PortText(prefix + IntToDecimal(i))) == Ok(Some(i - 1))
  {
    var s := prefix + IntToDecimal(i);
    assert UpperChar(prefix[0]) == Upper(prefix)[0] == 'C';
    assert !IsDigit(s[0]) && s[0] != '-' && s[0] != '+';
    assert ParseInt(s).None?;
    assert Upper(s)[..3] == Upper(prefix);
    assert StartsWith(Upper(s), "COM");
    assert ParseInt(s[3..]) == Some(i) by {
      assert s[3..] == IntToDecimal(i);
      ParseIntRoundTrip(i);
    }
  }

  /** `COM` followed by anything that is not an integer raises. */
  lemma Port2NumberOfBadCom(prefix: string, t: string)
    requires |prefix| == 3 && Upper(prefix) == "COM" && ParseInt(t).None?
    ensures Port2Number(PortText(prefix + t)) == Err(NotANumber)
  {
    var s := prefix + t;
    assert UpperChar(prefix[0]) == Upper(prefix)[0] == 'C';
    assert !IsDigit(s[0]) && s[0] != '-' && s[0] != '+';
    assert Upper(s)[..3] == Upper(prefix);
    assert s[3..] == t;
  }

  /** A `/dev/` path is its trailing digits read backwards, or `None` without any. */
  lemma Port2NumberOfPath(s: string)
    requires StartsWith(Lower(s), "/dev/")
    ensures var digits := TrailingDigitsReversed(s);
      Port2Number(PortText(s)) == if |digits| == 0 then Ok(None) else Ok(Some(DecimalValue(digits)))
  {
    assert LowerChar(s[0]) == Lower(s)[0] == '/';
    assert ParseInt(s) == None;
    assert Upper(s)[0] == '/';
  }

  lemma LowerPrefix(a: string, b: string, n: nat)
    requires n <= |a|
    ensures Lower(a + b)[..n] == Lower(a)[..n]
  {
    assert forall i | 0 <= i < n :: Lower(a + b)[i] == Lower(a)[i];
  }

  /** A `/dev/` path ending in digits is those digits read backwards. */
  lemma Port2NumberOfDevice(path: string, digits: string)
    requires StartsWith(Lower(path), "/dev/") && !IsDigit(path[|path| - 1])
    requires |digits| >= 1 && AllDigits(digits)
    ensures Port2Number(PortText(path + digits)) == Ok(Some(DecimalValue(Reverse(digits))))
  {
    LowerPrefix(path, digits, 5);
    Port2NumberOfPath(path + digits);
    TrailingDigitsOf(path, digits);
  }

  lemma {:induction false} TrailingDigitsOf(path: string, digits: string)
    requires |path| >= 1 && !IsDigit(path[|path| - 1]) && AllDigits(digits)
    ensures TrailingDigitsReversed(path + digits) == Reverse(digits)
    decreases |digits|
  {
    var s := path + digits;
    if |digits| == 0 {
      assert s == path;
    } else {
      var init, last := digits[..|digits| - 1], digits[|digits| - 1];
      TrailingDigitsOf(path, init);
      assert s[..|s| - 1] == path + init;
      assert s[|s| - 1] == last;
      assert digits == init + [last];
      ReverseAppend(init, [last]);
    }
  }

  /** A `/dev/` path that does not end in a digit has no number. */
  lemma Port2NumberOfDeviceWithoutDigits(path: string)
    requires StartsWith(Lower(path), "/dev/") && !IsDigit(path[|path| - 1])
    ensures Port2Number(PortText(path)) == Ok(None)
  {
    Port2NumberOfPath(path);
  }

  /** The digits are read backwards, so `/dev/ttyUSB12` is port 21. */
  lemma Port2NumberTtyUsb12()
    ensures Port2Number(PortText("/dev/ttyUSB12")) == Ok(Some(21))
  {
    var path := "/dev/ttyUSB";
    assert Lower(path)[..5] == "/dev/" by {
      assert forall i | 0 <= i < 5 :: Lower(path)[i] == path[i];
    }
    assert path + "12" == "/dev/ttyUSB12";
    Port2NumberOfDevice(path, "12");
    assert Reverse("12") == "21";
    assert DecimalValue("21") == 21 by {
      assert "21"[..1] == "2";
    }
  }

  /** `port2udp(port_number)`: the board's and the GUI's UDP ports. */
  function Port2Udp(port: Option<int>): (r: (int, int))
    ensures r.1 == r.0 + 1
    ensures port.None? ==> r == (BasePort, BasePort + 1)
  {
    match port
    case None => (BasePort, BasePort + 1)
    case Some(n) =>
      var board := BasePort + (n + 1) * 2;
      (board, board + 1)
  }

  /** Different port numbers never share a UDP port, and a numbered port shares the
      unnumbered pair only for the number -1 (the name `COM0`). */
  lemma Port2UdpSeparates(a: Option<int>, b: Option<int>)
    requires a != b
    ensures var (x, y) := Port2Udp(a); var (u, v) := Port2Udp(b);
      (x == u || x == v || y == u || y == v) <==> (a == None && b == Some(-1)) || (a == Some(-1) && b == None)
  {
  }

  /** The board port of a numbered port lies `2 (n + 1)` above the base. */
  lemma Port2UdpOfNumber(n: int)
    ensures Port2Udp(Some(n)).0 - BasePort == 2 * (n + 1)
  {
  }

  /** `ValueError` from unpacking an area that is not four numbers. */
  datatype AreaError = NotFourValues

  /** `coords_in(x, y, area)`: `None` or an empty area contains nothing; otherwise the
      area is `lx, ty, rx, by` and the point must lie strictly inside. */
  function CoordsIn(x: int, y: int, area: Option<seq<int>>): (r: Result<bool, AreaError>)
    ensures (area.None? || area == Some([])) ==> r == Ok(false)
    ensures area.Some? && |area.value| != 0 && |area.value| != 4 ==> r == Err(NotFourValues)
    ensures area.Some? && |area.value| == 4 ==>
      r.Ok? && (r.value <==> area.value[0] < x < area.value[2] && area.value[1] < y < area.value[3])
  {
    match area
    case None => Ok(false)
    case Some(a) =>
      if |a| == 0 then Ok(false)
      else if |a| != 4 then Err(NotFourValues)
      else
        var left, top, right, bottom := a[0], a[1], a[2], a[3];
        Ok(left < x < right && top < y < bottom)
  }

  /** A point on the border of an area is outside it. */
  lemma CoordsInBorder(area: seq<int>, y: int)
    requires |area| == 4
    ensures CoordsIn(area[0], y, Some(area)) == Ok(false)
    ensures CoordsIn(area[2], y, Some(area)) == Ok(false)
  {
  }

  /** `get_calibration_file_name(port)`. */
  function CalibrationFileName(port: Option<int>): (name: string)
    ensures port.None? ==> name == "calibration.bin"
    ensures port.Some? ==> |name| >= 19 && name[..15] == "calibration-com" && name[|name| - 4..] == ".bin"
  {
    match port
    case None => "calibration.bin"
    case Some(n) => "calibration-com" + IntToDecimal(n + 1) + ".bin"
  }

  /** The number in a numbered file name is the port number plus one. */
  lemma CalibrationFileNameNumber(n: int)
    ensures var name := CalibrationFileName(Some(n));
      ParseInt(name[15..|name| - 4]) == Some(n + 1)
  {
    var name := CalibrationFileName(Some(n));
    assert name[15..|name| - 4] == IntToDecimal(n + 1);
    ParseIntRoundTrip(n + 1);
  }
}

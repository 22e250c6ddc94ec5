/** Strings, bytes and the few Python string operations the core relies on:
    `str.split(sep)` with a one-character separator, `sep.join`, slicing with negative
    bounds, `str.split()` on whitespace, `int()` on decimal text and ASCII case mapping. */
module Text {
  import opened Wrappers

  /** An unsigned 8-bit value, as held in a Python `bytes` object. */
  type byte = x: int | 0 <= x < 256

  /** Number of occurrences of `c` in `s`. */
  function Occurrences(s: string, c: char): nat
  {
    if |s| == 0 then 0 else (if s[0] == c then 1 else 0) + Occurrences(s[1..], c)
  }

  /** Python's `s.split(sep)` for a one-character separator: empty fields are kept,
      so there is always one more field than there are separators. */
  function Split(s: string, sep: char): (r: seq<string>)
    ensures |r| == Occurrences(s, sep) + 1
    ensures forall i | 0 <= i < |r| :: sep !in r[i]
  {
    if |s| == 0 then [""]
    else
      var rest := Split(s[1..], sep);
      if s[0] == sep then [""] + rest
      else [[s[0]] + rest[0]] + rest[1..]
  }

  /** Python's `sep.join(parts)`. */
  function Join(parts: seq<string>, sep: char): string
  {
    if |parts| == 0 then ""
    else if |parts| == 1 then parts[0]
    else parts[0] + [sep] + Join(parts[1..], sep)
  }

  /** Joining the fields of a split gives back the original text. */
  lemma {:induction false} JoinSplit(s: string, sep: char)
    ensures Join(Split(s, sep), sep) == s
  {
    if |s| > 0 {
      JoinSplit(s[1..], sep);
      var rest := Split(s[1..], sep);
      if s[0] == sep {
        assert ([""] + rest)[1..] == rest;
        assert s == [sep] + s[1..];
      } else {
        var first := [s[0]] + rest[0];
        assert Split(s, sep) == [first] + rest[1..];
        if |rest| == 1 {
          assert Join(rest, sep) == rest[0];
        } else {
          assert ([first] + rest[1..])[1..] == rest[1..];
          assert Join(rest, sep) == rest[0] + [sep] + Join(rest[1..], sep);
        }
        assert s == [s[0]] + s[1..];
      }
    }
  }

  lemma {:induction false} SplitWithoutSeparator(a: string, sep: char)
    requires sep !in a
    ensures Split(a, sep) == [a]
  {
    if |a| > 0 {
      SplitWithoutSeparator(a[1..], sep);
      assert a == [a[0]] + a[1..];
    }
  }

  lemma {:induction false} SplitAfterField(a: string, sep: char, t: string)
    requires sep !in a
    ensures Split(a + [sep] + t, sep) == [a] + Split(t, sep)
  {
    if |a| == 0 {
      assert (a + [sep] + t)[1..] == t;
    } else {
      SplitAfterField(a[1..], sep, t);
      assert (a + [sep] + t)[1..] == a[1..] + [sep] + t;
      assert a == [a[0]] + a[1..];
    }
  }

  /** Splitting a join of separator-free fields gives back the fields. */
  lemma {:induction false} SplitJoin(parts: seq<string>, sep: char)
    requires |parts| >= 1
    requires forall i | 0 <= i < |parts| :: sep !in parts[i]
    ensures Split(Join(parts, sep), sep) == parts
  {
    if |parts| == 1 {
      SplitWithoutSeparator(parts[0], sep);
    } else {
      SplitJoin(parts[1..], sep);
      SplitAfterField(parts[0], sep, Join(parts[1..], sep));
      assert parts == [parts[0]] + parts[1..];
    }
  }

  lemma {:induction false} JoinSnoc(parts: seq<string>, last: string, sep: char)
    requires |parts| >= 1
    ensures Join(parts + [last], sep) == Join(parts, sep) + [sep] + last
  {
    if |parts| > 1 {
      JoinSnoc(parts[1..], last, sep);
      assert (parts + [last])[1..] == parts[1..] + [last];
    } else {
      assert (parts + [last])[1..] == [last];
    }
  }

  /** `s[::-1]`. */
  function Reverse<T>(s: seq<T>): (r: seq<T>)
    ensures |r| == |s|
    ensures forall i | 0 <= i < |s| :: r[i] == s[|s| - 1 - i]
  {
    if |s| == 0 then [] else Reverse(s[1..]) + [s[0]]
  }

  lemma ReverseAppend<T>(a: seq<T>, b: seq<T>)
    ensures Reverse(a + b) == Reverse(b) + Reverse(a)
  {
    var l, r := Reverse(a + b), Reverse(b) + Reverse(a);
    assert forall i | 0 <= i < |l| :: l[i] == r[i];
  }

  /** Each field reversed, in the same order. */
  function ReverseEach(parts: seq<string>): (r: seq<string>)
    ensures |r| == |parts|
  {
    seq(|parts|, i requires 0 <= i < |parts| => Reverse(parts[i]))
  }

  /** `sep.join(f[::-1] for f in reversed(s.split(sep)))`: the fields in reverse order,
      each of them reversed. */
  function ReverseFields(s: string, sep: char): string
  {
    Join(ReverseEach(Reverse(Split(s, sep))), sep)
  }

  lemma {:induction false} JoinReversed(parts: seq<string>, sep: char)
    requires |parts| >= 1
    ensures Join(ReverseEach(Reverse(parts)), sep) == Reverse(Join(parts, sep))
  {
    if |parts| > 1 {
      var first, rest := parts[0], parts[1..];
      JoinReversed(rest, sep);
      var turned := ReverseEach(Reverse(rest));
      ReverseEachCons(parts);
      JoinSnoc(turned, Reverse(first), sep);
      ReverseAroundSeparator(first, sep, Join(rest, sep));
    }
  }

  lemma ReverseEachCons(parts: seq<string>)
    requires |parts| >= 1
    ensures ReverseEach(Reverse(parts)) == ReverseEach(Reverse(parts[1..])) + [Reverse(parts[0])]
  {
    assert Reverse(parts) == Reverse(parts[1..]) + [parts[0]];
    ReverseEachSnoc(Reverse(parts[1..]), parts[0]);
  }

  lemma ReverseEachSnoc(parts: seq<string>, last: string)
    ensures ReverseEach(parts + [last]) == ReverseEach(parts) + [Reverse(last)]
  {
    var l, r := ReverseEach(parts + [last]), ReverseEach(parts) + [Reverse(last)];
    forall i | 0 <= i < |l|
      ensures l[i] == r[i]
    {
      if i < |parts| {
        assert (parts + [last])[i] == parts[i];
      }
    }
  }

  lemma ReverseAroundSeparator(a: string, sep: char, b: string)
    ensures Reverse(a + [sep] + b) == Reverse(b) + [sep] + Reverse(a)
  {
    ReverseAppend(a + [sep], b);
    ReverseAppend(a, [sep]);
  }

  /** Reversing the order of the fields and each field is reversing the whole text. */
  lemma ReverseFieldsIsReverse(s: string, sep: char)
    ensures ReverseFields(s, sep) == Reverse(s)
  {
    JoinReversed(Split(s, sep), sep);
    JoinSplit(s, sep);
  }

  /** Python's `s[1:-3]`: the text without its first character and its last three;
      empty when the text has fewer than four characters. */
  function Payload(s: string): (r: string)
    ensures |r| == if |s| >= 4 then |s| - 4 else 0
  {
    if |s| >= 4 then s[1..|s| - 3] else ""
  }

  predicate IsDigit(c: char)
  {
    '0' <= c <= '9'
  }

  predicate AllDigits(s: string)
  {
    forall i | 0 <= i < |s| :: IsDigit(s[i])
  }

  function DigitValue(c: char): nat
    requires IsDigit(c)
  {
    c as int - '0' as int
  }

  function DigitChar(d: nat): (c: char)
    requires d < 10
    ensures IsDigit(c) && DigitValue(c) == d
  {
    ('0' as int + d) as char
  }

  /** Value of a run of decimal digits, most significant first. */
  function DecimalValue(s: string): nat
    requires AllDigits(s)
  {
    if |s| == 0 then 0 else 10 * DecimalValue(s[..|s| - 1]) + DigitValue(s[|s| - 1])
  }

  /** Python's `str(n)` for a natural number. */
  function NatToDecimal(n: nat): (r: string)
    ensures |r| >= 1 && AllDigits(r)
    ensures DecimalValue(r) == n
    ensures n < 10 ==> r == [DigitChar(n)]
  {
    if n < 10 then [DigitChar(n)]
    else
      var r := NatToDecimal(n / 10) + [DigitChar(n % 10)];
      assert r[..|r| - 1] == NatToDecimal(n / 10);
      r
  }

  /** Python's `str(i)`. */
  function IntToDecimal(i: int): string
  {
    if i < 0 then "-" + NatToDecimal(-i) else NatToDecimal(i)
  }

  /** Python's `int(s)` for an optionally signed run of ASCII decimal digits; `None`
      stands for the `ValueError` it raises on anything else. */
  function ParseInt(s: string): (r: Option<int>)
    ensures r.Some? ==> |s| >= 1
  {
    if |s| >= 1 && (s[0] == '-' || s[0] == '+') then
      var digits := s[1..];
      if |digits| >= 1 && AllDigits(digits) then
        var v: int := DecimalValue(digits);
        Some(if s[0] == '-' then -v else v)
      else None
    else if |s| >= 1 && AllDigits(s) then Some(DecimalValue(s))
    else None
  }

  /** `int(str(i)) == i`. */
  lemma ParseIntRoundTrip(i: int)
    ensures ParseInt(IntToDecimal(i)) == Some(i)
  {
    if i < 0 {
      assert IntToDecimal(i)[1..] == NatToDecimal(-i);
    }
  }

  /** Python's `int()` on an empty or sign-only text raises. */
  lemma ParseIntRejectsEmpty()
    ensures ParseInt("") == None && ParseInt("-") == None && ParseInt("+") == None
  {
  }

  function LowerChar(c: char): char
  {
    if 'A' <= c <= 'Z' then (c as int + 32) as char else c
  }

  function UpperChar(c: char): char
  {
    if 'a' <= c <= 'z' then (c as int - 32) as char else c
  }

  /** `s.lower()` on ASCII letters. */
  function Lower(s: string): (r: string)
    ensures |r| == |s|
  {
    seq(|s|, i requires 0 <= i < |s| => LowerChar(s[i]))
  }

  /** `s.upper()` on ASCII letters. */
  function Upper(s: string): (r: string)
    ensures |r| == |s|
  {
    seq(|s|, i requires 0 <= i < |s| => UpperChar(s[i]))
  }

  predicate StartsWith(s: string, prefix: string)
  {
    |prefix| <= |s| && s[..|prefix|] == prefix
  }

  /** `needle` occurs in `s` starting at index `i`. */
  predicate OccursAt(s: string, needle: string, i: nat)
  {
    i + |needle| <= |s| && s[i..i + |needle|] == needle
  }

  /** Python's `needle in s` for strings. */
  predicate Contains(s: string, needle: string)
  {
    exists i: nat | i <= |s| :: OccursAt(s, needle, i)
  }

  /** The characters Python's `str.isspace` accepts, which `str.split()` splits on. */
  predicate IsSpace(c: char)
  {
    var n := c as int;
    || n == 0x20 || 0x09 <= n <= 0x0d || 0x1c <= n <= 0x1f || n == 0x85 || n == 0xa0
    || n == 0x1680 || 0x2000 <= n <= 0x200a || n == 0x2028 || n == 0x2029
    || n == 0x202f || n == 0x205f || n == 0x3000
  }

  function TakeWord(s: string): (w: string)
    ensures |w| <= |s| && w == s[..|w|]
    ensures forall i | 0 <= i < |w| :: !IsSpace(w[i])
    ensures |w| == |s| || IsSpace(s[|w|])
  {
    if |s| == 0 || IsSpace(s[0]) then "" else [s[0]] + TakeWord(s[1..])
  }

  /** Python's `s.split()[0]`: the first whitespace-delimited word; `None` stands for the
      `IndexError` raised when the text is blank. */
  function FirstWord(s: string): (r: Option<string>)
    ensures r.None? <==> forall i | 0 <= i < |s| :: IsSpace(s[i])
    ensures r.Some? ==> |r.value| >= 1 && forall i | 0 <= i < |r.value| :: !IsSpace(r.value[i])
  {
    if |s| == 0 then None
    else if IsSpace(s[0]) then FirstWord(s[1..])
    else Some(TakeWord(s))
  }

  /** The first word of a word followed by a space-led tail is that word. */
  lemma FirstWordOf(w: string, tail: string)
    requires |w| >= 1 && forall i | 0 <= i < |w| :: !IsSpace(w[i])
    requires |tail| == 0 || IsSpace(tail[0])
    ensures FirstWord(w + tail) == Some(w)
  {
    var t := TakeWord(w + tail);
    assert t == (w + tail)[..|w|] == w;
  }
}

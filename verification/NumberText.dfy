/** Which numbers and lines the configuration text stands for: numbers in every notation, the
    cutting of lines and of files. */
module NumberText {
  import opened Arithmetic
  import opened Wrappers
  import opened BitFields
  import opened ConfigText

  // ---------------------------------------------------------------- digits

  const LOWER := "0123456789abcdef"
  const UPPER := "0123456789ABCDEF"

  function DigitChar(d: nat, upper: bool): char
    requires d < 16
  {
    if upper then UPPER[d] else LOWER[d]
  }

  /** `n` written in a base, without leading zeros. */
  function Digits(n: nat, base: nat, upper: bool): (s: string)
    requires 2 <= base <= 16
    ensures s != ""
    decreases n
  {
    if n < base then [DigitChar(n, upper)]
    else
      QuotientLess(n, base);
      Digits(n / base, base, upper) + [DigitChar(n % base, upper)]
  }

  lemma QuotientLess(n: nat, base: nat)
    requires 2 <= base <= n
    ensures 0 < n / base < n && n == n / base * base + n % base && 0 <= n % base < base
  {
    var q := n / base;
    assert n == q * base + n % base;
    MulMono(2, base, q);
    MulCancel(0, q, base);
  }

  lemma DigitRead(d: nat, upper: bool)
    requires d < 16
    ensures DigitValue(DigitChar(d, upper)) == d && !IsSpace(DigitChar(d, upper))
    ensures DigitChar(d, upper) !in {'-', '+', 'x', 'X'} && (DigitChar(d, upper) == '0' <==> d == 0)
  {
  }

  /** Nothing more to read in that base. */
  predicate Stops(rest: string, base: nat) {
    rest == "" || DigitValue(rest[0]) >= base
  }

  lemma ReadOne(d: nat, upper: bool, rest: string, base: nat, acc: nat)
    requires d < base <= 16
    ensures ReadDigits([DigitChar(d, upper)] + rest, base, acc) == ReadDigits(rest, base, acc * base + d)
  {
    DigitRead(d, upper);
    assert ([DigitChar(d, upper)] + rest)[1..] == rest;
  }

  /** Reading goes on behind a printed number with its value. */
  lemma {:induction false} ReadPrinted(n: nat, base: nat, upper: bool, rest: string)
    requires 2 <= base <= 16
    ensures ReadDigits(Digits(n, base, upper) + rest, base, 0) == ReadDigits(rest, base, n)
    decreases n
  {
    if n < base {
      ReadOne(n, upper, rest, base, 0);
    } else {
      QuotientLess(n, base);
      var q, d := n / base, n % base;
      var front, last := Digits(q, base, upper), [DigitChar(d, upper)];
      ReadPrinted(q, base, upper, last + rest);
      ReadOne(d, upper, rest, base, q);
      Regroup(front, last, rest);
    }
  }

  lemma Regroup(a: string, b: string, c: string)
    ensures a + b + c == a + (b + c)
  {
  }

  lemma {:induction false} FirstDigit(n: nat, base: nat, upper: bool)
    requires 2 <= base <= 16
    ensures var c := Digits(n, base, upper)[0];
      !IsSpace(c) && c !in {'-', '+', 'x', 'X'} && (c == '0' <==> n == 0)
    decreases n
  {
    if n < base {
      DigitRead(n, upper);
    } else {
      QuotientLess(n, base);
      FirstDigit(n / base, base, upper);
    }
  }

  // ---------------------------------------------------------------- notations

  /** How a number is written: decimal without a leading zero, octal behind a zero, or
      hexadecimal behind 0x or 0X with letters of either case. */
  datatype Notation = Decimal | Octal | Hexadecimal(bigX: bool, upper: bool)

  function BaseOf(w: Notation): nat {
    match w
    case Decimal => 10
    case Octal => 8
    case Hexadecimal(_, _) => 16
  }

  function Written(n: nat, w: Notation): string {
    match w
    case Decimal => Digits(n, 10, false)
    case Octal => "0" + Digits(n, 8, false)
    case Hexadecimal(bigX, upper) => (if bigX then "0X" else "0x") + Digits(n, 16, upper)
  }

  lemma MagnitudeRead(n: nat, w: Notation, rest: string)
    requires (w == Decimal ==> n > 0) && Stops(rest, BaseOf(w))
    ensures ReadMagnitude(Written(n, w) + rest) == n
  {
    match w
    case Decimal =>
      FirstDigit(n, 10, false);
      ReadPrinted(n, 10, false, rest);
    case Octal =>
      FirstDigit(n, 8, false);
      ReadPrinted(n, 8, false, rest);
      OctalRead(Digits(n, 8, false) + rest);
      Regroup("0", Digits(n, 8, false), rest);
    case Hexadecimal(bigX, upper) =>
      ReadPrinted(n, 16, upper, rest);
      HexRead(if bigX then 'X' else 'x', Digits(n, 16, upper) + rest);
      Regroup(if bigX then "0X" else "0x", Digits(n, 16, upper), rest);
  }

  lemma OctalRead(t: string)
    requires t != "" ==> t[0] !in {'x', 'X'}
    ensures ReadMagnitude("0" + t) == ReadDigits(t, 8, 0)
  {
    assert ("0" + t)[1..] == t;
  }

  lemma HexRead(x: char, t: string)
    requires x in {'x', 'X'}
    ensures ReadMagnitude(['0', x] + t) == ReadDigits(t, 16, 0)
  {
    assert (['0', x] + t)[2..] == t;
  }

  /** White space is the space and the five control characters that isspace knows. */
  lemma SpaceIff(c: char)
    ensures IsSpace(c) <==> c as int in {9, 10, 11, 12, 13, 32}
  {
  }

  predicate Blank(s: string) { forall i :: 0 <= i < |s| ==> s[i] as int in {9, 10, 11, 12, 13, 32} }

  lemma {:induction false} SkipBlank(pad: string, s: string)
    requires Blank(pad) && (s != "" ==> !IsSpace(s[0]))
    ensures SkipSpaces(pad + s) == s
  {
    if pad == "" {
      assert pad + s == s;
    } else {
      assert (pad + s)[1..] == pad[1..] + s;
      SkipBlank(pad[1..], s);
    }
  }

  lemma WrittenStart(n: nat, w: Notation)
    ensures Written(n, w) != "" && !IsSpace(Written(n, w)[0]) && Written(n, w)[0] !in {'-', '+'}
  {
    FirstDigit(n, 10, false);
  }

  /** A number in any notation, behind white space and with or without a plus sign, is read up
      to where its digits stop.  Up to 2^63 - 1 it is taken as it is, and larger ones as that. */
  lemma ParsePositive(pad: string, plus: bool, n: nat, w: Notation, rest: string)
    requires Blank(pad) && (w == Decimal ==> n > 0) && Stops(rest, BaseOf(w))
    ensures ParseNumber(pad + (if plus then "+" else "") + Written(n, w) + rest)
            == if n < 0x8000_0000_0000_0000 then n else 0x7FFF_FFFF_FFFF_FFFF
  {
    var body := Written(n, w) + rest;
    var signed := (if plus then "+" else "") + body;
    WrittenStart(n, w);
    assert pad + (if plus then "+" else "") + Written(n, w) + rest == pad + signed;
    SkipBlank(pad, signed);
    MagnitudeRead(n, w, rest);
    assert plus ==> signed[1..] == body;
    assert !plus ==> signed == body;
  }

  /** Behind a minus sign the number is negated in 64-bit two's complement, and below -2^63 it
      is taken as -2^63. */
  lemma ParseNegative(pad: string, n: nat, w: Notation, rest: string)
    requires Blank(pad) && (w == Decimal ==> n > 0) && Stops(rest, BaseOf(w))
    ensures ParseNumber(pad + "-" + Written(n, w) + rest)
            == if n == 0 then 0
               else if n <= 0x8000_0000_0000_0000 then 0x1_0000_0000_0000_0000 - n else 0x8000_0000_0000_0000
  {
    var body := Written(n, w) + rest;
    assert pad + "-" + Written(n, w) + rest == pad + ("-" + body);
    MagnitudeRead(n, w, rest);
    BehindMinus(pad, body);
  }

  lemma BehindMinus(pad: string, body: string)
    requires Blank(pad)
    ensures var m := ReadMagnitude(body);
      ParseNumber(pad + ("-" + body))
      == if m == 0 then 0
         else if m <= 0x8000_0000_0000_0000 then 0x1_0000_0000_0000_0000 - m else 0x8000_0000_0000_0000
  {
    SkipBlank(pad, "-" + body);
    assert ("-" + body)[1..] == body;
  }

  /** Text without a digit where the number should start is 0, and so is a lone zero. */
  lemma ParseNothing(pad: string, sign: string, rest: string)
    requires Blank(pad) && sign in {"", "+", "-"} && Stops(rest, 10)
    requires sign == "" && rest != "" ==> !IsSpace(rest[0]) && rest[0] !in {'-', '+'}
    ensures ParseNumber(pad + sign + rest) == 0
  {
    assert pad + sign + rest == pad + (sign + rest);
    SkipBlank(pad, sign + rest);
    assert sign != "" ==> (sign + rest)[1..] == rest;
    assert sign == "" ==> sign + rest == rest;
  }

  lemma ParseZero(pad: string, sign: string, rest: string)
    requires Blank(pad) && sign in {"", "+", "-"} && Stops(rest, 8)
    requires rest != "" ==> rest[0] !in {'x', 'X'}
    ensures ParseNumber(pad + sign + "0" + rest) == 0
  {
    var body := "0" + rest;
    assert pad + sign + "0" + rest == pad + (sign + body);
    SkipBlank(pad, sign + body);
    assert sign != "" ==> (sign + body)[1..] == body;
    assert sign == "" ==> sign + body == body;
    OctalRead(rest);
  }

  // ---------------------------------------------------------------- lines

  /** `%lx` prints in lower case without leading zeros. */
  lemma {:induction false} HexIs(n: nat)
    ensures Hex(n) == Digits(n, 16, false)
    decreases n
  {
    HexDigitIs(n % 16);
    if n >= 16 {
      HexIs(n / 16);
    }
  }

  lemma HexDigitIs(d: nat)
    requires d < 16
    ensures HexDigit(d) == DigitChar(d, false)
  {
  }

  /** The key of a line is what stands before its first white space and its first '=', and the
      number is what follows that '='; a line without '=' is refused. */
  lemma SplitAny(key: string, pad: string, number: string)
    requires PlainName(key) && (forall i :: 0 <= i < |pad| ==> pad[i] != '=') && (pad != "" ==> IsSpace(pad[0]))
    ensures SplitKeyValue(key + pad + "=" + number) == Ok((key, ParseNumber(number)))
  {
    var front := key + pad;
    var line := front + ['='] + number;
    assert key + pad + "=" + number == line;
    IndexAfter(front, '=', number);
    assert line[..|front|] == front && line[|front| + 1..] == number;
    KeyOf(key, pad);
  }

  lemma {:induction false} KeyOf(key: string, pad: string)
    requires PlainName(key) && (pad != "" ==> IsSpace(pad[0]))
    ensures UpToSpace(key + pad) == key
  {
    if key == "" {
      assert key + pad == pad;
    } else {
      assert (key + pad)[1..] == key[1..] + pad;
      KeyOf(key[1..], pad);
    }
  }

  lemma NoEqualsIff(s: string)
    ensures SplitKeyValue(s) == Err(NoEquals) <==> '=' !in s
  {
  }

  function Joined(lines: seq<string>): string {
    if lines == [] then "" else lines[0] + Joined(lines[1..])
  }

  /** A newline stands only at the end of a line, and every line but the last has one. */
  ghost predicate LineShaped(lines: seq<string>) {
    && (forall i, k :: 0 <= i < |lines| && 0 <= k < |lines[i]| - 1 ==> lines[i][k] != '\n')
    && (forall i :: 0 <= i < |lines| ==> lines[i] != "")
    && (forall i :: 0 <= i < |lines| - 1 ==> lines[i][|lines[i]| - 1] == '\n')
  }

  lemma ShapedCons(first: string, more: seq<string>)
    requires LineShaped(more) && first != "" && first[|first| - 1] == '\n'
    requires forall k :: 0 <= k < |first| - 1 ==> first[k] != '\n'
    ensures LineShaped([first] + more) && Joined([first] + more) == first + Joined(more)
  {
    assert ([first] + more)[1..] == more;
  }

  /** `lines` are what the text is cut into. */
  ghost predicate CutInto(text: string, lines: seq<string>) {
    Joined(lines) == text && LineShaped(lines)
  }

  lemma CutLast(text: string)
    requires text != "" && IndexOf(text, '\n') == |text|
    ensures CutInto(text, [text])
  {
    assert [text][1..] == [] && text + "" == text;
  }

  lemma CutMore(text: string, k: nat, more: seq<string>)
    requires k < |text| && text[k] == '\n' && (forall i :: 0 <= i < k ==> text[i] != '\n')
    requires CutInto(text[k + 1..], more)
    ensures CutInto(text, [text[..k + 1]] + more)
  {
    CutAndJoined(text, k + 1);
    ShapedCons(text[..k + 1], more);
  }

  lemma CutAndJoined(text: string, k: nat)
    requires k <= |text|
    ensures text[..k] + text[k..] == text
  {
  }

  /** A file is cut exactly behind its newlines. */
  lemma {:induction false} LinesExact(text: string)
    ensures CutInto(text, Lines(text))
    decreases |text|
  {
    if text != "" {
      var k := IndexOf(text, '\n');
      if k < |text| {
        LinesExact(text[k + 1..]);
        CutMore(text, k, Lines(text[k + 1..]));
      } else {
        CutLast(text);
      }
    }
  }
}

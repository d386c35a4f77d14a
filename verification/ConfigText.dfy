/** Configuration text: how a field and its value are printed as a line, and how a line is
    cut at '=' and its number parsed. */
module ConfigText {
  import opened Wrappers
  import opened BitFields

  const LLONG_MAX := 0x7FFF_FFFF_FFFF_FFFF
  const ULONG_LIMIT := 0x1_0000_0000_0000_0000

  predicate IsSpace(c: char) {
    c == ' ' || c == '\t' || c == '\n' || c == 11 as char || c == 12 as char || c == '\r'
  }

  // ---------------------------------------------------------------- numbers

  /** The value of a digit character; 99 for a character that is no digit in any base. */
  function DigitValue(c: char): nat {
    if '0' <= c <= '9' then (c - '0') as nat
    else if 'a' <= c <= 'z' then (c - 'a') as nat + 10
    else if 'A' <= c <= 'Z' then (c - 'A') as nat + 10
    else 99
  }

  function HexDigit(d: nat): char
    requires d < 16
  {
    if d < 10 then '0' + d as char else 'a' + (d - 10) as char
  }

  /** printf("%lx") */
  function Hex(n: nat): (s: string)
    ensures |s| > 0
  {
    if n < 16 then [HexDigit(n)] else Hex(n / 16) + [HexDigit(n % 16)]
  }

  /** Read digits of the given base until something else comes. */
  function ReadDigits(s: string, base: nat, acc: nat): nat {
    if s == "" || DigitValue(s[0]) >= base then acc
    else ReadDigits(s[1..], base, acc * base + DigitValue(s[0]))
  }

  function SkipSpaces(s: string): (r: string)
    ensures |r| <= |s| && (r != "" ==> !IsSpace(r[0]))
  {
    if s != "" && IsSpace(s[0]) then SkipSpaces(s[1..]) else s
  }

  /** The magnitude that strtoll reads in base 0: a prefix selects 16 or 8, otherwise 10. */
  function ReadMagnitude(s: string): nat {
    if |s| >= 2 && s[0] == '0' && (s[1] == 'x' || s[1] == 'X') then ReadDigits(s[2..], 16, 0)
    else if s != "" && s[0] == '0' then ReadDigits(s, 8, 0)
    else ReadDigits(s, 10, 0)
  }

  /** strtoll(s, NULL, 0), stored in an unsigned long: out-of-range numbers saturate. */
  function ParseNumber(s: string): nat {
    var t := SkipSpaces(s);
    if t != "" && t[0] == '-' then
      var m := ReadMagnitude(t[1..]);
      if m == 0 then 0 else if m > LLONG_MAX + 1 then ULONG_LIMIT - (LLONG_MAX + 1) else ULONG_LIMIT - m
    else
      Saturated(ReadMagnitude(if t != "" && t[0] == '+' then t[1..] else t))
  }

  function Saturated(m: nat): nat { if m > LLONG_MAX then LLONG_MAX else m }

  // ---------------------------------------------------------------- lines

  /** Position of the first occurrence of `c`; the length if there is none. */
  function IndexOf(s: string, c: char): (k: nat)
    ensures k <= |s| && (k < |s| ==> s[k] == c)
    ensures forall i :: 0 <= i < k ==> s[i] != c
  {
    if s == "" then 0 else if s[0] == c then 0 else IndexOf(s[1..], c) + 1
  }

  /** The characters before the first white space. */
  function UpToSpace(s: string): (r: string)
    ensures |r| <= |s| && r == s[..|r|] && (|r| < |s| ==> IsSpace(s[|r|]))
    ensures forall i :: 0 <= i < |r| ==> !IsSpace(r[i])
  {
    if s == "" || IsSpace(s[0]) then "" else [s[0]] + UpToSpace(s[1..])
  }

  /** split_key_value: the key before the first '=', cut at white space, and the number after it. */
  function SplitKeyValue(s: string): Result<(string, nat), Error> {
    var k := IndexOf(s, '=');
    if k == |s| then Err(NoEquals) else Ok((UpToSpace(s[..k]), ParseNumber(s[k + 1..])))
  }

  /** The line that cmd_store prints for a field. */
  function Line(name: string, value: nat): string {
    name + "=0x" + Hex(value) + "\n"
  }

  /** getline over the whole file: lines with their newline, the last one perhaps without. */
  function Lines(text: string): seq<string> {
    if text == "" then []
    else
      var k := IndexOf(text, '\n');
      if k == |text| then [text] else [text[..k + 1]] + Lines(text[k + 1..])
  }

  /** Names that survive being printed and cut again. */
  predicate PlainName(name: string) {
    forall i :: 0 <= i < |name| ==> name[i] != '=' && !IsSpace(name[i])
  }

  // ---------------------------------------------------------------- round trips

  function DigitsValue(s: string, acc: nat): nat {
    if s == "" then acc else DigitsValue(s[1..], acc * 16 + DigitValue(s[0]))
  }

  predicate IsHex(s: string) {
    forall i :: 0 <= i < |s| ==> DigitValue(s[i]) < 16
  }

  lemma {:induction false} DigitsAppend(s: string, t: string, acc: nat)
    ensures DigitsValue(s + t, acc) == DigitsValue(t, DigitsValue(s, acc))
  {
    if s == "" {
      assert s + t == t;
    } else {
      assert (s + t)[1..] == s[1..] + t;
      DigitsAppend(s[1..], t, acc * 16 + DigitValue(s[0]));
    }
  }

  lemma {:induction false} HexValue(n: nat)
    ensures IsHex(Hex(n)) && DigitsValue(Hex(n), 0) == n
  {
    if n < 16 {
      assert DigitsValue(Hex(n)[1..], n) == n;
    } else {
      HexValue(n / 16);
      DigitsAppend(Hex(n / 16), [HexDigit(n % 16)], 0);
      assert DigitsValue([HexDigit(n % 16)][1..], n) == n;
    }
  }

  lemma {:induction false} ReadHexPrefix(s: string, rest: string, acc: nat)
    requires IsHex(s) && (rest != "" ==> DigitValue(rest[0]) >= 16)
    ensures ReadDigits(s + rest, 16, acc) == DigitsValue(s, acc)
  {
    if s == "" {
      assert s + rest == rest;
    } else {
      assert (s + rest)[1..] == s[1..] + rest;
      ReadHexPrefix(s[1..], rest, acc * 16 + DigitValue(s[0]));
    }
  }

  /** Printing a value in hexadecimal and parsing it again gives the value, up to saturation. */
  lemma ParsePrinted(value: nat)
    ensures ParseNumber("0x" + Hex(value) + "\n") == Saturated(value)
  {
    var s := "0x" + Hex(value) + "\n";
    HexValue(value);
    ReadHexPrefix(Hex(value), "\n", 0);
    assert s[2..] == Hex(value) + "\n";
    assert SkipSpaces(s) == s;
  }

  lemma {:induction false} IndexAfter(s: string, c: char, t: string)
    requires forall i :: 0 <= i < |s| ==> s[i] != c
    ensures IndexOf(s + [c] + t, c) == |s|
  {
    var u := s + [c] + t;
    assert u[|s|] == c;
  }

  lemma {:induction false} WholeKey(name: string)
    requires PlainName(name)
    ensures UpToSpace(name) == name
  {
    if name != "" {
      WholeKey(name[1..]);
    }
  }

  /** A printed line is cut into exactly its name and its value, up to saturation. */
  lemma SplitPrinted(name: string, value: nat)
    requires PlainName(name)
    ensures SplitKeyValue(SkipSpaces(Line(name, value))) == Ok((name, Saturated(value)))
  {
    var line, number := Line(name, value), "0x" + Hex(value) + "\n";
    assert line == name + ['='] + number;
    IndexAfter(name, '=', number);
    assert line[0] == if name == "" then '=' else name[0];
    assert SkipSpaces(line) == line;
    assert line[..|name|] == name && line[|name| + 1..] == number;
    WholeKey(name);
    ParsePrinted(value);
  }

  lemma NoNewline(name: string, value: nat)
    requires PlainName(name)
    ensures forall i :: 0 <= i < |Line(name, value)| - 1 ==> Line(name, value)[i] != '\n'
  {
    HexValue(value);
    var hex, line := Hex(value), Line(name, value);
    forall i | 0 <= i < |line| - 1 ensures line[i] != '\n' {
      if i < |name| {
        assert line[i] == name[i];
      } else if i >= |name| + 3 {
        assert line[i] == hex[i - |name| - 3];
      }
    }
  }

  /** getline gives back the printed line and goes on behind it. */
  lemma LinesOfPrinted(name: string, value: nat, rest: string)
    requires PlainName(name)
    ensures Lines(Line(name, value) + rest) == [Line(name, value)] + Lines(rest)
  {
    var line := Line(name, value);
    NoNewline(name, value);
    var body := line[..|line| - 1];
    assert line + rest == body + ['\n'] + rest;
    IndexAfter(body, '\n', rest);
    assert (line + rest)[..|line|] == line && (line + rest)[|line|..] == rest;
  }
}

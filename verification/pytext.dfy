/** The few Python string and integer primitives the identifier codec and the
    input forms rely on: `str.strip`, `str.lstrip(chars)`, `str.zfill`,
    `str(n)` for a non-negative `n`, and `int(text)` in base 10. */
module PyText {
  import opened Outcomes

  /** `c.isspace()`: the characters CPython treats as whitespace, and so the
      characters `str.strip()` removes. */
  predicate IsSpace(c: char) {
    var k := c as int;
    || (0x09 <= k <= 0x0D) || (0x1C <= k <= 0x20)
    || k == 0x85 || k == 0xA0 || k == 0x1680
    || (0x2000 <= k <= 0x200A)
    || k == 0x2028 || k == 0x2029 || k == 0x202F || k == 0x205F || k == 0x3000
  }

  /** The whitespace `int()` skips around a number. CPython maps non-ASCII
      whitespace to a space and then skips only the C-locale blanks
      `\t \n \v \f \r` and space, so the ASCII separators U+001C..U+001F,
      which `str.strip()` does remove, make `int()` fail. */
  predicate IsIntSpace(c: char) {
    IsSpace(c) && !(0x1C <= c as int <= 0x1F)
  }

  predicate IsDigit(c: char) {
    '0' <= c <= '9'
  }

  predicate IsZero(c: char) {
    c == '0'
  }

  /** `s.lstrip(chars)` where `p` recognises the characters in `chars`. */
  function LStripWhile(s: string, p: char -> bool): (r: string)
    ensures |r| <= |s| && r == s[|s| - |r|..]
    ensures forall i :: 0 <= i < |s| - |r| ==> p(s[i])
    ensures |r| > 0 ==> !p(r[0])
  {
    if |s| > 0 && p(s[0]) then
      var r := LStripWhile(s[1..], p);
      assert s[1..][|s| - 1 - |r|..] == s[|s| - |r|..];
      assert forall i :: 1 <= i < |s| - |r| ==> s[i] == s[1..][i - 1];
      r
    else s
  }

  /** `lstrip` removes everything when every character is in `chars`. */
  lemma {:induction false} LStripAll(s: string, p: char -> bool)
    requires forall i :: 0 <= i < |s| ==> p(s[i])
    ensures LStripWhile(s, p) == []
  {
    if |s| > 0 {
      LStripAll(s[1..], p);
    }
  }

  /** `s.rstrip(chars)` where `p` recognises the characters in `chars`. */
  function RStripWhile(s: string, p: char -> bool): (r: string)
    ensures |r| <= |s| && r == s[..|r|]
    ensures forall i :: |r| <= i < |s| ==> p(s[i])
    ensures |r| > 0 ==> !p(r[|r| - 1])
  {
    if |s| > 0 && p(s[|s| - 1]) then
      var r := RStripWhile(s[..|s| - 1], p);
      assert forall i :: |r| <= i < |s| - 1 ==> s[i] == s[..|s| - 1][i];
      r
    else s
  }

  /** Both `lstrip` and `rstrip` by the same set of characters. */
  function StripBy(s: string, p: char -> bool): string {
    RStripWhile(LStripWhile(s, p), p)
  }

  /** `s.strip()` */
  function Strip(s: string): string {
    StripBy(s, IsSpace)
  }

  /** The whitespace `int()` ignores on either side of the number. */
  function IntStrip(s: string): string {
    StripBy(s, IsIntSpace)
  }

  /** A character outside the stripped set survives the strip, and every
      character left at the front comes from the text. */
  lemma StripByKeeps(s: string, p: char -> bool, i: int) returns (j: int)
    requires 0 <= i < |s| && !p(s[i])
    ensures 0 <= j < |StripBy(s, p)| && StripBy(s, p)[j] == s[i]
    ensures StripBy(s, p)[0] == s[|s| - |LStripWhile(s, p)|]
  {
    var l := LStripWhile(s, p);
    var k := i - (|s| - |l|);
    assert 0 <= k < |l| && l[k] == s[i];
    var r := RStripWhile(l, p);
    assert k < |r|;
    j := k;
  }

  /** A character that is not whitespace survives `strip()`. */
  lemma StripKeeps(s: string, i: int) returns (j: int)
    requires 0 <= i < |s| && !IsSpace(s[i])
    ensures 0 <= j < |Strip(s)| && Strip(s)[j] == s[i]
  {
    j := StripByKeeps(s, IsSpace, i);
  }

  /** Text without whitespace is left alone by `strip()`, and by the
      narrower strip of `int()`. */
  lemma StripNoSpace(s: string)
    requires forall i :: 0 <= i < |s| ==> !IsSpace(s[i])
    ensures Strip(s) == s && IntStrip(s) == s
  {
  }

  /** `strip()` yields the empty string exactly when the text is all whitespace. */
  lemma StripBlank(s: string)
    ensures Strip(s) == [] <==> forall i :: 0 <= i < |s| ==> IsSpace(s[i])
  {
    if forall i :: 0 <= i < |s| ==> IsSpace(s[i]) {
    } else {
      var i :| 0 <= i < |s| && !IsSpace(s[i]);
      var j := StripKeeps(s, i);
    }
  }

  function DigitChar(d: int): (c: char)
    requires 0 <= d < 10
    ensures IsDigit(c) && c as int - '0' as int == d
  {
    ('0' as int + d) as char
  }

  /** The number spelled by the decimal digits of `t`, ignoring any `_`
      separators between them. */
  function DigitsValue(t: string): nat {
    if |t| == 0 then 0
    else if IsDigit(t[|t| - 1]) then DigitsValue(t[..|t| - 1]) * 10 + (t[|t| - 1] as int - '0' as int)
    else DigitsValue(t[..|t| - 1])
  }

  /** The digit syntax `int()` accepts after an optional sign: decimal digits,
      with single underscores allowed only between two digits. */
  predicate IsDigitGroups(t: string) {
    && |t| > 0
    && IsDigit(t[0])
    && forall i :: 0 <= i < |t| ==> GroupChar(t, i)
  }

  /** Position `i` of `t` holds a digit, or a separator followed by a digit. */
  predicate GroupChar(t: string, i: int)
    requires 0 <= i < |t|
  {
    IsDigit(t[i]) || (t[i] == '_' && i + 1 < |t| && IsDigit(t[i + 1]))
  }

  /** The most digits `int()` converts in base 10: the default of
      `sys.get_int_max_str_digits()` on interpreters that enforce the integer
      string conversion limit. Leading zeros count; separators do not. */
  const MaxStrDigits: nat := 4300

  /** How many decimal digits `t` holds. */
  function DigitCount(t: string): nat {
    if |t| == 0 then 0
    else DigitCount(t[..|t| - 1]) + (if IsDigit(t[|t| - 1]) then 1 else 0)
  }

  /** The digits of stripped text after an optional sign. */
  function Unsigned(t: string): (u: string)
    ensures |u| <= |t|
  {
    if |t| > 0 && (t[0] == '+' || t[0] == '-') then t[1..] else t
  }

  /** Python's `int(text)` in base 10: `None` is the `ValueError` it raises,
      for bad syntax and for more than `MaxStrDigits` digits alike. */
  function PyInt(text: string): Option<int> {
    var t := IntStrip(text);
    var body := Unsigned(t);
    if !IsDigitGroups(body) || DigitCount(body) > MaxStrDigits then None
    else if |t| > 0 && t[0] == '-' then Some(-(DigitsValue(body) as int))
    else Some(DigitsValue(body))
  }

  /** `str(n)` for a non-negative integer. */
  function Decimal(n: nat): (r: string)
    ensures |r| > 0 && forall i :: 0 <= i < |r| ==> IsDigit(r[i])
    ensures r[0] == '0' <==> n == 0
    ensures DigitsValue(r) == n
  {
    if n < 10 then [DigitChar(n)]
    else
      var front := Decimal(n / 10);
      assert (front + [DigitChar(n % 10)])[..|front|] == front;
      front + [DigitChar(n % 10)]
  }

  function Repeat(c: char, n: nat): (r: string)
    ensures |r| == n && forall i :: 0 <= i < n ==> r[i] == c
  {
    seq(n, _ => c)
  }

  function Max(a: int, b: int): int {
    if a < b then b else a
  }

  /** `s.zfill(width)` for an unsigned digit string: left-pads with `'0'` up to
      `width` characters and never truncates. */
  function ZFill(s: string, width: nat): (r: string)
    ensures |r| == Max(width, |s|)
    ensures r[|r| - |s|..] == s
    ensures forall i :: 0 <= i < |r| - |s| ==> r[i] == '0'
  {
    if |s| < width then Repeat('0', width - |s|) + s else s
  }

  /** Leading zeros add nothing to the value of a digit string. */
  lemma {:induction false} ZerosValue(z: string)
    requires forall i :: 0 <= i < |z| ==> z[i] == '0'
    ensures DigitsValue(z) == 0
  {
    if |z| > 0 {
      ZerosValue(z[..|z| - 1]);
    }
  }

  lemma {:induction false} LeadingZerosValue(z: string, t: string)
    requires forall i :: 0 <= i < |z| ==> z[i] == '0'
    ensures DigitsValue(z + t) == DigitsValue(t)
  {
    if |t| == 0 {
      assert z + t == z;
      ZerosValue(z);
    } else {
      var front := t[..|t| - 1];
      assert (z + t)[..|z + t| - 1] == z + front;
      LeadingZerosValue(z, front);
    }
  }

  /** In a run of digits every character counts against the limit. */
  lemma {:induction false} DigitCountAll(t: string)
    requires forall i :: 0 <= i < |t| ==> IsDigit(t[i])
    ensures DigitCount(t) == |t|
  {
    if |t| > 0 {
      DigitCountAll(t[..|t| - 1]);
    }
  }

  /** Neither strip touches a run of digits. */
  lemma DigitsUnstripped(t: string)
    requires forall i :: 0 <= i < |t| ==> IsDigit(t[i])
    ensures Strip(t) == t && IntStrip(t) == t
  {
    forall i | 0 <= i < |t|
      ensures !IsSpace(t[i])
    {
    }
    StripNoSpace(t);
  }

  /** `int()` on a non-empty run of ASCII digits: their value, unless there
      are more than the digit limit allows. */
  lemma PyIntOfDigits(t: string)
    requires |t| > 0 && forall i :: 0 <= i < |t| ==> IsDigit(t[i])
    ensures PyInt(t) == if |t| <= MaxStrDigits then Some(DigitsValue(t)) else None
  {
    DigitsUnstripped(t);
    assert t[0] != '+' && t[0] != '-';
    assert Unsigned(IntStrip(t)) == t;
    assert IsDigitGroups(t) by {
      forall i | 0 <= i < |t|
        ensures GroupChar(t, i)
      {
      }
    }
    DigitCountAll(t);
  }

  /** `int()` reads back any non-empty run of ASCII digits within the digit
      limit, leading zeros included. */
  lemma PyIntDigits(t: string)
    requires 0 < |t| <= MaxStrDigits && forall i :: 0 <= i < |t| ==> IsDigit(t[i])
    ensures PyInt(t) == Some(DigitsValue(t))
  {
    PyIntOfDigits(t);
  }

  /** Past the digit limit `int()` refuses even a plain run of digits. */
  lemma PyIntTooLong(t: string)
    requires |t| > MaxStrDigits && forall i :: 0 <= i < |t| ==> IsDigit(t[i])
    ensures PyInt(t) == None
  {
    PyIntOfDigits(t);
  }

  /** `int()` rejects text that is empty once whitespace is stripped. */
  lemma PyIntBlank(text: string)
    requires forall i :: 0 <= i < |text| ==> IsSpace(text[i])
    ensures PyInt(text) == None
  {
    var l := LStripWhile(text, IsIntSpace);
    var t := RStripWhile(l, IsIntSpace);
    if |t| > 0 {
      assert t[0] == l[0] == text[|text| - |l|];
      assert IsSpace(t[0]) && t[0] != '+' && t[0] != '-' && !IsDigit(t[0]);
      assert Unsigned(t) == t;
    }
    assert !IsDigitGroups(Unsigned(t));
  }

  /** An ASCII separator such as U+001C is whitespace to `strip()` but not to
      `int()`: the id field `"\x1c1"` strips to `"1"` yet does not parse. */
  lemma SeparatorNotIntSpace()
    ensures Strip([28 as char, '1']) == "1"
    ensures PyInt([28 as char, '1']) == None
  {
    var text := [28 as char, '1'];
    assert IsSpace(text[0]) && !IsSpace(text[1]) && !IsIntSpace(text[0]);
    assert text[1..] == "1";
    assert LStripWhile("1", IsSpace) == "1";
    assert LStripWhile(text, IsSpace) == "1";
    assert RStripWhile("1", IsSpace) == "1";
    assert LStripWhile(text, IsIntSpace) == text;
    assert RStripWhile(text, IsIntSpace) == text;
    assert !IsDigitGroups(text);
  }

  /** A character that is neither a digit nor a separator spoils the digit syntax. */
  lemma NotDigitGroups(u: string, k: int)
    requires 0 <= k < |u| && !IsDigit(u[k]) && u[k] != '_'
    ensures !IsDigitGroups(u)
  {
    assert !GroupChar(u, k);
  }

  /** `int()` rejects text holding a character that can be neither its
      whitespace, a sign, a digit nor a separator. */
  lemma PyIntForeign(text: string, i: int)
    requires 0 <= i < |text|
    requires !IsIntSpace(text[i]) && !IsDigit(text[i]) && text[i] !in "+-_"
    ensures PyInt(text) == None
  {
    var t := IntStrip(text);
    var j := StripByKeeps(text, IsIntSpace, i);
    assert t[j] != '_' && t[j] != '+' && t[j] != '-' && !IsDigit(t[j]);
    if |t| > 0 && (t[0] == '+' || t[0] == '-') {
      assert j > 0 && t[1..][j - 1] == t[j];
      NotDigitGroups(t[1..], j - 1);
    } else {
      NotDigitGroups(t, j);
    }
    assert !IsDigitGroups(Unsigned(t));
  }

  /** A character `int()` cannot accept is not a zero either, so it
      survives `lstrip('0')` and `int()` still refuses what is left. */
  lemma ZeroStripForeign(t: string, i: int)
    requires 0 <= i < |t|
    requires !IsIntSpace(t[i]) && !IsDigit(t[i]) && t[i] !in "+-_"
    ensures PyInt(LStripWhile(t, IsZero)) == None
  {
    var l := LStripWhile(t, IsZero);
    assert !IsZero(t[i]);
    assert i >= |t| - |l|;
    var k := i - (|t| - |l|);
    assert l[k] == t[i];
    PyIntForeign(l, k);
  }
}

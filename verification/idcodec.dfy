/** Display identifiers: zero-padded decimal ids, optionally prefixed, and the
    three `parse_id` helpers that turn what an operator typed back into a key.
    `None` from a parser is the `ValueError` Python raises. */
module IdCodec {
  import opened Outcomes
  import opened PyText

  /** Book and transaction ids: no prefix, four digits. */
  const BookWidth: nat := 4
  /** Member ids: `mem` followed by three digits. */
  const MemberPrefix := "mem"
  const MemberWidth: nat := 3

  /** `format_id(n, prefix, digits)`: the prefix, then the decimal digits of
      `n` left-padded with zeros to at least `width` characters. */
  function FormatId(n: nat, prefix: string, width: nat): (r: string)
    ensures |r| == |prefix| + Max(width, |Decimal(n)|)
    ensures r[..|prefix|] == prefix
    ensures r[|r| - |Decimal(n)|..] == Decimal(n)
    ensures forall i :: |prefix| <= i < |r| - |Decimal(n)| ==> r[i] == '0'
  {
    prefix + ZFill(Decimal(n), width)
  }

  /** `format_id(n)` with its defaults, used for books and transactions. */
  function FormatBookId(n: nat): string {
    FormatId(n, "", BookWidth)
  }

  /** `format_member_id(n)`: the same layout as `format_id` with prefix `mem`
      and width 3. */
  function FormatMemberId(n: nat): (r: string)
    ensures r == FormatId(n, MemberPrefix, MemberWidth)
    ensures |r| >= 6 && r[..3] == "mem"
  {
    "mem" + ZFill(Decimal(n), 3)
  }

  function AsciiLower(c: char): char {
    if 'A' <= c <= 'Z' then (c as int + 32) as char else c
  }

  /** `t.lower().startswith('mem')` */
  predicate HasMemPrefix(t: string) {
    |t| >= 3 && AsciiLower(t[0]) == 'm' && AsciiLower(t[1]) == 'e' && AsciiLower(t[2]) == 'm'
  }

  /** The `parse_id` of the update-book and return-book windows: blank text is
      0, otherwise leading zeros are dropped and the rest goes to `int()`. */
  function ParsePlainId(text: string): Option<int> {
    if Strip(text) == [] then Some(0) else PyInt(LStripWhile(text, IsZero))
  }

  /** The `parse_id` of the issue-book window, used for both member and book
      ids: the text is stripped first, and a case-insensitive `mem` prefix is
      cut off before `int()`. */
  function ParseIssueId(text: string): Option<int> {
    var t := Strip(text);
    if HasMemPrefix(t) then
      if |t| > 3 then PyInt(t[3..]) else Some(0)
    else if t == [] then Some(0)
    else PyInt(LStripWhile(t, IsZero))
  }

  /** Stripping the zeros off a zero-padded number leaves exactly its digits. */
  lemma {:induction false} StripPadding(z: string, d: string)
    requires forall i :: 0 <= i < |z| ==> z[i] == '0'
    requires |d| > 0 && d[0] != '0'
    ensures LStripWhile(z + d, IsZero) == d
  {
    if |z| > 0 {
      assert (z + d)[1..] == z[1..] + d;
      StripPadding(z[1..], d);
    } else {
      assert z + d == d;
    }
  }

  /** The zero-padded digits of `n`, split into their padding and `str(n)`. */
  lemma PaddedDigits(n: nat, width: nat) returns (z: string)
    ensures forall i :: 0 <= i < |z| ==> z[i] == '0'
    ensures ZFill(Decimal(n), width) == z + Decimal(n)
  {
    var p := ZFill(Decimal(n), width);
    z := p[..|p| - |Decimal(n)|];
    assert p == z + p[|p| - |Decimal(n)|..];
  }

  /** On a run of digits both parsers come down to `int()` after the zeros
      are stripped. */
  lemma DigitTextParse(text: string)
    requires |text| > 0 && forall i :: 0 <= i < |text| ==> IsDigit(text[i])
    ensures ParsePlainId(text) == PyInt(LStripWhile(text, IsZero))
    ensures ParseIssueId(text) == PyInt(LStripWhile(text, IsZero))
  {
    StripNoSpace(text);
    assert Strip(text) == text;
    assert AsciiLower(text[0]) == text[0];
    assert !HasMemPrefix(text);
  }

  /** A zero-padded digit string without a leading zero of its own parses
      to the value of its digits. */
  lemma PaddedParse(z: string, d: string)
    requires forall i :: 0 <= i < |z| ==> z[i] == '0'
    requires 0 < |d| <= MaxStrDigits && d[0] != '0' && forall i :: 0 <= i < |d| ==> IsDigit(d[i])
    ensures ParsePlainId(z + d) == Some(DigitsValue(d))
    ensures ParseIssueId(z + d) == Some(DigitsValue(d))
  {
    var text := z + d;
    assert forall i :: 0 <= i < |text| ==> IsDigit(text[i]);
    DigitTextParse(text);
    StripPadding(z, d);
    PyIntDigits(d);
  }

  /** Every display id of a positive key, at any width, parses back to the key
      with the plain `parse_id`, and with the issue window's `parse_id` too.
      The padding is stripped before `int()`, so only the key's own digits
      meet the digit limit. */
  lemma PlainRoundTrip(n: nat, width: nat)
    requires n >= 1 && |Decimal(n)| <= MaxStrDigits
    ensures ParsePlainId(FormatId(n, "", width)) == Some(n)
    ensures ParseIssueId(FormatId(n, "", width)) == Some(n)
  {
    var z := PaddedDigits(n, width);
    assert FormatId(n, "", width) == z + Decimal(n);
    PaddedParse(z, Decimal(n));
  }

  /** Book and transaction ids as displayed are read back by the update and
      return windows. */
  lemma BookIdRoundTrip(n: nat)
    requires n >= 1 && |Decimal(n)| <= MaxStrDigits
    ensures ParsePlainId(FormatBookId(n)) == Some(n)
  {
    PlainRoundTrip(n, BookWidth);
  }

  /** A run of zeros, however long, makes the plain `parse_id` raise. */
  lemma ZerosPlainFail(text: string)
    requires |text| > 0 && forall i :: 0 <= i < |text| ==> text[i] == '0'
    ensures ParsePlainId(text) == None
  {
    DigitsUnstripped(text);
    LStripAll(text, IsZero);
    PyIntBlank([]);
  }

  /** Key 0 formats to all zeros, which the plain `parse_id` cannot read back:
      `lstrip('0')` leaves nothing for `int()`. */
  lemma PlainZeroFails(width: nat)
    ensures ParsePlainId(FormatId(0, "", width)) == None
  {
    var text := FormatId(0, "", width);
    assert Decimal(0) == "0";
    assert forall i :: 0 <= i < |text| ==> text[i] == '0';
    ZerosPlainFail(text);
  }

  /** The letters of a `mem` prefix are no whitespace. */
  lemma MemPrefixNotSpace(c: char)
    requires AsciiLower(c) == 'm' || AsciiLower(c) == 'e'
    ensures !IsSpace(c)
  {
  }

  /** A `mem` prefix followed by digits holds no whitespace. */
  lemma MemTextNoSpace(prefix: string, digits: string)
    requires |prefix| == 3 && HasMemPrefix(prefix)
    requires forall i :: 0 <= i < |digits| ==> IsDigit(digits[i])
    ensures forall i :: 0 <= i < |prefix + digits| ==> !IsSpace((prefix + digits)[i])
  {
    MemPrefixNotSpace(prefix[0]);
    MemPrefixNotSpace(prefix[1]);
    MemPrefixNotSpace(prefix[2]);
    forall i | 0 <= i < |prefix + digits|
      ensures !IsSpace((prefix + digits)[i])
    {
      if i >= 3 {
        assert (prefix + digits)[i] == digits[i - 3];
      }
    }
  }

  /** After a `mem` prefix, the issue window hands the rest, leading zeros
      and all, to `int()`. */
  lemma MemParse(prefix: string, digits: string)
    requires |prefix| == 3 && HasMemPrefix(prefix)
    requires |digits| > 0 && forall i :: 0 <= i < |digits| ==> IsDigit(digits[i])
    ensures ParseIssueId(prefix + digits) == PyInt(digits)
  {
    var text := prefix + digits;
    MemTextNoSpace(prefix, digits);
    StripNoSpace(text);
    assert text[..3] == prefix && text[3..] == digits;
    assert HasMemPrefix(Strip(text));
  }

  /** The issue window reads a `mem` id back whatever the case of the prefix,
      for every key including 0, as long as the padded digits stay within
      `int()`'s digit limit. */
  lemma MemRoundTrip(prefix: string, n: nat, width: nat)
    requires |prefix| == 3 && HasMemPrefix(prefix)
    requires Max(width, |Decimal(n)|) <= MaxStrDigits
    ensures ParseIssueId(prefix + ZFill(Decimal(n), width)) == Some(n)
  {
    var z := PaddedDigits(n, width);
    var digits := z + Decimal(n);
    assert forall i :: 0 <= i < |digits| ==> IsDigit(digits[i]);
    MemParse(prefix, digits);
    PyIntDigits(digits);
    LeadingZerosValue(z, Decimal(n));
  }

  /** Padding a `mem` id past the digit limit makes the issue window refuse
      it, even though the key itself is short. */
  lemma MemTooLong(prefix: string, n: nat, width: nat)
    requires |prefix| == 3 && HasMemPrefix(prefix)
    requires width > MaxStrDigits
    ensures ParseIssueId(prefix + ZFill(Decimal(n), width)) == None
  {
    var digits := ZFill(Decimal(n), width);
    assert forall i :: 0 <= i < |digits| ==> IsDigit(digits[i]);
    MemParse(prefix, digits);
    PyIntTooLong(digits);
  }

  /** Every member id the program can display, up to the digit limit, is read
      back by the issue window. */
  lemma MemberRoundTrip(n: nat)
    requires |Decimal(n)| <= MaxStrDigits
    ensures ParseIssueId(FormatMemberId(n)) == Some(n)
  {
    MemRoundTrip("mem", n, MemberWidth);
  }

  /** Blank input parses to key 0 in every variant. */
  lemma BlankIsZero(text: string)
    requires forall i :: 0 <= i < |text| ==> IsSpace(text[i])
    ensures ParsePlainId(text) == Some(0)
    ensures ParseIssueId(text) == Some(0)
  {
    StripBlank(text);
  }

  /** A bare `mem`, in any case and with any surrounding whitespace, is key 0. */
  lemma BareMemIsZero(text: string)
    requires |Strip(text)| == 3 && HasMemPrefix(Strip(text))
    ensures ParseIssueId(text) == Some(0)
  {
  }

  /** Non-blank text holding a character that is neither `int()`'s
      whitespace, a digit, a sign nor a separator is refused by the plain
      `parse_id`; the ASCII separators U+001C..U+001F included. */
  lemma PlainRejectsForeign(text: string, i: int)
    requires 0 <= i < |text| && Strip(text) != []
    requires !IsIntSpace(text[i]) && !IsDigit(text[i]) && text[i] !in "+-_"
    ensures ParsePlainId(text) == None
  {
    ZeroStripForeign(text, i);
  }

  /** A leading U+001C is stripped by the blank test but not by `int()`, so
      the plain `parse_id` refuses `"\x1c1"`. */
  lemma PlainRejectsSeparator()
    ensures ParsePlainId([28 as char, '1']) == None
  {
    SeparatorNotIntSpace();
    PlainRejectsForeign([28 as char, '1'], 0);
  }

  /** Without a `mem` prefix the issue window reads non-blank text as the
      plain one does after stripping: `int()` of it with the zeros removed. */
  lemma IssueUnprefixed(text: string)
    requires !HasMemPrefix(Strip(text)) && Strip(text) != []
    ensures ParseIssueId(text) == PyInt(LStripWhile(Strip(text), IsZero))
  {
  }

  /** After `strip()`, with no `mem` prefix, a character of the stripped
      text that is neither `int()`'s whitespace, a digit, a sign nor a
      separator is refused by the issue window; U+001C..U+001F inside the
      text count, a leading or trailing one is stripped first. */
  lemma IssueRejectsForeign(text: string, i: int)
    requires !HasMemPrefix(Strip(text)) && 0 <= i < |Strip(text)|
    requires !IsIntSpace(Strip(text)[i]) && !IsDigit(Strip(text)[i]) && Strip(text)[i] !in "+-_"
    ensures ParseIssueId(text) == None
  {
    IssueUnprefixed(text);
    ZeroStripForeign(Strip(text), i);
  }

  /** In the issue window a separator at either end is stripped first, so
      `"\x1c1"`, which the plain `parse_id` refuses, reads as 1. */
  lemma IssueStripsSeparator()
    ensures ParseIssueId([28 as char, '1']) == Some(1)
  {
    SeparatorNotIntSpace();
    IssueUnprefixed([28 as char, '1']);
    OneUnpadded();
  }

  /** `int("1".lstrip('0'))` is 1. */
  lemma OneUnpadded()
    ensures PyInt(LStripWhile("1", IsZero)) == Some(1)
  {
    assert "1"[1..] == [];
    assert LStripWhile("1", IsZero) == "1";
    assert "1"[..0] == [];
    assert DigitsValue("1") == 1;
    PyIntDigits("1");
  }

  /** A separator inside the text survives `strip()`, so the issue window
      refuses `"1\x1c2"`. */
  lemma IssueRejectsSeparator()
    ensures ParseIssueId(['1', 28 as char, '2']) == None
  {
    var text := ['1', 28 as char, '2'];
    assert LStripWhile(text, IsSpace) == text;
    assert RStripWhile(text, IsSpace) == text;
    assert Strip(text) == text;
    IssueRejectsForeign(text, 1);
  }

  /** After a `mem` prefix of any case, a remainder holding a character
      that is neither `int()`'s whitespace, a digit, a sign nor a separator
      is refused by the issue window. */
  lemma MemRejectsForeign(text: string, i: int)
    requires HasMemPrefix(Strip(text)) && 3 <= i < |Strip(text)|
    requires !IsIntSpace(Strip(text)[i]) && !IsDigit(Strip(text)[i]) && Strip(text)[i] !in "+-_"
    ensures ParseIssueId(text) == None
  {
    var t := Strip(text);
    assert t[3..][i - 3] == t[i];
    PyIntForeign(t[3..], i - 3);
  }
}

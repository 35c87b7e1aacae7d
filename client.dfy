/** The browser-side helpers: the phone number formatter of the input fields
    and the live search that hides table rows. */
module Client {

  predicate IsDigit(c: char) {
    '0' <= c <= '9'
  }

  /** The digits of `s` in their original order (s.replace(/\D/g, '')). */
  function Digits(s: string): (r: string)
    ensures |r| <= |s|
    decreases |s|
  {
    if s == [] then []
    else (if IsDigit(s[0]) then [s[0]] else []) + Digits(s[1..])
  }

  predicate AllDigits(s: string) {
    forall i :: 0 <= i < |s| ==> IsDigit(s[i])
  }

  /** Digit extraction keeps only digits. */
  lemma {:induction false} DigitsAreDigits(s: string)
    ensures AllDigits(Digits(s))
    decreases |s|
  {
    if s != [] {
      DigitsAreDigits(s[1..]);
    }
  }

  /** Digit extraction drops no digit: each digit occurs as often as in the input. */
  lemma {:induction false} DigitsKeepEveryDigit(s: string, c: char)
    requires IsDigit(c)
    ensures multiset(Digits(s))[c] == multiset(s)[c]
    decreases |s|
  {
    if s != [] {
      DigitsKeepEveryDigit(s[1..], c);
      assert s == [s[0]] + s[1..];
      assert multiset(s) == multiset([s[0]]) + multiset(s[1..]);
    }
  }

  /** There is nothing left exactly when the input has no digit. */
  lemma {:induction false} DigitsEmptyIff(s: string)
    ensures Digits(s) == [] <==> forall i :: 0 <= i < |s| ==> !IsDigit(s[i])
    decreases |s|
  {
    if s != [] {
      DigitsEmptyIff(s[1..]);
      assert forall i :: 1 <= i < |s| ==> s[i] == s[1..][i - 1];
    }
  }

  /** A string of digits comes back unchanged. */
  lemma {:induction false} DigitsOfDigits(s: string)
    requires AllDigits(s)
    ensures Digits(s) == s
    decreases |s|
  {
    if s != [] {
      DigitsOfDigits(s[1..]);
    }
  }

  /** Extracting the digits of a concatenation extracts each part's digits. */
  lemma {:induction false} DigitsAppend(a: string, b: string)
    ensures Digits(a + b) == Digits(a) + Digits(b)
    decreases |a|
  {
    if a == [] {
      assert a + b == b;
    } else {
      var head := if IsDigit(a[0]) then [a[0]] else [];
      assert (a + b)[0] == a[0];
      assert (a + b)[1..] == a[1..] + b;
      DigitsAppend(a[1..], b);
      calc {
        Digits(a + b);
        head + Digits(a[1..] + b);
        head + (Digits(a[1..]) + Digits(b));
        (head + Digits(a[1..])) + Digits(b);
      }
    }
  }

  /** String.prototype.substring: both ends are clamped to [0, |s|] and
      swapped when the start lies past the end. */
  function Substring(s: string, start: int, end: int): (r: string)
    ensures |r| <= |s|
    ensures 0 <= start <= end ==> |r| <= end - start
    ensures 0 <= start <= end <= |s| ==> r == s[start..end]
  {
    var a := if start < 0 then 0 else if start > |s| then |s| else start;
    var b := if end < 0 then 0 else if end > |s| then |s| else end;
    if a <= b then s[a..b] else s[b..a]
  }

  /** substring does not care which end comes first. */
  lemma SubstringSwap(s: string, start: int, end: int)
    ensures Substring(s, start, end) == Substring(s, end, start)
  {
  }

  /** Ends past the string read as its length, negative ends as 0. */
  lemma SubstringClamps(s: string, start: int, end: int)
    ensures end > |s| ==> Substring(s, start, end) == Substring(s, start, |s|)
    ensures start < 0 ==> Substring(s, start, end) == Substring(s, 0, end)
    ensures 0 <= start <= |s| < end ==> Substring(s, start, end) == s[start..]
  {
  }

  /** At most the first 11 digits are kept. */
  function Truncated(d: string): (t: string)
    ensures |t| <= 11 && |t| <= |d| && t == d[..|t|]
    ensures |d| <= 11 ==> t == d
    ensures |d| >= 11 ==> t == d[..11]
  {
    if |d| >= 11 then d[..11] else d
  }

  /** formatPhoneNumber: the new value of the input field, as the template
      "+7 (XXX) XXX-XXXX" filled with the kept digits after the first one, or
      the empty string when the input has no digit. */
  function FormatPhone(input: string): (r: string)
    ensures |r| <= 17
    ensures r == [] <==> Digits(input) == []
  {
    var value := Truncated(Digits(input));
    if |value| > 0 then
      "+7 (" + Substring(value, 1, 4) + ") " + Substring(value, 4, 7) + "-" + Substring(value, 7, 11)
    else value
  }

  /** For kept digits t of length at most 11, the three substrings in the
      template are t without its first digit, split after 3 and 6 digits. */
  lemma TemplateParts(t: string)
    requires 0 < |t| <= 11
    ensures Substring(t, 1, 4) + Substring(t, 4, 7) + Substring(t, 7, 11) == t[1..]
  {
  }

  /** The fixed parts of the template hold one digit: the 7 of "+7 (". */
  lemma DigitsOfTemplateText()
    ensures Digits("+7 (") == "7" && Digits(") ") == [] && Digits("-") == []
  {
    assert "+7 ("[1..] == "7 (" && "7 ("[1..] == " (" && " ("[1..] == "(";
    assert ") "[1..] == " ";
  }

  /** A run of digits between two other strings keeps its digits in place. */
  lemma DigitsAround(lit: string, p: string, rest: string)
    requires AllDigits(p)
    ensures Digits(lit + (p + rest)) == Digits(lit) + (p + Digits(rest))
  {
    DigitsOfDigits(p);
    DigitsAppend(p, rest);
    DigitsAppend(lit, p + rest);
  }

  /** The template contributes the digit 7 and nothing else. */
  lemma DigitsOfTemplate(p1: string, p2: string, p3: string)
    requires AllDigits(p1) && AllDigits(p2) && AllDigits(p3)
    ensures Digits("+7 (" + p1 + ") " + p2 + "-" + p3) == "7" + (p1 + p2 + p3)
  {
    DigitsOfTemplateText();
    var s3 := "-" + p3;
    assert Digits(s3) == p3 by {
      DigitsOfDigits(p3);
      DigitsAppend("-", p3);
    }
    var s1 := ") " + (p2 + s3);
    assert Digits(s1) == p2 + p3 by {
      DigitsAround(") ", p2, s3);
    }
    var s0 := "+7 (" + (p1 + s1);
    assert Digits(s0) == "7" + (p1 + (p2 + p3)) by {
      DigitsAround("+7 (", p1, s1);
    }
    assert "+7 (" + p1 + ") " + p2 + "-" + p3 == s0 by {
      ConcatRight("+7 (", p1, ") ", p2, "-", p3);
    }
    assert p1 + (p2 + p3) == p1 + p2 + p3;
  }

  /** Six strings joined left to right or right to left give the same string. */
  lemma ConcatRight(a: string, b: string, c: string, d: string, e: string, f: string)
    ensures a + b + c + d + e + f == a + (b + (c + (d + (e + f))))
  {
  }

  /** The digits of a formatted number are "7" followed by the kept digits
      without their first one: the formatter replaces the first digit by the
      country code 7 and keeps the rest in order. */
  lemma FormatPhoneDigits(input: string)
    ensures var t := Truncated(Digits(input));
      Digits(FormatPhone(input)) == if t == [] then [] else "7" + t[1..]
  {
    var t := Truncated(Digits(input));
    if t != [] {
      DigitsAreDigits(input);
      var p1, p2, p3 := Substring(t, 1, 4), Substring(t, 4, 7), Substring(t, 7, 11);
      assert AllDigits(p1) && AllDigits(p2) && AllDigits(p3);
      DigitsOfTemplate(p1, p2, p3);
      TemplateParts(t);
    }
  }

  /** Two strings that differ at most in their first character have the same
      substrings away from it. */
  lemma SubstringPastFirst(t: string, u: string, start: int, end: int)
    requires |t| == |u| >= 1 && t[1..] == u[1..]
    requires 1 <= start <= end
    ensures Substring(t, start, end) == Substring(u, start, end)
  {
    var a := if start > |t| then |t| else start;
    var b := if end > |t| then |t| else end;
    assert 1 <= a <= b <= |t|;
    forall k | 0 <= k < b - a
      ensures t[a..b][k] == u[a..b][k]
    {
      assert t[a + k] == t[1..][a + k - 1];
      assert u[a + k] == u[1..][a + k - 1];
    }
  }

  /** Formatting is idempotent: re-formatting a formatted value leaves it as
      it is. */
  lemma FormatPhoneIdempotent(input: string)
    ensures FormatPhone(FormatPhone(input)) == FormatPhone(input)
  {
    var t := Truncated(Digits(input));
    if t != [] {
      FormatPhoneDigits(input);
      var t2 := "7" + t[1..];
      assert Truncated(Digits(FormatPhone(input))) == t2;
      assert t2[1..] == t[1..];
      SubstringPastFirst(t2, t, 1, 4);
      SubstringPastFirst(t2, t, 4, 7);
      SubstringPastFirst(t2, t, 7, 11);
    }
  }

  /** A phone input element: its value is the only state the formatter touches. */
  class PhoneInput {
    var value: string

    constructor (value: string)
      ensures this.value == value
    {
      this.value := value;
    }

    /** formatPhoneNumber(input): rewrites the input's value in place. */
    method FormatPhoneNumber()
      modifies this
      ensures value == FormatPhone(old(value))
      ensures |value| <= 17
    {
      var digits := Digits(value);
      var v := Truncated(digits);
      if |v| > 0 {
        v := "+7 (" + Substring(v, 1, 4) + ") " + Substring(v, 4, 7) + "-" + Substring(v, 7, 11);
      }
      value := v;
    }
  }

  /** toLowerCase on the letters the directory holds: Basic Latin and the
      Cyrillic capitals U+0400 to U+042F; every other character is kept. */
  function LowerChar(c: char): (l: char)
    ensures !('A' <= l <= 'Z') && !('\U{0400}' <= l <= '\U{042F}')
    ensures !('A' <= c <= 'Z') && !('\U{0400}' <= c <= '\U{042F}') ==> l == c
  {
    if 'A' <= c <= 'Z' then (c as int + 32) as char
    else if '\U{0410}' <= c <= '\U{042F}' then (c as int + 32) as char
    else if '\U{0400}' <= c <= '\U{040F}' then (c as int + 80) as char
    else c
  }

  function Lower(s: string): (r: string)
    ensures |r| == |s|
    ensures forall i :: 0 <= i < |s| ==> r[i] == LowerChar(s[i])
  {
    seq(|s|, i requires 0 <= i < |s| => LowerChar(s[i]))
  }

  /** Lower-casing twice is lower-casing once. */
  lemma LowerIdempotent(s: string)
    ensures Lower(Lower(s)) == Lower(s)
  {
    forall i | 0 <= i < |s|
      ensures LowerChar(LowerChar(s[i])) == LowerChar(s[i])
    {
    }
  }

  /** String.prototype.includes: `pattern` occurs in `text` at some position. */
  function Contains(text: string, pattern: string): (b: bool)
    ensures b ==> |pattern| <= |text|
    ensures pattern == [] ==> b
    decreases |text|
  {
    |pattern| <= |text| && (text[..|pattern|] == pattern || Contains(text[1..], pattern))
  }

  /** `pattern` occurs in `text` starting at position `i`. */
  predicate OccursAt(text: string, pattern: string, i: int) {
    0 <= i && i + |pattern| <= |text| && text[i..i + |pattern|] == pattern
  }

  /** The recursive search finds exactly the positions where the pattern occurs. */
  lemma {:induction false} ContainsIff(text: string, pattern: string)
    ensures Contains(text, pattern) <==> exists i :: OccursAt(text, pattern, i)
    decreases |text|
  {
    if |pattern| <= |text| {
      if text[..|pattern|] == pattern {
        assert OccursAt(text, pattern, 0);
      } else {
        ContainsIff(text[1..], pattern);
        if Contains(text[1..], pattern) {
          var i :| OccursAt(text[1..], pattern, i);
          assert text[i + 1..i + 1 + |pattern|] == text[1..][i..i + |pattern|];
          assert OccursAt(text, pattern, i + 1);
        }
        if exists i :: OccursAt(text, pattern, i) {
          var i :| OccursAt(text, pattern, i);
          assert i != 0;
          assert text[1..][i - 1..i - 1 + |pattern|] == text[i..i + |pattern|];
          assert OccursAt(text[1..], pattern, i - 1);
        }
      }
    }
  }

  /** The search predicate of the keyup handler. */
  predicate Visible(rowText: string, search: string)
    ensures Visible(rowText, search) ==> |search| <= |rowText|
  {
    Contains(Lower(rowText), Lower(search))
  }

  /** An empty search shows every row. */
  lemma {:induction false} EmptySearchShowsAll(rowText: string)
    ensures Visible(rowText, "")
  {
    assert Lower(rowText)[..0] == [];
  }

  /** The search ignores case on either side. */
  lemma SearchIgnoresCase(rowText: string, search: string)
    ensures Visible(rowText, search) == Visible(Lower(rowText), search)
    ensures Visible(rowText, search) == Visible(rowText, Lower(search))
  {
    LowerIdempotent(rowText);
    LowerIdempotent(search);
  }

  /** Typing more characters only hides rows: a row visible for a longer
      search is visible for every prefix of it. */
  lemma SearchNarrows(rowText: string, search: string, more: string)
    ensures Visible(rowText, search + more) ==> Visible(rowText, search)
  {
    var t, p, q := Lower(rowText), Lower(search), Lower(search + more);
    assert |p| <= |q| && q[..|p|] == p by {
      forall k | 0 <= k < |p|
        ensures q[k] == p[k]
      {
        assert (search + more)[k] == search[k];
      }
    }
    ContainsIff(t, q);
    ContainsIff(t, p);
    if Contains(t, q) {
      var i :| OccursAt(t, q, i);
      OccursAtPrefix(t, q, p, i);
    }
  }

  /** Where a pattern occurs, so does each of its prefixes. */
  lemma OccursAtPrefix(text: string, pattern: string, prefix: string, i: int)
    requires OccursAt(text, pattern, i)
    requires |prefix| <= |pattern| && pattern[..|prefix|] == prefix
    ensures OccursAt(text, prefix, i)
  {
    assert text[i..i + |prefix|] == text[i..i + |pattern|][..|prefix|];
  }

  /** A row of a searchable table: its text and its display style. */
  class TableRow {
    const text: string
    var display: string

    constructor (text: string)
      ensures this.text == text && display == ""
    {
      this.text := text;
      display := "";
    }
  }

  /** The keyup handler: every row whose text matches the search is shown
      (display ""), every other row is hidden (display "none"). */
  method ApplySearch(rows: seq<TableRow>, search: string)
    modifies set r | r in rows
    ensures forall i :: 0 <= i < |rows| ==>
      rows[i].display == if Visible(rows[i].text, search) then "" else "none"
  {
    var searchValue := Lower(search);
    for i := 0 to |rows|
      invariant forall j :: 0 <= j < i ==>
        rows[j].display == if Visible(rows[j].text, search) then "" else "none"
    {
      var rowText := Lower(rows[i].text);
      rows[i].display := if Contains(rowText, searchValue) then "" else "none";
    }
  }
}

/** The parts of Python's `str` behaviour the registry relies on: ASCII case mapping
    (`lower`, `upper`, `title`), substring membership (`a in b`), string ordering
    (`<=`, used when a list of choices is sorted), and the conversions `str(n)` and
    `int(s)` between natural numbers and decimal text. */
module Text {
  import opened Exceptions

  predicate IsDigit(c: char) { '0' <= c <= '9' }
  predicate IsAsciiUpper(c: char) { 'A' <= c <= 'Z' }
  predicate IsAsciiLower(c: char) { 'a' <= c <= 'z' }
  predicate IsLetter(c: char) { IsAsciiUpper(c) || IsAsciiLower(c) }

  function LowerChar(c: char): (r: char)
    ensures !IsAsciiUpper(r)
    ensures IsLetter(r) <==> IsLetter(c)
    ensures !IsAsciiUpper(c) ==> r == c
  {
    if IsAsciiUpper(c) then (c as int + 32) as char else c
  }

  function UpperChar(c: char): (r: char)
    ensures !IsAsciiLower(r)
    ensures IsLetter(r) <==> IsLetter(c)
    ensures !IsAsciiLower(c) ==> r == c
  {
    if IsAsciiLower(c) then (c as int - 32) as char else c
  }

  /** `s.lower()`: every upper-case letter becomes its lower-case partner, nothing else
      changes, so no upper-case letter is left. */
  function Lower(s: string): (r: string)
    ensures |r| == |s|
    ensures forall i :: 0 <= i < |r| ==> IsAsciiUpper(s[i]) ==> r[i] == (s[i] as int + 32) as char
    ensures forall i :: 0 <= i < |r| ==> !IsAsciiUpper(s[i]) ==> r[i] == s[i]
    ensures forall i :: 0 <= i < |r| ==> !IsAsciiUpper(r[i])
  {
    seq(|s|, i requires 0 <= i < |s| => LowerChar(s[i]))
  }

  /** `s.upper()`: every lower-case letter becomes its upper-case partner, nothing else
      changes, so no lower-case letter is left. */
  function Upper(s: string): (r: string)
    ensures |r| == |s|
    ensures forall i :: 0 <= i < |r| ==> IsAsciiLower(s[i]) ==> r[i] == (s[i] as int - 32) as char
    ensures forall i :: 0 <= i < |r| ==> !IsAsciiLower(s[i]) ==> r[i] == s[i]
    ensures forall i :: 0 <= i < |r| ==> !IsAsciiLower(r[i])
  {
    seq(|s|, i requires 0 <= i < |s| => UpperChar(s[i]))
  }

  /** The operator's "no" answer: `answer.lower() == "n"` holds for exactly two answers. */
  lemma LowerIsNo(answer: string)
    ensures Lower(answer) == "n" <==> answer == "n" || answer == "N"
  {
    if Lower(answer) == "n" {
      assert |answer| == 1 && Lower(answer)[0] == 'n';
      assert LowerChar(answer[0]) == 'n';
      assert answer == [answer[0]];
    }
  }

  /** `title()` scanning from a position whose previous character was (or was not) cased:
      a letter after a letter is lowered, any other character is raised. */
  function TitleFrom(s: string, previousIsCased: bool): (r: string)
    ensures |r| == |s|
    ensures forall i :: 0 <= i < |s| ==> (IsLetter(r[i]) <==> IsLetter(s[i]))
    ensures forall i :: 0 <= i < |s| ==> !IsLetter(s[i]) ==> r[i] == s[i]
    decreases |s|
  {
    if s == [] then []
    else [if previousIsCased then LowerChar(s[0]) else UpperChar(s[0])]
         + TitleFrom(s[1..], IsLetter(s[0]))
  }

  /** `s.title()`: only letters change, and they stay letters. */
  function Title(s: string): (r: string)
    ensures |r| == |s|
    ensures forall i :: 0 <= i < |s| ==> (IsLetter(r[i]) <==> IsLetter(s[i]))
    ensures forall i :: 0 <= i < |s| ==> !IsLetter(s[i]) ==> r[i] == s[i]
  {
    TitleFrom(s, false)
  }

  /** Pointwise definition of `title()`: the character at i is raised when it starts a
      word (first position, or after a non-letter) and lowered otherwise. */
  lemma {:induction false} TitleAt(s: string, i: nat)
    requires i < |s|
    ensures Title(s)[i] == if i == 0 || !IsLetter(s[i - 1]) then UpperChar(s[i]) else LowerChar(s[i])
  {
    TitleFromAt(s, false, i);
  }

  lemma {:induction false} TitleFromAt(s: string, previousIsCased: bool, i: nat)
    requires i < |s|
    ensures TitleFrom(s, previousIsCased)[i] ==
      if (if i == 0 then previousIsCased else IsLetter(s[i - 1])) then LowerChar(s[i]) else UpperChar(s[i])
    decreases i
  {
    if i > 0 {
      TitleFromAt(s[1..], IsLetter(s[0]), i - 1);
    }
  }

  /** Applying `title()` twice changes nothing more than applying it once. */
  lemma {:induction false} TitleIdempotent(s: string, previousIsCased: bool)
    ensures TitleFrom(TitleFrom(s, previousIsCased), previousIsCased) == TitleFrom(s, previousIsCased)
    decreases |s|
  {
    if s != [] {
      var t := TitleFrom(s, previousIsCased);
      assert t[1..] == TitleFrom(s[1..], IsLetter(s[0]));
      TitleIdempotent(s[1..], IsLetter(s[0]));
    }
  }

  /** Python's `needle in haystack` on strings: substring membership. */
  function Contains(haystack: string, needle: string): (r: bool)
    ensures needle == "" || needle == haystack ==> r
    ensures r ==> |needle| <= |haystack|
    decreases |haystack|
  {
    needle <= haystack || (|haystack| > 0 && Contains(haystack[1..], needle))
  }

  /** The needle occurs in the haystack starting at position i. */
  predicate OccursAt(haystack: string, needle: string, i: nat)
  {
    i + |needle| <= |haystack| && haystack[i..i + |needle|] == needle
  }

  /** `in` holds exactly when the needle occurs at some position of the haystack. */
  lemma {:induction false} ContainsIffOccurs(haystack: string, needle: string)
    ensures Contains(haystack, needle) <==> exists i: nat :: OccursAt(haystack, needle, i)
    decreases |haystack|
  {
    if needle <= haystack {
      assert OccursAt(haystack, needle, 0);
    } else if |haystack| > 0 {
      ContainsIffOccurs(haystack[1..], needle);
      if exists i: nat :: OccursAt(haystack, needle, i) {
        var i: nat :| OccursAt(haystack, needle, i);
        assert i != 0;
        assert haystack[1..][i - 1..i - 1 + |needle|] == haystack[i..i + |needle|];
        assert OccursAt(haystack[1..], needle, i - 1);
      }
      if Contains(haystack[1..], needle) {
        var j: nat :| OccursAt(haystack[1..], needle, j);
        assert haystack[1..][j..j + |needle|] == haystack[j + 1..j + 1 + |needle|];
        assert OccursAt(haystack, needle, j + 1);
      }
    }
  }

  /** The empty string is `in` every string. */
  lemma EmptyIsInEverything(haystack: string)
    ensures Contains(haystack, "")
  {
  }

  /** Python's string ordering `a <= b`: code point by code point, a prefix first. */
  predicate LexLe(a: string, b: string)
    decreases |a|
  {
    a == [] || (b != [] && (a[0] < b[0] || (a[0] == b[0] && LexLe(a[1..], b[1..]))))
  }

  lemma {:induction false} LexLeTotal(a: string, b: string)
    ensures LexLe(a, b) || LexLe(b, a)
    decreases |a|
  {
    if a != [] && b != [] && a[0] == b[0] {
      LexLeTotal(a[1..], b[1..]);
    }
  }

  predicate AllDigits(s: string)
  {
    forall i :: 0 <= i < |s| ==> IsDigit(s[i])
  }

  function DigitValue(c: char): nat
    requires IsDigit(c)
  {
    c as int - '0' as int
  }

  function DigitChar(d: nat): (c: char)
    requires d < 10
    ensures IsDigit(c) && DigitValue(c) == d
  {
    ('0' as int + d) as char
  }

  /** The value of a string of decimal digits, read most significant digit first. */
  function DigitsValue(s: string): nat
    requires AllDigits(s)
    decreases |s|
  {
    if s == [] then 0 else DigitsValue(s[..|s| - 1]) * 10 + DigitValue(s[|s| - 1])
  }

  /** Python's `int(s)` on an optional sign followed by ASCII digits; None where Python
      raises ValueError (the empty string among them). */
  function ParseInt(s: string): (r: Option<int>)
    ensures s == "" ==> r == None
    ensures r.Some? ==> exists i :: 0 <= i < |s| && IsDigit(s[i])
    ensures s != "" && AllDigits(s) ==> r == Some(DigitsValue(s))
  {
    if |s| >= 2 && (s[0] == '+' || s[0] == '-') && AllDigits(s[1..]) then
      assert IsDigit(s[1..][0]);
      Some(if s[0] == '-' then -(DigitsValue(s[1..]) as int) else DigitsValue(s[1..]))
    else if |s| >= 1 && AllDigits(s) then
      assert IsDigit(s[0]);
      Some(DigitsValue(s))
    else None
  }

  /** Python's `str(n)` for a natural number: decimal digits without leading zeros. */
  function NatToString(n: nat): (r: string)
    ensures |r| >= 1 && AllDigits(r)
    ensures n < 10 ==> r == [DigitChar(n)]
    decreases n
  {
    if n < 10 then [DigitChar(n)] else NatToString(n / 10) + [DigitChar(n % 10)]
  }

  lemma {:induction false} DigitsOfNatToString(n: nat)
    ensures DigitsValue(NatToString(n)) == n
    decreases n
  {
    if n >= 10 {
      var s := NatToString(n);
      assert s[..|s| - 1] == NatToString(n / 10);
      DigitsOfNatToString(n / 10);
    }
  }

  /** `int(str(n)) == n`. */
  lemma ParseNatToString(n: nat)
    ensures ParseInt(NatToString(n)) == Some(n)
  {
    var s := NatToString(n);
    assert IsDigit(s[0]);
    DigitsOfNatToString(n);
  }
}

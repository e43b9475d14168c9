/** '%d' and '%s' of integers, and the reading of integers by int(). */
module Decimal {
  import opened Basics

  function Digit(n: nat): char
    requires n < 10
  {
    ('0' as int + n) as char
  }

  function Numeral(n: nat): (s: string)
    ensures |s| > 0 && forall k :: 0 <= k < |s| ==> '0' <= s[k] <= '9'
  {
    if n < 10 then [Digit(n)] else Numeral(n / 10) + [Digit(n % 10)]
  }

  function Text(n: int): string {
    if n < 0 then "-" + Numeral(-n) else Numeral(n)
  }

  predicate AllDigits(s: string) {
    |s| > 0 && forall k :: 0 <= k < |s| ==> '0' <= s[k] <= '9'
  }

  function DigitsValue(s: string): (n: int)
    requires forall k :: 0 <= k < |s| ==> '0' <= s[k] <= '9'
    ensures n >= 0
  {
    if s == "" then 0 else 10 * DigitsValue(s[..|s| - 1]) + (s[|s| - 1] as int - '0' as int)
  }

  lemma {:induction false} ValueOfNumeral(n: nat)
    ensures DigitsValue(Numeral(n)) == n
  {
    var s := Numeral(n);
    if n < 10 {
      assert s[..0] == "" && DigitsValue("") == 0;
    } else {
      assert s[..|s| - 1] == Numeral(n / 10);
      ValueOfNumeral(n / 10);
    }
  }

  lemma NumeralInjective(a: nat, b: nat)
    requires Numeral(a) == Numeral(b)
    ensures a == b
  {
    ValueOfNumeral(a);
    ValueOfNumeral(b);
  }

  // How digits are written and what they are worth.

  // Digits without a leading zero.
  predicate Canonical(s: string) {
    AllDigits(s) && (|s| == 1 || s[0] != '0')
  }

  // The decimal text of an integer.
  predicate Writes(s: string, n: int) {
    if n < 0 then s != "" && s[0] == '-' && Canonical(s[1..]) && DigitsValue(s[1..]) == -n
    else Canonical(s) && DigitsValue(s) == n
  }

  lemma OneDigit(d: nat)
    requires d < 10
    ensures Numeral(d) == ["0123456789"[d]] && DigitsValue(["0123456789"[d]]) == d
  {
    var c := "0123456789"[d];
    assert [c][..0] == "" && DigitsValue("") == 0;
  }

  lemma ValueOfMore(s: string, d: nat)
    requires (forall k :: 0 <= k < |s| ==> '0' <= s[k] <= '9') && d < 10
    ensures DigitsValue("") == 0 && DigitsValue(s + ["0123456789"[d]]) == 10 * DigitsValue(s) + d
  {
    var t := s + ["0123456789"[d]];
    assert t[..|s|] == s;
  }

  lemma {:induction false} NumeralCanonical(n: nat)
    ensures Canonical(Numeral(n)) && (n > 0 ==> Numeral(n)[0] != '0')
  {
    if n >= 10 {
      NumeralCanonical(n / 10);
    }
  }

  lemma {:induction false} CanonicalIsPositive(s: string)
    requires AllDigits(s) && s[0] != '0'
    ensures DigitsValue(s) > 0
    decreases |s|
  {
    if |s| == 1 {
      assert s[..0] == "" && DigitsValue("") == 0;
    } else {
      CanonicalIsPositive(s[..|s| - 1]);
    }
  }

  // Digits without a leading zero are the numeral of their value, and no other digits are.
  lemma {:induction false} NumeralOfValue(s: string)
    requires Canonical(s)
    ensures Numeral(DigitsValue(s)) == s
    decreases |s|
  {
    var t, d := s[..|s| - 1], s[|s| - 1] as int - '0' as int;
    assert s == t + [Digit(d)];
    if |s| == 1 {
      assert DigitsValue(t) == 0;
    } else {
      NumeralOfValue(t);
      CanonicalIsPositive(t);
      assert DigitsValue(s) / 10 == DigitsValue(t) && DigitsValue(s) % 10 == d;
    }
  }

  // '%s' writes exactly the decimal text.
  lemma TextWrites(s: string, n: int)
    ensures Writes(s, n) <==> s == Text(n)
  {
    var k: nat := if n < 0 then -n else n;
    NumeralCanonical(k);
    ValueOfNumeral(k);
    assert n < 0 ==> Text(n)[1..] == Numeral(k);
    if Writes(s, n) {
      NumeralOfValue(if n < 0 then s[1..] else s);
      assert n < 0 ==> s == ['-'] + s[1..];
    }
  }

  predicate IsSpace(c: char) {
    c == ' ' || 9 <= c as int <= 13
  }

  function StripLeft(s: string): (r: string)
    ensures r == "" || !IsSpace(r[0])
  {
    if s != "" && IsSpace(s[0]) then StripLeft(s[1..]) else s
  }

  function StripRight(s: string): (r: string)
    ensures r == "" || !IsSpace(r[|r| - 1])
  {
    if s != "" && IsSpace(s[|s| - 1]) then StripRight(s[..|s| - 1]) else s
  }

  // A sign and digits.
  function Signed(s: string): Option<int> {
    if s != "" && (s[0] == '-' || s[0] == '+') then
      if !AllDigits(s[1..]) then None
      else Some(if s[0] == '-' then -DigitsValue(s[1..]) else DigitsValue(s[1..]))
    else if AllDigits(s) then Some(DigitsValue(s))
    else None
  }

  // int(s); None is the ValueError.
  function ParseInt(s: string): Option<int> {
    Signed(StripRight(StripLeft(s)))
  }

  // t without the 'L' at its end.
  function Unmarked(t: string): string {
    if t != "" && (t[|t| - 1] == 'L' || t[|t| - 1] == 'l') then t[..|t| - 1] else t
  }

  // long(s), which also takes a trailing L
  function ParseLong(s: string): Option<int> {
    Signed(Unmarked(StripRight(StripLeft(s))))
  }

  lemma SignedOfDigits(s: string)
    requires AllDigits(s)
    ensures Signed(s) == Some(DigitsValue(s)) && Signed("-" + s) == Some(-DigitsValue(s))
  {
    assert ("-" + s)[0] == '-' && ("-" + s)[1..] == s;
  }

  // int() reads back what '%s' writes.
  lemma ParseOfText(n: int)
    ensures ParseInt(Text(n)) == Some(n)
  {
    var s := Text(n);
    assert !IsSpace(s[0]) && !IsSpace(s[|s| - 1]);
    assert StripLeft(s) == s && StripRight(s) == s;
    SignedOfDigits(Numeral(if n < 0 then -n else n));
    ValueOfNumeral(if n < 0 then -n else n);
  }

  // What int() and long() accept: a sign or none, and digits, possibly between white space; long() also an 'L'.

  // Blanks, tabs, and the line and page ends.
  predicate Blank(s: string) {
    forall k :: 0 <= k < |s| ==> s[k] as int in {9, 10, 11, 12, 13, 32}
  }

  lemma {:induction false} StripLeftIs(pre: string, s: string)
    requires Blank(pre) && (s == "" || !IsSpace(s[0]))
    ensures StripLeft(pre + s) == s
    decreases |pre|
  {
    if pre == "" {
      assert pre + s == s;
    } else {
      assert (pre + s)[1..] == pre[1..] + s;
      StripLeftIs(pre[1..], s);
    }
  }

  lemma {:induction false} StripRightIs(s: string, post: string)
    requires Blank(post) && (s == "" || !IsSpace(s[|s| - 1]))
    ensures StripRight(s + post) == s
    decreases |post|
  {
    if post == "" {
      assert s + post == s;
    } else {
      var n := |post| - 1;
      assert (s + post)[..|s| + n] == s + post[..n];
      StripRightIs(s, post[..n]);
    }
  }

  lemma {:induction false} StripLeftOf(s: string) returns (pre: string)
    ensures Blank(pre) && s == pre + StripLeft(s)
    decreases |s|
  {
    pre := "";
    if s != "" && IsSpace(s[0]) {
      var rest := StripLeftOf(s[1..]);
      pre := [s[0]] + rest;
    }
  }

  lemma {:induction false} StripRightOf(s: string) returns (post: string)
    ensures Blank(post) && s == StripRight(s) + post
    decreases |s|
  {
    post := "";
    if s != "" && IsSpace(s[|s| - 1]) {
      var rest := StripRightOf(s[..|s| - 1]);
      post := rest + [s[|s| - 1]];
    }
  }

  // s is white space, a sign or none, digits worth n with that sign, an 'L' or none if `long`, and white space.
  ghost predicate Reads(s: string, n: int, long: bool) {
    exists pre: string, sign: string, digits: string, mark: string, post: string ::
      ReadsAs(s, n, long, pre, sign, digits, mark, post)
  }

  ghost predicate ReadsAs(s: string, n: int, long: bool, pre: string, sign: string, digits: string, mark: string,
      post: string)
  {
    && s == pre + (sign + digits + mark) + post && Blank(pre) && Blank(post)
    && (mark == "" || (long && (mark == "L" || mark == "l"))) && AllDigits(digits) && SignedValue(sign, digits, n)
  }

  predicate SignedValue(sign: string, digits: string, n: int)
    requires AllDigits(digits)
  {
    (sign in {"", "+"} && n == DigitsValue(digits)) || (sign == "-" && n == -DigitsValue(digits))
  }

  lemma SignedIs(sign: string, digits: string, n: int)
    requires AllDigits(digits) && SignedValue(sign, digits, n)
    ensures Signed(sign + digits) == Some(n)
  {
    var s := sign + digits;
    if sign != "" {
      assert s[0] == sign[0] && s[1..] == digits;
    } else {
      assert s == digits;
    }
  }

  lemma SignedOf(s: string) returns (sign: string, digits: string)
    requires Signed(s).Some?
    ensures s == sign + digits && AllDigits(digits) && SignedValue(sign, digits, Signed(s).value)
  {
    if s[0] == '-' || s[0] == '+' {
      sign, digits := if s[0] == '-' then "-" else "+", s[1..];
    } else {
      sign, digits := "", s;
    }
  }

  lemma StripIs(pre: string, s: string, post: string)
    requires Blank(pre) && Blank(post) && s != "" && !IsSpace(s[0]) && !IsSpace(s[|s| - 1])
    ensures StripRight(StripLeft(pre + s + post)) == s
  {
    assert pre + s + post == pre + (s + post);
    StripLeftIs(pre, s + post);
    StripRightIs(s, post);
  }

  lemma StripOf(s: string) returns (pre: string, post: string)
    ensures Blank(pre) && Blank(post) && s == pre + StripRight(StripLeft(s)) + post
  {
    pre := StripLeftOf(s);
    post := StripRightOf(StripLeft(s));
  }

  // int(s) is n exactly when s is such a text.
  lemma ParseIntReads(s: string, n: int)
    ensures ParseInt(s) == Some(n) <==> Reads(s, n, false)
  {
    if ParseInt(s) == Some(n) {
      var pre, post := StripOf(s);
      var sign, digits := SignedOf(StripRight(StripLeft(s)));
      assert sign + digits + "" == sign + digits;
      assert ReadsAs(s, n, false, pre, sign, digits, "", post);
    }
    if Reads(s, n, false) {
      var pre: string, sign: string, digits: string, mark: string, post: string :|
        ReadsAs(s, n, false, pre, sign, digits, mark, post);
      assert sign + digits + mark == sign + digits;
      StripIs(pre, sign + digits, post);
      SignedIs(sign, digits, n);
    }
  }

  // And long(s).
  lemma ParseLongReads(s: string, n: int)
    ensures ParseLong(s) == Some(n) <==> Reads(s, n, true)
  {
    if ParseLong(s) == Some(n) {
      LongRead(s, n);
    }
    if Reads(s, n, true) {
      var pre: string, sign: string, digits: string, mark: string, post: string :|
        ReadsAs(s, n, true, pre, sign, digits, mark, post);
      LongIs(s, n, pre, sign, digits, mark, post);
    }
  }

  lemma LongIs(s: string, n: int, pre: string, sign: string, digits: string, mark: string, post: string)
    requires ReadsAs(s, n, true, pre, sign, digits, mark, post)
    ensures ParseLong(s) == Some(n)
  {
    var u := sign + digits;
    assert u[|u| - 1] == digits[|digits| - 1] && u[0] == if sign == "" then digits[0] else sign[0];
    MarkedIs(u, mark);
    StripIs(pre, u + mark, post);
    SignedIs(sign, digits, n);
  }

  lemma MarkedIs(u: string, mark: string)
    requires u != "" && u[|u| - 1] != 'L' && u[|u| - 1] != 'l' && (mark == "" || mark == "L" || mark == "l")
    ensures Unmarked(u + mark) == u && (u + mark)[0] == u[0]
    ensures !IsSpace(u[|u| - 1]) ==> !IsSpace((u + mark)[|u + mark| - 1])
  {
    if mark == "" {
      assert u + mark == u;
    } else {
      assert (u + mark)[..|u|] == u;
    }
  }

  lemma UnmarkedOf(t: string) returns (mark: string)
    ensures t == Unmarked(t) + mark && (mark == "" || mark == "L" || mark == "l")
  {
    mark := if Unmarked(t) == t then "" else if t[|t| - 1] == 'L' then "L" else "l";
    assert Unmarked(t) != t ==> t == t[..|t| - 1] + mark;
  }

  lemma LongRead(s: string, n: int)
    requires ParseLong(s) == Some(n)
    ensures Reads(s, n, true)
  {
    var t := StripRight(StripLeft(s));
    var u := Unmarked(t);
    var pre, post := StripOf(s);
    var sign, digits := SignedOf(u);
    var mark := UnmarkedOf(t);
    assert ReadsAs(s, n, true, pre, sign, digits, mark, post);
  }
}

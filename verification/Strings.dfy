/** The few JavaScript string operations the services build on: trim, split, join, decimal numerals, parseInt. */
module Strings {
  import opened Common

  /** White space in the sense of String.prototype.trim and parseInt (the ASCII part, NBSP and BOM). */
  predicate IsSpace(c: char) {
    c == ' ' || '\U{0009}' <= c <= '\U{000D}' || c == '\U{00A0}' || c == '\U{FEFF}'
  }

  function TrimStart(s: string): string {
    if s != [] && IsSpace(s[0]) then TrimStart(s[1..]) else s
  }

  function TrimEnd(s: string): string {
    if s != [] && IsSpace(s[|s| - 1]) then TrimEnd(s[..|s| - 1]) else s
  }

  function Trim(s: string): string { TrimEnd(TrimStart(s)) }

  predicate Trimmed(s: string) {
    s == [] || (!IsSpace(s[0]) && !IsSpace(s[|s| - 1]))
  }

  lemma {:induction false} TrimStartStops(s: string)
    ensures var r := TrimStart(s); r == [] || !IsSpace(r[0])
  {
    if s != [] && IsSpace(s[0]) {
      TrimStartStops(s[1..]);
    }
  }

  lemma {:induction false} TrimEndStops(s: string)
    ensures var r := TrimEnd(s); (r == [] || !IsSpace(r[|r| - 1])) && r <= s
  {
    if s != [] && IsSpace(s[|s| - 1]) {
      TrimEndStops(s[..|s| - 1]);
    }
  }

  /** trim leaves no space at either end, and is the identity on such strings. */
  lemma TrimIsTrimmed(s: string)
    ensures Trimmed(Trim(s))
    ensures Trimmed(s) ==> Trim(s) == s
  {
    TrimStartStops(s);
    TrimEndStops(TrimStart(s));
  }

  ghost predicate AllSpace(s: string) {
    forall i :: 0 <= i < |s| ==> IsSpace(s[i])
  }

  /** `r` is `s` without the white space at its ends. */
  ghost predicate Strips(s: string, r: string) {
    (exists a, b :: AllSpace(a) && AllSpace(b) && s == a + r + b) && Trimmed(r)
  }

  lemma SpaceMeans(c: char)
    ensures IsSpace(c) <==> c as int in {9, 10, 11, 12, 13, 32, 160, 65279}
  {
  }

  lemma {:induction false} TrimStartStrips(s: string) returns (a: string)
    ensures AllSpace(a) && s == a + TrimStart(s)
  {
    if s != [] && IsSpace(s[0]) {
      var rest := TrimStartStrips(s[1..]);
      a := [s[0]] + rest;
    } else {
      a := [];
    }
  }

  lemma {:induction false} TrimEndStrips(s: string) returns (b: string)
    ensures AllSpace(b) && s == TrimEnd(s) + b
  {
    if s != [] && IsSpace(s[|s| - 1]) {
      var rest := TrimEndStrips(s[..|s| - 1]);
      b := rest + [s[|s| - 1]];
    } else {
      b := [];
    }
  }

  /** trim removes exactly the white space at the two ends, and all of it. */
  lemma TrimStrips(s: string)
    ensures Strips(s, Trim(s))
    ensures Trim(s) == [] <==> AllSpace(s)
  {
    TrimIsTrimmed(s);
    var a := TrimStartStrips(s);
    var b := TrimEndStrips(TrimStart(s));
    assert s == a + Trim(s) + b;
    if Trim(s) != [] {
      assert s[|a|] == Trim(s)[0];
    }
  }

  /** There is only one way to strip a string. */
  lemma StrippedIsUnique(s: string, r: string)
    requires Strips(s, r)
    ensures r == Trim(s)
  {
    var a, b :| AllSpace(a) && AllSpace(b) && s == a + r + b;
    if r == [] {
      assert AllSpace(s);
      TrimStrips(s);
    } else {
      TrimStartOf(a, r + b);
      assert a + r + b == a + (r + b);
      TrimEndOf(r, b);
    }
  }

  lemma {:induction false} TrimStartOf(a: string, rest: string)
    requires AllSpace(a) && (rest == [] || !IsSpace(rest[0]))
    ensures TrimStart(a + rest) == rest
  {
    if a == [] {
      assert a + rest == rest;
    } else {
      assert (a + rest)[1..] == a[1..] + rest;
      TrimStartOf(a[1..], rest);
    }
  }

  lemma {:induction false} TrimEndOf(rest: string, b: string)
    requires AllSpace(b) && (rest == [] || !IsSpace(rest[|rest| - 1]))
    ensures TrimEnd(rest + b) == rest
  {
    if b == [] {
      assert rest + b == rest;
    } else {
      assert (rest + b)[..|rest + b| - 1] == rest + b[..|b| - 1];
      TrimEndOf(rest, b[..|b| - 1]);
    }
  }

  // ------------------------------------------------------------ split, join

  /** `s.split(sep)`: always at least one piece. */
  function Split(s: string, sep: char): (r: seq<string>)
    ensures r != []
  {
    if s == [] then [[]]
    else
      var rest := Split(s[1..], sep);
      if s[0] == sep then [[]] + rest else [[s[0]] + rest[0]] + rest[1..]
  }

  function Join(parts: seq<string>, sep: char): string
    requires parts != []
  {
    if |parts| == 1 then parts[0] else parts[0] + [sep] + Join(parts[1..], sep)
  }

  lemma {:induction false} SplitPrefix(head: string, rest: string, sep: char)
    requires sep !in head
    ensures Split(head + [sep] + rest, sep) == [head] + Split(rest, sep)
    ensures Split(head, sep) == [head]
  {
    if head == [] {
      assert ([] + [sep] + rest)[1..] == rest;
    } else {
      SplitPrefix(head[1..], rest, sep);
      assert (head + [sep] + rest)[1..] == head[1..] + [sep] + rest;
      assert [head[0]] + head[1..] == head;
    }
  }

  lemma {:induction false} SplitOfJoin(parts: seq<string>, sep: char)
    requires parts != [] && forall i :: 0 <= i < |parts| ==> sep !in parts[i]
    ensures Split(Join(parts, sep), sep) == parts
  {
    if |parts| == 1 {
      SplitPrefix(parts[0], [], sep);
    } else {
      SplitOfJoin(parts[1..], sep);
      SplitPrefix(parts[0], Join(parts[1..], sep), sep);
    }
  }

  /** Splitting loses nothing, and leaves no separator in a piece. */
  lemma {:induction false} JoinOfSplit(s: string, sep: char)
    ensures Join(Split(s, sep), sep) == s
    ensures forall i :: 0 <= i < |Split(s, sep)| ==> sep !in Split(s, sep)[i]
  {
    if s != [] {
      JoinOfSplit(s[1..], sep);
      var rest := Split(s[1..], sep);
      assert s == [s[0]] + s[1..];
      if s[0] == sep {
        assert ([[]] + rest)[1..] == rest;
      } else {
        JoinGrows(s[0], rest, sep);
      }
    }
  }

  lemma JoinGrows(c: char, parts: seq<string>, sep: char)
    requires parts != []
    ensures Join([[c] + parts[0]] + parts[1..], sep) == [c] + Join(parts, sep)
  {
    var more := [[c] + parts[0]] + parts[1..];
    if |parts| > 1 {
      assert more[1..] == parts[1..];
    } else {
      assert parts[1..] == [] && more == [[c] + parts[0]];
    }
  }

  // --------------------------------------------------------------- numerals

  predicate IsDigit(c: char) { '0' <= c <= '9' }

  predicate AllDigits(s: string) { forall i :: 0 <= i < |s| ==> IsDigit(s[i]) }

  function DigitValue(c: char): nat
    requires IsDigit(c)
  {
    c as int - '0' as int
  }

  function DigitChar(d: nat): (c: char)
    requires d < 10
    ensures IsDigit(c) && DigitValue(c) == d
  {
    (d + '0' as int) as char
  }

  /** Value of a numeral; the empty one is 0. */
  function NumberOf(s: string): nat
    requires AllDigits(s)
  {
    if s == [] then 0 else NumberOf(s[..|s| - 1]) * 10 + DigitValue(s[|s| - 1])
  }

  /** `String(n)` for an integer. */
  function Decimal(n: int): string {
    if n < 0 then "-" + DecimalNat(-n) else DecimalNat(n)
  }

  function DecimalNat(n: nat): string {
    if n < 10 then [DigitChar(n)] else DecimalNat(n / 10) + [DigitChar(n % 10)]
  }

  /** The numeral of a number: digits with that value, and no leading zero. */
  lemma {:induction false} NumberOfDecimal(n: nat)
    ensures DecimalNat(n) != [] && AllDigits(DecimalNat(n)) && NumberOf(DecimalNat(n)) == n
    ensures n > 0 ==> DecimalNat(n)[0] != '0'
    ensures n == 0 ==> DecimalNat(n) == "0"
  {
    if n >= 10 {
      NumberOfDecimal(n / 10);
      var front := DecimalNat(n / 10);
      assert DecimalNat(n)[..|front|] == front;
    }
  }

  function DigitPrefix(s: string): (r: string)
    ensures AllDigits(r)
  {
    if s != [] && IsDigit(s[0]) then [s[0]] + DigitPrefix(s[1..]) else []
  }

  /** `parseInt(s, 10)`; None is NaN. */
  function ParseInt(s: string): Option<int> {
    var t := TrimStart(s);
    var negative := t != [] && t[0] == '-';
    var body := if t != [] && (t[0] == '-' || t[0] == '+') then t[1..] else t;
    var digits := DigitPrefix(body);
    if digits == [] then None
    else Some(if negative then -(NumberOf(digits) as int) else NumberOf(digits))
  }

  /** `s` begins, after white space and a sign, with these digits and no more. */
  ghost predicate BeginsWith(s: string, space: string, sign: string, digits: string, rest: string) {
    && s == space + sign + digits + rest && AllSpace(space) && sign in {"", "-", "+"}
    && digits != [] && AllDigits(digits) && (rest == [] || !IsDigit(rest[0]))
  }

  function Signed(sign: string, n: nat): int {
    if sign == "-" then -(n as int) else n as int
  }

  lemma {:induction false} DigitPrefixOf(digits: string, rest: string)
    requires AllDigits(digits) && (rest == [] || !IsDigit(rest[0]))
    ensures DigitPrefix(digits + rest) == digits
  {
    if digits == [] {
      assert digits + rest == rest;
    } else {
      assert (digits + rest)[1..] == digits[1..] + rest;
      DigitPrefixOf(digits[1..], rest);
    }
  }

  lemma {:induction false} DigitPrefixIs(s: string) returns (rest: string)
    ensures s == DigitPrefix(s) + rest && (rest == [] || !IsDigit(rest[0]))
  {
    if s != [] && IsDigit(s[0]) {
      rest := DigitPrefixIs(s[1..]);
    } else {
      rest := s;
    }
  }

  lemma ParseIntOf(s: string, space: string, sign: string, digits: string, rest: string)
    requires BeginsWith(s, space, sign, digits, rest)
    ensures ParseInt(s) == Some(Signed(sign, NumberOf(digits)))
  {
    var t := sign + digits + rest;
    assert s == space + t;
    TrimStartOf(space, t);
    assert t == if sign == "" then digits + rest else sign + (digits + rest);
    DigitPrefixOf(digits, rest);
  }

  /** What parseInt gives: the value of the digits that come after white space and a sign, and NaN exactly if
      there are none. */
  lemma ParseIntMeans(s: string)
    ensures match ParseInt(s)
            case Some(n) =>
              exists space, sign, digits, rest ::
                BeginsWith(s, space, sign, digits, rest) && n == Signed(sign, NumberOf(digits))
            case None =>
              forall space, sign, digits, rest :: !BeginsWith(s, space, sign, digits, rest)
  {
    hide ParseInt, BeginsWith;
    if ParseInt(s).Some? {
      var space, sign, digits, rest := PartsOf(s);
      ParseIntOf(s, space, sign, digits, rest);
    } else {
      forall space, sign, digits, rest
        ensures !BeginsWith(s, space, sign, digits, rest)
      {
        if BeginsWith(s, space, sign, digits, rest) {
          ParseIntOf(s, space, sign, digits, rest);
        }
      }
    }
  }

  lemma PartsOf(s: string) returns (space: string, sign: string, digits: string, rest: string)
    requires ParseInt(s).Some?
    ensures BeginsWith(s, space, sign, digits, rest)
  {
    hide NumberOf, TrimStart, DigitPrefix;
    space := TrimStartStrips(s);
    var t := TrimStart(s);
    sign := if t != [] && (t[0] == '-' || t[0] == '+') then [t[0]] else [];
    var body := t[|sign|..];
    assert t == sign + body;
    digits := DigitPrefix(body);
    rest := DigitPrefixIs(body);
    SignOf(t, sign);
    assert s == space + sign + digits + rest;
  }

  lemma SignOf(t: string, sign: string)
    requires sign == if t != [] && (t[0] == '-' || t[0] == '+') then [t[0]] else []
    ensures sign in {"", "-", "+"}
  {
    if sign != [] {
      assert sign == if t[0] == '-' then "-" else "+";
    }
  }
}

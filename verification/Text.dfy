/**
 The string operations the scripts use on decimal numbers and separated lists:
 '%d' and `int`, `split`, `join` and `strip`.
 */
module Text {
  import opened Wrappers

  // ----- Decimal numbers -----

  predicate IsDigit(c: char) {
    '0' <= c <= '9'
  }

  function DigitChar(d: nat): (c: char)
    requires d < 10
    ensures IsDigit(c) && c as int == '0' as int + d
  {
    '0' + d as char
  }

  function DigitValue(c: char): (d: nat)
    requires IsDigit(c)
    ensures d < 10
  {
    c as int - '0' as int
  }

  function Decimal(n: nat): (s: string)
    ensures s != [] && forall c :: c in s ==> IsDigit(c)
  {
    if n < 10 then [DigitChar(n)] else Decimal(n / 10) + [DigitChar(n % 10)]
  }

  /** The number a string of digits spells; anything else is refused. */
  function ParseNat(s: string): Option<nat> {
    if s == [] || !IsDigit(s[|s| - 1]) then None
    else if |s| == 1 then Some(DigitValue(s[0]))
    else
      match ParseNat(s[..|s| - 1])
      case None => None
      case Some(high) => Some(10 * high + DigitValue(s[|s| - 1]))
  }

  lemma {:induction false} ParseDecimal(n: nat)
    ensures ParseNat(Decimal(n)) == Some(n)
  {
    if n >= 10 {
      ParseDecimal(n / 10);
      assert Decimal(n)[..|Decimal(n)| - 1] == Decimal(n / 10);
    }
  }

  lemma {:induction false} ParseNatDigits(s: string)
    ensures ParseNat(s).Some? <==> s != [] && forall c :: c in s ==> IsDigit(c)
  {
    if |s| > 1 {
      ParseNatDigits(s[..|s| - 1]);
      assert s == s[..|s| - 1] + [s[|s| - 1]];
    }
  }

  // ----- What the digits stand for -----

  function Tens(k: nat): (p: nat)
    ensures p > 0
  {
    if k == 0 then 1 else 10 * Tens(k - 1)
  }

  lemma QuotientOfQuotient(n: nat, a: nat, b: nat)
    requires a > 0 && b > 0
    ensures a * b > 0 && n / a / b == n / (a * b)
  {
    var x, r := n / a, n % a;
    var q, t := x / b, x % b;
    Regroup(q, b, t, a, r);
    LowPart(a, b, t, r);
    QuotientIs(n, a * b, q, t * a + r);
  }

  lemma Regroup(q: int, b: int, t: int, a: int, r: int)
    ensures (q * b + t) * a + r == q * (a * b) + (t * a + r)
  {
    assert (q * b + t) * a == q * b * a + t * a && q * b * a == q * (a * b);
  }

  lemma LowPart(a: int, b: int, t: int, r: int)
    requires 0 <= r < a && 0 <= t < b
    ensures 0 <= t * a + r < a * b
  {
    assert 0 <= t * a <= (b - 1) * a && (b - 1) * a + a == a * b;
  }

  lemma QuotientIs(n: int, d: int, q: int, low: int)
    requires d > 0 && 0 <= low < d && n == q * d + low
    ensures n / d == q
  {
    var k := n / d - q;
    assert k * d == low - n % d;
    assert -d < k * d < d;
  }

  /** Counted from the right, digit `k` is that of 10^k, and the first one is not a superfluous zero. */
  lemma {:induction false} DecimalDigits(n: nat, k: nat)
    requires k < |Decimal(n)|
    ensures Decimal(n)[|Decimal(n)| - 1 - k] as int == '0' as int + n / Tens(k) % 10
    ensures |Decimal(n)| > 1 ==> Decimal(n)[0] != '0'
  {
    if n >= 10 {
      var high := Decimal(n / 10);
      assert Decimal(n)[..|high|] == high;
      if k > 0 {
        DecimalDigits(n / 10, k - 1);
        QuotientOfQuotient(n, 10, Tens(k - 1));
      } else {
        DecimalDigits(n / 10, 0);
      }
      if n / 10 < 10 {
        assert high[0] as int == '0' as int + n / 10;
      }
    }
  }

  function Zeros(k: nat): (s: string)
    ensures |s| == k && forall i :: 0 <= i < k ==> s[i] == '0'
  {
    if k == 0 then [] else Zeros(k - 1) + ['0']
  }

  lemma {:induction false} ZerosParse(k: nat)
    requires k > 0
    ensures ParseNat(Zeros(k)) == Some(0)
  {
    assert Zeros(k)[..k - 1] == Zeros(k - 1);
    if k > 1 {
      ZerosParse(k - 1);
    }
  }

  lemma {:induction false} ParseFilled(k: nat, n: nat)
    ensures ParseNat(Zeros(k) + Decimal(n)) == Some(n)
  {
    var s := Zeros(k) + Decimal(n);
    if n >= 10 {
      assert s[..|s| - 1] == Zeros(k) + Decimal(n / 10);
      ParseFilled(k, n / 10);
    } else {
      assert s[..|s| - 1] == Zeros(k);
      if k > 0 {
        ZerosParse(k);
      }
    }
  }

  lemma {:induction false} ParsedFilled(s: string)
    requires ParseNat(s).Some?
    ensures var d := Decimal(ParseNat(s).value); |d| <= |s| && s == Zeros(|s| - |d|) + d
  {
    if |s| > 1 {
      var front, last := s[..|s| - 1], s[|s| - 1];
      assert s == front + [last];
      ParsedFilled(front);
      AppendDigit(front, ParseNat(front).value, DigitValue(last));
    }
  }

  lemma AppendDigit(front: string, high: nat, d: nat)
    requires d < 10 && |Decimal(high)| <= |front| && front == Zeros(|front| - |Decimal(high)|) + Decimal(high)
    ensures var n := Decimal(10 * high + d);
            |n| <= |front| + 1 && front + [DigitChar(d)] == Zeros(|front| + 1 - |n|) + n
  {
    if high == 0 {
      assert front == Zeros(|front|);
    } else {
      assert (10 * high + d) / 10 == high && (10 * high + d) % 10 == d;
    }
  }

  ghost predicate IsFilled(s: string, n: nat) {
    |Decimal(n)| <= |s| && s == Zeros(|s| - |Decimal(n)|) + Decimal(n)
  }

  lemma FilledParses(s: string, n: nat)
    requires IsFilled(s, n)
    ensures ParseNat(s) == Some(n)
  {
    ParseFilled(|s| - |Decimal(n)|, n);
  }

  /** A string spells a number exactly when it is the number's decimal form behind zeros. */
  lemma ParseNatExactly(s: string, n: nat)
    ensures ParseNat(s) == Some(n) <==> IsFilled(s, n)
  {
    if IsFilled(s, n) {
      FilledParses(s, n);
    } else if ParseNat(s) == Some(n) {
      ParsedFilled(s);
    }
  }

  // ----- Separated lists -----

  function Split(s: string, sep: char): (parts: seq<string>)
    ensures parts != []
  {
    if s == [] then [[]]
    else
      var rest := Split(s[1..], sep);
      if s[0] == sep then [[]] + rest else [[s[0]] + rest[0]] + rest[1..]
  }

  function Join(parts: seq<string>, sep: char): string
    requires parts != []
  {
    if |parts| == 1 then parts[0] else parts[0] + [sep] + Join(parts[1..], sep)
  }

  lemma {:induction false} SplitPart(part: string, tail: string, sep: char)
    requires sep !in part && (tail == [] || tail[0] == sep)
    ensures Split(part + tail, sep) == [part] + (if tail == [] then [] else Split(tail[1..], sep))
  {
    if part == [] {
      assert part + tail == tail;
    } else {
      SplitPart(part[1..], tail, sep);
      assert (part + tail)[1..] == part[1..] + tail;
      assert [part[0]] + part[1..] == part;
    }
  }

  /** Splitting undoes joining when no part holds the separator. */
  lemma {:induction false} SplitJoin(parts: seq<string>, sep: char)
    requires parts != [] && forall p :: p in parts ==> sep !in p
    ensures Split(Join(parts, sep), sep) == parts
  {
    if |parts| == 1 {
      SplitPart(parts[0], [], sep);
      assert parts[0] + [] == parts[0] && [parts[0]] + [] == parts;
    } else {
      var tail := [sep] + Join(parts[1..], sep);
      assert Join(parts, sep) == parts[0] + tail;
      SplitPart(parts[0], tail, sep);
      assert tail[1..] == Join(parts[1..], sep);
      SplitJoin(parts[1..], sep);
      assert parts == [parts[0]] + parts[1..];
    }
  }

  /** Joining undoes splitting, and no part holds the separator: there is no other way to split. */
  lemma {:induction false} JoinSplit(s: string, sep: char)
    ensures Join(Split(s, sep), sep) == s
    ensures forall p :: p in Split(s, sep) ==> sep !in p
  {
    if s != [] {
      var rest := Split(s[1..], sep);
      JoinSplit(s[1..], sep);
      if s[0] != sep {
        var parts := [[s[0]] + rest[0]] + rest[1..];
        assert rest[0] in rest;
        assert parts[1..] == rest[1..];
        assert s == [s[0]] + s[1..];
      }
    }
  }

  lemma {:induction false} JoinSnoc(parts: seq<string>, part: string, sep: char)
    requires parts != []
    ensures Join(parts + [part], sep) == Join(parts, sep) + [sep] + part
  {
    assert (parts + [part])[1..] == parts[1..] + [part];
    if |parts| > 1 {
      JoinSnoc(parts[1..], part, sep);
    } else {
      assert parts[1..] + [part] == [part];
    }
  }

  /** The characters of a join are those of its parts and the separator. */
  lemma {:induction false} JoinChars(parts: seq<string>, sep: char, c: char)
    requires parts != []
    ensures c in Join(parts, sep) ==> c == sep || exists p :: p in parts && c in p
  {
    if |parts| > 1 {
      JoinChars(parts[1..], sep, c);
      if c in Join(parts, sep) && c != sep {
        if c in parts[0] {
          assert parts[0] in parts;
        } else {
          assert c in Join(parts[1..], sep);
          var p :| p in parts[1..] && c in p;
          assert p in parts;
        }
      }
    } else {
      assert parts[0] in parts;
    }
  }

  // ----- White space -----

  predicate IsSpace(c: char) {
    c == ' ' || c == '\t' || c == '\n' || c == '\r' || c as int == 11 || c as int == 12
  }

  function StripLeft(s: string): string {
    if s != [] && IsSpace(s[0]) then StripLeft(s[1..]) else s
  }

  function StripRight(s: string): string {
    if s != [] && IsSpace(s[|s| - 1]) then StripRight(s[..|s| - 1]) else s
  }

  function Strip(s: string): string {
    StripRight(StripLeft(s))
  }

  /** The white space characters are the blank and the codes 9 to 13. */
  lemma SpaceCodes(c: char)
    ensures IsSpace(c) <==> c as int == 32 || 9 <= c as int <= 13
  {
    assert ' ' as int == 32 && '\t' as int == 9 && '\n' as int == 10 && '\r' as int == 13;
  }

  predicate Spaces(s: string) {
    forall c :: c in s ==> IsSpace(c)
  }

  predicate NoOuterSpace(s: string) {
    s == [] || (!IsSpace(s[0]) && !IsSpace(s[|s| - 1]))
  }

  lemma {:induction false} StripLeftSpaces(left: string, s: string)
    requires Spaces(left) && (s == [] || !IsSpace(s[0]))
    ensures StripLeft(left + s) == s
  {
    if left == [] {
      assert left + s == s;
    } else {
      assert left[0] in left && (left + s)[1..] == left[1..] + s;
      StripLeftSpaces(left[1..], s);
    }
  }

  lemma {:induction false} StripRightSpaces(s: string, right: string)
    requires Spaces(right) && (s == [] || !IsSpace(s[|s| - 1]))
    ensures StripRight(s + right) == s
  {
    if right == [] {
      assert s + right == s;
    } else {
      var n := |right| - 1;
      assert right[n] in right && (s + right)[..|s + right| - 1] == s + right[..n];
      StripRightSpaces(s, right[..n]);
    }
  }

  /** White space is taken off both ends and nothing else is. */
  lemma StripSpaces(left: string, s: string, right: string)
    requires Spaces(left) && Spaces(right) && NoOuterSpace(s)
    ensures Strip(left + s + right) == s
  {
    if s == [] {
      assert left + s + right == (left + right) + [];
      StripLeftSpaces(left + right, []);
    } else {
      assert left + s + right == left + (s + right);
      StripLeftSpaces(left, s + right);
      StripRightSpaces(s, right);
    }
  }

  lemma {:induction false} StripParts(s: string) returns (left: string, right: string)
    ensures s == left + Strip(s) + right && Spaces(left) && Spaces(right) && NoOuterSpace(Strip(s))
  {
    left := LeftPart(s);
    right := RightPart(StripLeft(s));
  }

  lemma {:induction false} LeftPart(s: string) returns (left: string)
    ensures s == left + StripLeft(s) && Spaces(left) && (StripLeft(s) == [] || !IsSpace(StripLeft(s)[0]))
  {
    left := [];
    if s != [] && IsSpace(s[0]) {
      left := LeftPart(s[1..]);
      left := [s[0]] + left;
    }
  }

  lemma {:induction false} RightPart(s: string) returns (right: string)
    requires s == [] || !IsSpace(s[0])
    ensures s == StripRight(s) + right && Spaces(right) && NoOuterSpace(StripRight(s))
  {
    right := [];
    if s != [] && IsSpace(s[|s| - 1]) {
      right := RightPart(s[..|s| - 1]);
      right := right + [s[|s| - 1]];
    }
  }

  lemma StripNewline(s: string)
    requires s != [] && !IsSpace(s[0]) && !IsSpace(s[|s| - 1])
    ensures Strip(s + "\n") == s && Strip(s) == s
  {
    var line := s + "\n";
    assert line[0] == s[0] && line[|s|] == '\n' && line[..|line| - 1] == s;
    assert IsSpace('\n');
    assert StripLeft(line) == line;
    assert StripRight(line) == StripRight(s);
  }

  // ----- `int` and `long` -----

  /** Digits, which for `long` a suffix may follow. */
  function ParseDigits(u: string, suffix: bool): Option<nat> {
    ParseNat(if suffix && u != [] && (u[|u| - 1] == 'l' || u[|u| - 1] == 'L') then u[..|u| - 1] else u)
  }

  /** White space around the digits and the sign is allowed. */
  function ParseInteger(s: string, suffix: bool): Option<int> {
    var t := Strip(s);
    if t != [] && (t[0] == '-' || t[0] == '+') then
      match ParseDigits(StripLeft(t[1..]), suffix)
      case None => None
      case Some(n) => Some(if t[0] == '-' then 0 - n else n + 0)
    else
      match ParseDigits(t, suffix)
      case None => None
      case Some(n) => Some(n + 0)
  }

  /**
   A number as `int` and `long` accept it: white space may surround it and follow the sign, and
   the suffix of a `long` follows the digits at once.
   */
  datatype Numeral = Numeral(left: string, sign: string, gap: string, digits: string, tail: string, right: string) {
    predicate Valid(suffix: bool) {
      && Spaces(left) && Spaces(gap) && Spaces(right)
      && (sign == "" || sign == "+" || sign == "-") && (sign == "" ==> gap == "")
      && ParseNat(digits).Some?
      && (tail == "" || (suffix && (tail == "l" || tail == "L")))
    }

    function Number(): string {
      digits + tail
    }

    function Core(): string {
      sign + gap + Number()
    }

    function Text(): string {
      left + Core() + right
    }

    function Value(): int {
      if ParseNat(digits).None? then 0
      else if sign == "-" then 0 - ParseNat(digits).value
      else ParseNat(digits).value + 0
    }
  }

  lemma DigitEnds(digits: string)
    requires ParseNat(digits).Some?
    ensures digits != [] && IsDigit(digits[0]) && IsDigit(digits[|digits| - 1])
  {
    ParseNatDigits(digits);
    assert digits[0] in digits && digits[|digits| - 1] in digits;
  }

  lemma NumberEnds(x: Numeral, suffix: bool)
    requires x.Valid(suffix)
    ensures var body := x.Number(); body != [] && IsDigit(body[0]) && !IsSpace(body[|body| - 1])
    ensures ParseDigits(x.Number(), suffix) == ParseNat(x.digits)
  {
    DigitEnds(x.digits);
    var body := x.Number();
    if x.tail == "" {
      assert body == x.digits;
    } else {
      assert body[..|body| - 1] == x.digits;
    }
  }

  lemma CoreEnds(x: Numeral, suffix: bool)
    requires x.Valid(suffix)
    ensures NoOuterSpace(x.Core()) && x.Core() != []
    ensures if x.sign == "" then x.Core() == x.Number() && IsDigit(x.Core()[0])
            else x.Core()[0] == x.sign[0] && StripLeft(x.Core()[1..]) == x.Number()
  {
    NumberEnds(x, suffix);
    var core, body := x.Core(), x.Number();
    assert core == x.sign + (x.gap + body) && core[|core| - 1] == body[|body| - 1];
    if x.sign != "" {
      assert core[1..] == x.gap + body;
      StripLeftSpaces(x.gap, body);
    }
  }

  /** Every numeral is accepted, with the value it spells... */
  lemma NumeralParses(x: Numeral, suffix: bool)
    requires x.Valid(suffix)
    ensures ParseInteger(x.Text(), suffix) == Some(x.Value())
  {
    CoreEnds(x, suffix);
    StripSpaces(x.left, x.Core(), x.right);
    NumberEnds(x, suffix);
  }

  lemma DigitParts(u: string, suffix: bool) returns (digits: string, tail: string)
    ensures u == digits + tail && ParseDigits(u, suffix) == ParseNat(digits)
    ensures tail == "" || (suffix && (tail == "l" || tail == "L"))
  {
    digits, tail := u, "";
    if suffix && u != [] && (u[|u| - 1] == 'l' || u[|u| - 1] == 'L') {
      digits, tail := u[..|u| - 1], [u[|u| - 1]];
    }
  }

  lemma SignParts(t: string) returns (sign: string, gap: string, u: string)
    ensures t == sign + gap + u && Spaces(gap) && (sign == "" ==> gap == "")
    ensures if t != [] && (t[0] == '-' || t[0] == '+') then sign == [t[0]] && u == StripLeft(t[1..]) else sign == "" && u == t
  {
    sign, gap, u := "", "", t;
    if t != [] && (t[0] == '-' || t[0] == '+') {
      sign, u := [t[0]], StripLeft(t[1..]);
      gap := LeftPart(t[1..]);
      assert t == sign + t[1..];
    }
  }

  /** ...and nothing else is accepted. */
  lemma ParsedIsNumeral(s: string, suffix: bool) returns (x: Numeral)
    requires ParseInteger(s, suffix).Some?
    ensures x.Valid(suffix) && x.Text() == s && x.Value() == ParseInteger(s, suffix).value
  {
    var left, right := StripParts(s);
    var sign, gap, u := SignParts(Strip(s));
    var digits, tail := DigitParts(u, suffix);
    x := Numeral(left, sign, gap, digits, tail, right);
  }

  lemma StripNothing(s: string)
    requires s != [] && !IsSpace(s[0]) && !IsSpace(s[|s| - 1])
    ensures Strip(s) == s && StripLeft(s) == s
  {
  }

  lemma IntegerOfDecimal(n: nat, suffix: bool)
    ensures ParseInteger(Decimal(n), suffix) == Some(n as int)
  {
    var s := Decimal(n);
    assert s[0] in s && s[|s| - 1] in s;
    StripNothing(s);
    ParseDecimal(n);
  }
}

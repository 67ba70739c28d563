/**
 `datestr` and `process_dates` of `util/find_copyrights.py`: a set of years printed as
 comma-separated years and ranges of years, and read back.
 */
module YearRanges {
  import opened Wrappers
  import opened Text

  datatype Range = Range(first: nat, second: nat)

  predicate Within(y: int, r: Range) {
    r.first <= y <= r.second
  }

  function Years(r: Range): set<int> {
    set y: int | r.first <= y <= r.second && Within(y, r)
  }

  ghost predicate InSome(ranges: seq<Range>, y: int) {
    exists r :: r in ranges && Within(y, r)
  }

  ghost predicate Covers(ranges: seq<Range>, years: set<int>) {
    && (forall r :: r in ranges ==> r.first <= r.second)
    && (forall y :: y in years <==> InSome(ranges, y))
  }

  /** In ascending order, with at least one missing year between two ranges. */
  ghost predicate Separated(ranges: seq<Range>) {
    forall j, k :: 0 <= j < k < |ranges| ==> ranges[j].second + 1 < ranges[k].first
  }

  ghost predicate StrictlyAscending(ys: seq<nat>) {
    forall j, k :: 0 <= j < k < |ys| ==> ys[j] < ys[k]
  }

  // ----- Separated ranges are as few as possible -----

  lemma GapIsMissing(ranges: seq<Range>, j: nat)
    requires Separated(ranges) && j < |ranges| && ranges[j].first <= ranges[j].second
    requires forall r :: r in ranges ==> r.first <= r.second
    ensures !InSome(ranges, ranges[j].first - 1)
  {
    forall r | r in ranges
      ensures !Within(ranges[j].first - 1, r)
    {
      var k :| 0 <= k < |ranges| && ranges[k] == r;
      assert k < j ==> ranges[k].second + 1 < ranges[j].first;
      assert j < k ==> ranges[j].second + 1 < ranges[k].first;
    }
  }

  /** An interval inside the years cannot reach two separated ranges. */
  lemma ReachesOneRange(ranges: seq<Range>, years: set<int>, c: Range, i: nat, j: nat)
    requires Covers(ranges, years) && Separated(ranges) && i < j < |ranges|
    requires forall y :: Within(y, c) ==> y in years
    requires Within(ranges[i].first, c)
    ensures !Within(ranges[j].first, c)
  {
    assert ranges[i] in ranges && ranges[j] in ranges;
    GapIsMissing(ranges, j);
    assert ranges[i].second + 1 < ranges[j].first;
    assert Within(ranges[j].first, c) ==> Within(ranges[j].first - 1, c);
  }

  /** Any other cover has one range for each of the separated ones. */
  lemma {:induction false} CoverIsAtLeast(ranges: seq<Range>, years: set<int>, cover: seq<Range>, n: nat) returns (used: set<int>)
    requires Covers(ranges, years) && Separated(ranges) && Covers(cover, years) && n <= |ranges|
    ensures |used| == n && forall k :: k in used ==> 0 <= k < |cover|
    ensures forall k :: k in used ==> exists i :: 0 <= i < n && Within(ranges[i].first, cover[k])
  {
    if n == 0 {
      used := {};
    } else {
      var before := CoverIsAtLeast(ranges, years, cover, n - 1);
      var y := ranges[n - 1].first;
      assert ranges[n - 1] in ranges && Within(y, ranges[n - 1]);
      assert InSome(ranges, y) && InSome(cover, y);
      var c :| c in cover && Within(y, c);
      var k :| 0 <= k < |cover| && cover[k] == c;
      forall i | 0 <= i < n - 1
        ensures !Within(ranges[i].first, c)
      {
        assert forall z :: Within(z, c) ==> InSome(cover, z);
        if Within(ranges[i].first, c) {
          ReachesOneRange(ranges, years, c, i, n - 1);
        }
      }
      used := before + {k};
      assert Within(ranges[n - 1].first, cover[k]);
    }
  }

  lemma {:induction false} IndicesBelow(used: set<int>, n: nat)
    requires forall k :: k in used ==> 0 <= k < n
    ensures |used| <= n
  {
    if n == 0 {
      assert forall k :: k !in used;
      assert used == {};
    } else {
      IndicesBelow(used - {n - 1}, n - 1);
      assert used <= (used - {n - 1}) + {n - 1};
    }
  }

  lemma FewestRanges(ranges: seq<Range>, years: set<int>, cover: seq<Range>)
    requires Covers(ranges, years) && Separated(ranges) && Covers(cover, years)
    ensures |ranges| <= |cover|
  {
    var used := CoverIsAtLeast(ranges, years, cover, |ranges|);
    IndicesBelow(used, |cover|);
  }

  // ----- Reading -----

  predicate FourDigits(s: string) {
    |s| >= 4 && IsDigit(s[0]) && IsDigit(s[1]) && IsDigit(s[2]) && IsDigit(s[3])
  }

  /** The match of four digits, a dash with any white space around it, and four digits. */
  function MatchRange(s: string): Option<(string, string)> {
    if !FourDigits(s) then None
    else
      var dash := StripLeft(s[4..]);
      if dash == [] || dash[0] != '-' || !FourDigits(StripLeft(dash[1..])) then None
      else Some((s[..4], StripLeft(dash[1..])[..4]))
  }

  /** `s` begins with two four-digit numbers and a dash between them, which white space may surround. */
  ghost predicate BeginsWithRange(s: string, f: string, l: string, gap: string, gap': string, tail: string) {
    && s == f + gap + "-" + gap' + l + tail
    && |f| == 4 && |l| == 4 && (forall c :: c in f + l ==> IsDigit(c))
    && Spaces(gap) && Spaces(gap')
  }

  /** The regular expression matches exactly such items, and picks out the two numbers. */
  lemma MatchRangeExactly(s: string, f: string, l: string)
    ensures MatchRange(s) == Some((f, l)) <==> exists gap, gap', tail :: BeginsWithRange(s, f, l, gap, gap', tail)
  {
    if MatchRange(s) == Some((f, l)) {
      var gap, gap', tail := MatchedParts(s, f, l);
    }
    if gap, gap', tail :| BeginsWithRange(s, f, l, gap, gap', tail) {
      RangeMatches(s, f, l, gap, gap', tail);
    }
  }

  lemma MatchedParts(s: string, f: string, l: string) returns (gap: string, gap': string, tail: string)
    requires MatchRange(s) == Some((f, l))
    ensures BeginsWithRange(s, f, l, gap, gap', tail)
  {
    gap := LeftPart(s[4..]);
    var dash := StripLeft(s[4..]);
    gap' := LeftPart(dash[1..]);
    var rest := StripLeft(dash[1..]);
    tail := rest[4..];
    FirstFourOf(s);
    FirstFourOf(rest);
    Concatenated(s, f, gap, dash, gap', rest, l, tail);
  }

  lemma FirstFourOf(s: string)
    requires FourDigits(s)
    ensures s == s[..4] + s[4..] && forall c :: c in s[..4] ==> IsDigit(c)
  {
    assert s[..4] == [s[0], s[1], s[2], s[3]];
  }

  lemma Concatenated(s: string, f: string, gap: string, dash: string, gap': string, rest: string, l: string, tail: string)
    requires |s| >= 4 && f == s[..4] && s[4..] == gap + dash && dash != [] && dash[0] == '-'
    requires dash[1..] == gap' + rest && rest == l + tail
    ensures s == f + gap + "-" + gap' + l + tail
  {
    assert s == f + s[4..] && dash == "-" + dash[1..];
  }

  lemma FourOf(f: string, rest: string)
    requires |f| == 4 && forall c :: c in f ==> IsDigit(c)
    ensures FourDigits(f + rest) && (f + rest)[..4] == f && (f + rest)[4..] == rest
  {
    assert f[0] in f && f[1] in f && f[2] in f && f[3] in f;
  }

  lemma RangeMatches(s: string, f: string, l: string, gap: string, gap': string, tail: string)
    requires BeginsWithRange(s, f, l, gap, gap', tail)
    ensures MatchRange(s) == Some((f, l))
  {
    var dash := "-" + (gap' + (l + tail));
    assert s == f + (gap + dash);
    assert forall c :: c in f ==> c in f + l;
    assert forall c :: c in l ==> c in f + l;
    FourOf(f, gap + dash);
    FourOf(l, tail);
    StripLeftSpaces(gap, dash);
    assert dash[1..] == gap' + (l + tail) && l[0] in l;
    StripLeftSpaces(gap', l + tail);
  }

  function NumberOf(digits: string): nat {
    if ParseNat(digits).Some? then ParseNat(digits).value else 0
  }

  /** The years one item adds; an item that is neither a range nor a number adds none. */
  function ItemYears(item: string): set<int> {
    match MatchRange(item)
    case Some((f, l)) => Years(Range(NumberOf(f), NumberOf(l)))
    case None =>
      match ParseInteger(item, false)
      case Some(y) => {y}
      case None => {}
  }

  function ReadItems(items: seq<string>): set<int> {
    if items == [] then {} else ReadItems(items[..|items| - 1]) + ItemYears(Strip(items[|items| - 1]))
  }

  function ReadDates(text: string): set<int> {
    ReadItems(Split(text, ','))
  }

  // ----- Printing -----

  function RangeText(r: Range): string {
    if r.first == r.second then Decimal(r.first) else Decimal(r.first) + "-" + Decimal(r.second)
  }

  function Texts(ranges: seq<Range>): (s: seq<string>)
    ensures |s| == |ranges| && forall i :: 0 <= i < |ranges| ==> s[i] == RangeText(ranges[i])
  {
    if ranges == [] then [] else Texts(ranges[..|ranges| - 1]) + [RangeText(ranges[|ranges| - 1])]
  }

  function PrintRanges(ranges: seq<Range>): string
    requires ranges != []
  {
    Join(Texts(ranges), ',')
  }

  // ----- The round trip -----

  /** A single year, or a range between two four-digit years. */
  predicate Readable(r: Range) {
    r.first == r.second || (1000 <= r.first && r.second <= 9999)
  }

  lemma {:induction false} DecimalLength(n: nat)
    ensures |Decimal(n)| == 1 <==> n < 10
    ensures |Decimal(n)| <= 3 <==> n < 1000
    ensures |Decimal(n)| <= 4 <==> n < 10000
    ensures |Decimal(n)| <= 2 <==> n < 100
  {
    if n >= 10 {
      DecimalLength(n / 10);
    }
  }

  lemma {:induction false} NumberBelow(s: string)
    requires |s| == 4
    ensures NumberOf(s) <= 9999
  {
    assert s[..3][..2] == s[..2] && s[..2][..1] == s[..1];
    assert ParseNat(s[..1]).Some? ==> ParseNat(s[..1]).value <= 9;
    assert ParseNat(s[..2]).Some? ==> ParseNat(s[..2]).value <= 99;
    assert ParseNat(s[..3]).Some? ==> ParseNat(s[..3]).value <= 999;
    assert s[..|s| - 1] == s[..3];
  }

  lemma DigitsNotSpace(s: string)
    requires s != [] && forall c :: c in s ==> IsDigit(c) || c == '-'
    ensures Strip(s) == s && StripLeft(s) == s
  {
    assert s[0] in s && s[|s| - 1] in s;
  }

  lemma RangeTextChars(r: Range)
    ensures RangeText(r) != [] && forall c :: c in RangeText(r) ==> IsDigit(c) || c == '-'
    ensures Strip(RangeText(r)) == RangeText(r)
  {
    DigitsNotSpace(RangeText(r));
  }

  lemma SingleYearReads(n: nat)
    ensures ItemYears(Decimal(n)) == {n as int}
  {
    var s := Decimal(n);
    IntegerOfDecimal(n, false);
    if FourDigits(s) && s[4..] != [] {
      assert forall c :: c in s[4..] ==> c in s;
      DigitsNotSpace(s[4..]);
      assert s[4..][0] in s;
    }
    assert MatchRange(s) == None;
    assert s[0] in s;
  }

  lemma TextParts(r: Range)
    requires r.first < r.second
    ensures var s, n := RangeText(r), |Decimal(r.first)|;
            n < |s| && s[..n] == Decimal(r.first) && s[n] == '-' && s[n + 1..] == Decimal(r.second)
  {
  }

  lemma NotANumber(r: Range)
    requires r.first < r.second
    ensures ParseInteger(RangeText(r), false) == None
  {
    TextParts(r);
    var s, n := RangeText(r), |Decimal(r.first)|;
    ParseNatDigits(s);
    assert s[n] in s && !IsDigit('-');
    assert s[0] == Decimal(r.first)[0] && Decimal(r.first)[0] in Decimal(r.first);
    RangeTextChars(r);
  }

  /** An item adds years of its own range only, and all of them exactly when it is readable. */
  lemma RangeReads(r: Range)
    requires r.first <= r.second
    ensures ItemYears(RangeText(r)) <= Years(r)
    ensures Readable(r) ==> ItemYears(RangeText(r)) == Years(r)
    ensures !Readable(r) ==> r.second as int !in ItemYears(RangeText(r))
  {
    if r.first == r.second {
      SingleYearReads(r.first);
    } else {
      NotANumber(r);
      StartsWithDigits(r);
      if 1000 <= r.first {
        FourDigitStart(r);
        RangeEnds(r);
      }
    }
  }

  /** The first four characters of a range are digits exactly when its first year has four or more. */
  lemma StartsWithDigits(r: Range)
    requires r.first < r.second
    ensures FourDigits(RangeText(r)) <==> 1000 <= r.first
  {
    var s, n := RangeText(r), |Decimal(r.first)|;
    TextParts(r);
    DecimalLength(r.first);
    if n >= 4 {
      FirstFour(Decimal(r.first));
      assert s[0] == Decimal(r.first)[0] && s[1] == Decimal(r.first)[1];
      assert s[2] == Decimal(r.first)[2] && s[3] == Decimal(r.first)[3];
    } else {
      assert s[n] == '-' && !IsDigit('-');
    }
  }

  lemma FourDigitStart(r: Range)
    requires 1000 <= r.first < r.second
    ensures |Decimal(r.second)| >= 4
    ensures MatchRange(RangeText(r)) == if r.first < 10000 then Some((Decimal(r.first), Decimal(r.second)[..4])) else None
  {
    var s, n := RangeText(r), |Decimal(r.first)|;
    TextParts(r);
    StartsWithDigits(r);
    DecimalLength(r.first);
    DecimalLength(r.second);
    if n == 4 {
      assert s[4..][0] == '-' && !IsSpace('-');
      assert s[4..][1..] == Decimal(r.second);
      DigitsNotSpace(Decimal(r.second));
      FirstFour(Decimal(r.second));
    } else {
      assert s[4..][0] == Decimal(r.first)[4] && Decimal(r.first)[4] in Decimal(r.first);
    }
  }

  lemma RangeEnds(r: Range)
    requires 1000 <= r.first < r.second && |Decimal(r.second)| >= 4
    ensures NumberOf(Decimal(r.first)) == r.first
    ensures r.second < 10000 ==> NumberOf(Decimal(r.second)[..4]) == r.second
    ensures NumberOf(Decimal(r.second)[..4]) <= 9999
  {
    ParseDecimal(r.first);
    ParseDecimal(r.second);
    NumberBelow(Decimal(r.second)[..4]);
    DecimalLength(r.second);
    if |Decimal(r.second)| == 4 {
      assert Decimal(r.second)[..4] == Decimal(r.second);
    }
  }

  lemma FirstFour(s: string)
    requires forall c :: c in s ==> IsDigit(c)
    ensures |s| >= 4 ==> FourDigits(s)
  {
    if |s| >= 4 {
      assert s[0] in s && s[1] in s && s[2] in s && s[3] in s;
    }
  }

  lemma {:induction false} ReadTexts(ranges: seq<Range>, y: int)
    requires forall r :: r in ranges ==> r.first <= r.second
    ensures y in ReadItems(Texts(ranges)) <==> ReadFromSome(ranges, y)
  {
    if ranges != [] {
      var front, last := ranges[..|ranges| - 1], ranges[|ranges| - 1];
      assert ranges == front + [last];
      assert Texts(ranges)[..|ranges| - 1] == Texts(front);
      assert ReadFromSome(ranges, y) <==> ReadFromSome(front, y) || y in ItemYears(RangeText(last));
      ReadTexts(front, y);
      RangeTextChars(last);
    }
  }

  ghost predicate ReadFromSome(ranges: seq<Range>, y: int) {
    exists r :: r in ranges && y in ItemYears(RangeText(r))
  }

  lemma PrintedSplits(ranges: seq<Range>)
    requires ranges != []
    ensures Split(PrintRanges(ranges), ',') == Texts(ranges)
  {
    forall p | p in Texts(ranges)
      ensures ',' !in p
    {
      var i :| 0 <= i < |ranges| && Texts(ranges)[i] == p;
      RangeTextChars(ranges[i]);
    }
    SplitJoin(Texts(ranges), ',');
  }

  /** Printed separated ranges read back as the same years exactly when each of them is readable. */
  lemma RoundTripExactly(ranges: seq<Range>, years: set<int>)
    requires ranges != [] && Covers(ranges, years) && Separated(ranges)
    ensures ReadDates(PrintRanges(ranges)) == years <==> forall r :: r in ranges ==> Readable(r)
  {
    PrintedSplits(ranges);
    var read := ReadDates(PrintRanges(ranges));
    forall y
      ensures y in read <==> ReadFromSome(ranges, y)
    {
      ReadTexts(ranges, y);
    }
    forall r | r in ranges
      ensures ItemYears(RangeText(r)) <= Years(r)
      ensures Readable(r) ==> ItemYears(RangeText(r)) == Years(r)
      ensures !Readable(r) ==> r.second as int !in ItemYears(RangeText(r))
    {
      RangeReads(r);
    }
    if forall r :: r in ranges ==> Readable(r) {
      forall y
        ensures y in read <==> y in years
      {
        assert forall r :: r in ranges ==> (y in ItemYears(RangeText(r)) <==> Within(y, r));
        assert ReadFromSome(ranges, y) <==> InSome(ranges, y);
      }
    } else {
      var r :| r in ranges && !Readable(r);
      LastYearLost(ranges, years, read, r);
    }
  }

  lemma SameRange(ranges: seq<Range>, i: nat, k: nat, y: int)
    requires Separated(ranges) && i < |ranges| && k < |ranges| && Within(y, ranges[i]) && Within(y, ranges[k])
    ensures i == k
  {
  }

  lemma LastYearLost(ranges: seq<Range>, years: set<int>, read: set<int>, r: Range)
    requires Covers(ranges, years) && Separated(ranges) && r in ranges
    requires forall y :: y in read <==> ReadFromSome(ranges, y)
    requires forall q :: q in ranges ==> ItemYears(RangeText(q)) <= Years(q)
    requires r.second as int !in ItemYears(RangeText(r))
    ensures r.second as int in years && r.second as int !in read
  {
    assert Within(r.second, r) && InSome(ranges, r.second);
    var i :| 0 <= i < |ranges| && ranges[i] == r;
    forall q | q in ranges && Within(r.second, q)
      ensures q == r
    {
      var k :| 0 <= k < |ranges| && ranges[k] == q;
      SameRange(ranges, i, k, r.second);
    }
  }

  /** For four-digit years, which is what copyright notices hold, printing loses nothing. */
  lemma FourDigitYears(ranges: seq<Range>, years: set<int>)
    requires ranges != [] && Covers(ranges, years) && Separated(ranges)
    requires forall y :: y in years ==> 1000 <= y <= 9999
    ensures ReadDates(PrintRanges(ranges)) == years
  {
    RoundTripExactly(ranges, years);
    forall r | r in ranges
      ensures Readable(r)
    {
      assert Within(r.first, r) && Within(r.second, r);
      assert InSome(ranges, r.first) && InSome(ranges, r.second);
    }
  }

  // ----- The scripts' loops -----

  datatype DateText = DateText(text: string) | IndexError

  /** `list(dates)` sorted. */
  method SortYears(years: set<nat>) returns (ys: seq<nat>)
    ensures StrictlyAscending(ys) && forall y :: y in ys <==> y in years
  {
    ys := [];
    var left := years;
    while left != {}
      invariant left <= years && StrictlyAscending(ys)
      invariant forall y :: y in ys <==> y in years - left
      decreases |left|
    {
      var y :| y in left;
      ys := InsertYear(ys, y);
      left := left - {y};
    }
  }

  method InsertYear(ys: seq<nat>, y: nat) returns (more: seq<nat>)
    requires StrictlyAscending(ys) && y !in ys
    ensures StrictlyAscending(more) && forall x :: x in more <==> x in ys || x == y
  {
    var i := 0;
    while i < |ys| && ys[i] < y
      invariant 0 <= i <= |ys| && forall j :: 0 <= j < i ==> ys[j] < y
    {
      i := i + 1;
    }
    assert ys == ys[..i] + ys[i..];
    more := ys[..i] + [y] + ys[i..];
  }

  /** The ranges hold exactly the first `i` years and reach up to the last of these. */
  ghost predicate Grouped(ys: seq<nat>, ranges: seq<Range>, i: nat) {
    && 0 < i <= |ys| && ranges != [] && Separated(ranges)
    && (forall r :: r in ranges ==> r.first <= r.second)
    && (forall y: int :: InSome(ranges, y) <==> y in ys[..i])
    && ranges[|ranges| - 1].second == ys[i - 1]
  }

  lemma InSomeSnoc(ranges: seq<Range>, r: Range, y: int)
    ensures InSome(ranges + [r], y) <==> InSome(ranges, y) || Within(y, r)
  {
    assert r in ranges + [r];
    assert forall q :: q in ranges ==> q in ranges + [r];
  }

  /** The next year continues the last range... */
  lemma GroupExtended(ys: seq<nat>, closed: seq<Range>, open: Range, i: nat)
    requires i < |ys| && Grouped(ys, closed + [open], i) && ys[i] == open.second + 1
    ensures Grouped(ys, closed + [Range(open.first, ys[i])], i + 1)
  {
    var all, longer := closed + [open], closed + [Range(open.first, ys[i])];
    assert ys[..i + 1] == ys[..i] + [ys[i]];
    assert all[|closed|] in all;
    forall j, k | 0 <= j < k < |longer|
      ensures longer[j].second + 1 < longer[k].first
    {
      assert all[j].second + 1 < all[k].first;
    }
    forall y: int
      ensures InSome(longer, y) <==> y in ys[..i + 1]
    {
      InSomeSnoc(closed, open, y);
      InSomeSnoc(closed, Range(open.first, ys[i]), y);
    }
    forall r | r in longer
      ensures r.first <= r.second
    {
      assert r in all || r == Range(open.first, ys[i]);
    }
  }

  lemma LastIsLargest(ranges: seq<Range>, j: nat)
    requires Separated(ranges) && j < |ranges| && forall r :: r in ranges ==> r.first <= r.second
    ensures ranges[j].second <= ranges[|ranges| - 1].second
  {
    assert ranges[|ranges| - 1] in ranges;
    assert j < |ranges| - 1 ==> ranges[j].second + 1 < ranges[|ranges| - 1].first;
  }

  /** ...or starts a new one. */
  lemma GroupAdded(ys: seq<nat>, all: seq<Range>, i: nat)
    requires i < |ys| && Grouped(ys, all, i) && ys[i] > ys[i - 1] + 1
    ensures Grouped(ys, all + [Range(ys[i], ys[i])], i + 1)
  {
    var added := Range(ys[i], ys[i]);
    var more := all + [added];
    assert ys[..i + 1] == ys[..i] + [ys[i]];
    forall j, k | 0 <= j < k < |more|
      ensures more[j].second + 1 < more[k].first
    {
      LastIsLargest(all, j);
      assert k < |all| ==> all[j].second + 1 < all[k].first;
    }
    forall y: int
      ensures InSome(more, y) <==> y in ys[..i + 1]
    {
      InSomeSnoc(all, added, y);
    }
  }

  /** Grouping sorted years: no year lost or added, and a gap between ranges. */
  method GroupYears(ys: seq<nat>) returns (ranges: seq<Range>)
    requires StrictlyAscending(ys) && ys != []
    ensures ranges != [] && Separated(ranges) && Covers(ranges, set y | y in ys)
  {
    var first, second := ys[0], ys[0];
    var closed: seq<Range> := [];
    FirstGroup(ys);
    for i := 1 to |ys|
      invariant Grouped(ys, closed + [Range(first, second)], i)
    {
      assert ys[i - 1] < ys[i];
      if ys[i] == second + 1 {
        GroupExtended(ys, closed, Range(first, second), i);
        second := ys[i];
      } else {
        GroupAdded(ys, closed + [Range(first, second)], i);
        closed := closed + [Range(first, second)];
        first, second := ys[i], ys[i];
      }
    }
    ranges := closed + [Range(first, second)];
    assert ys[..|ys|] == ys;
  }

  lemma FirstGroup(ys: seq<nat>)
    requires ys != []
    ensures Grouped(ys, [] + [Range(ys[0], ys[0])], 1)
  {
    assert ys[..1] == [ys[0]];
    forall y: int
      ensures InSome([] + [Range(ys[0], ys[0])], y) <==> y in ys[..1]
    {
      InSomeSnoc([], Range(ys[0], ys[0]), y);
    }
  }

  /** Prints the years as the fewest ranges there are for them. */
  method DateStr(years: set<nat>) returns (r: DateText)
    ensures r.IndexError? <==> years == {}
    ensures r.DateText? ==> exists ranges ::
              && ranges != [] && Separated(ranges) && Covers(ranges, years)
              && (forall cover :: Covers(cover, years) ==> |ranges| <= |cover|)
              && r.text == PrintRanges(ranges)
    ensures r.DateText? && (forall y :: y in years ==> 1000 <= y <= 9999) ==> ReadDates(r.text) == years
  {
    var ys := SortYears(years);
    assert years == set y | y in ys;
    if ys == [] {
      return IndexError;
    }
    assert ys[0] in years;
    var ranges := GroupYears(ys);
    forall cover | Covers(cover, years)
      ensures |ranges| <= |cover|
    {
      FewestRanges(ranges, years, cover);
    }
    if forall y :: y in years ==> 1000 <= y <= 9999 {
      FourDigitYears(ranges, years);
    }
    var text := FormatRanges(ranges);
    return DateText(text);
  }

  /** `add_output` for each range, and the final `join`. */
  method FormatRanges(ranges: seq<Range>) returns (text: string)
    requires ranges != []
    ensures text == PrintRanges(ranges)
  {
    var output: seq<string> := [];
    for i := 0 to |ranges|
      invariant output == Texts(ranges[..i])
    {
      assert ranges[..i + 1][..i] == ranges[..i];
      var first, second := ranges[i].first, ranges[i].second;
      if first == second {
        output := output + [Decimal(first)];
      } else {
        output := output + [Decimal(first) + "-" + Decimal(second)];
      }
    }
    assert ranges[..|ranges|] == ranges;
    text := Join(output, ',');
  }

  lemma FourDecimals(n: nat, a: nat, b: nat, c: nat, d: nat)
    requires 0 < a < 10 && b < 10 && c < 10 && d < 10 && n == ((a * 10 + b) * 10 + c) * 10 + d
    ensures Decimal(n) == [DigitChar(a), DigitChar(b), DigitChar(c), DigitChar(d)]
  {
    assert n / 10 == (a * 10 + b) * 10 + c && n % 10 == d;
    assert n / 100 == a * 10 + b && n / 10 / 10 == a * 10 + b && n / 10 % 10 == c;
    assert Decimal(a * 10 + b) == [DigitChar(a), DigitChar(b)];
    assert Decimal(n / 10) == [DigitChar(a), DigitChar(b), DigitChar(c)];
  }

  /** Three years in a row and a single one. */
  lemma PrintedExample()
    ensures PrintRanges([Range(2001, 2003), Range(2005, 2005)]) == "2001-2003,2005"
  {
    assert DigitChar(0) == '0' && DigitChar(1) == '1' && DigitChar(2) == '2' && DigitChar(3) == '3' && DigitChar(5) == '5';
    FourDecimals(2001, 2, 0, 0, 1);
    FourDecimals(2003, 2, 0, 0, 3);
    FourDecimals(2005, 2, 0, 0, 5);
    var ranges := [Range(2001, 2003), Range(2005, 2005)];
    var texts := Texts(ranges);
    assert texts[0] == RangeText(ranges[0]) && texts[1] == RangeText(ranges[1]);
    assert Decimal(2001) == "2001" && Decimal(2003) == "2003" && Decimal(2005) == "2005";
    assert "2001" + "-" + "2003" == "2001-2003";
    assert texts[1..] == [texts[1]];
    assert "2001-2003" + [','] + "2005" == "2001-2003,2005";
  }

  method ProcessDates(text: string) returns (years: set<int>)
    ensures years == ReadDates(text)
  {
    var items := Split(text, ',');
    years := {};
    for i := 0 to |items|
      invariant years == ReadItems(items[..i])
    {
      assert items[..i + 1][..i] == items[..i];
      years := AddItem(years, Strip(items[i]));
    }
    assert items[..|items|] == items;
  }

  method AddItem(years: set<int>, date: string) returns (more: set<int>)
    ensures more == years + ItemYears(date)
  {
    more := years;
    var found := MatchRange(date);
    if found.Some? {
      more := AddYears(years, NumberOf(found.value.0), NumberOf(found.value.1));
    } else {
      var year := ParseInteger(date, false);
      if year.Some? {
        more := years + {year.value};
      }
    }
  }

  method AddYears(years: set<int>, f: nat, l: nat) returns (more: set<int>)
    ensures more == years + Years(Range(f, l))
  {
    more := years;
    var y: int := f;
    while y < l + 1
      invariant f <= y && (y <= l + 1 || y == f)
      invariant forall x :: x in more <==> x in years || f <= x < y
    {
      more := more + {y};
      y := y + 1;
    }
    forall x
      ensures x in more <==> x in years + Years(Range(f, l))
    {
      assert f <= x <= l <==> Within(x, Range(f, l));
    }
  }
}

/**
 The section names `util/checkpoint_aggregator.py` writes: "cpu" is followed, wherever it
 occurs, by the zero-filled number of the checkpoint the section comes from.
 */
module SectionNames {
  import opened Wrappers
  import opened Text

  predicate StartsCpu(s: string) {
    |s| >= 3 && s[0] == 'c' && s[1] == 'p' && s[2] == 'u'
  }

  predicate HasCpu(s: string) {
    StartsCpu(s) || (s != [] && HasCpu(s[1..]))
  }

  /** `re.sub("cpu", "cpu" + digits, s)`. */
  function Numbered(s: string, digits: string): string {
    if StartsCpu(s) then "cpu" + digits + Numbered(s[3..], digits)
    else if s == [] then []
    else [s[0]] + Numbered(s[1..], digits)
  }

  /** `zfill` of a string of digits. */
  function ZeroFill(s: string, width: nat): (r: string)
    ensures |r| == if |s| < width then width else |s|
    decreases width - |s|
  {
    if |s| < width then ZeroFill(['0'] + s, width) else s
  }

  /** The name a section of checkpoint `i` out of `n` is written under. */
  function Renamed(s: string, i: nat, n: nat): string
    requires i < n
  {
    Numbered(s, ZeroFill(Decimal(i), |Decimal(n - 1)|))
  }

  // ----- What is replaced -----

  ghost predicate CpuAt(s: string, k: int) {
    0 <= k && k + 3 <= |s| && s[k..k + 3] == "cpu"
  }

  lemma StartsCpuExactly(s: string)
    ensures StartsCpu(s) <==> CpuAt(s, 0)
  {
    if |s| >= 3 {
      assert s[0..3] == [s[0], s[1], s[2]];
    }
  }

  /** The search finds the name somewhere. */
  lemma {:induction false} HasCpuExactly(s: string)
    ensures HasCpu(s) <==> exists k :: CpuAt(s, k)
  {
    StartsCpuExactly(s);
    if s != [] {
      HasCpuExactly(s[1..]);
      if k :| CpuAt(s, k) {
        if k > 0 {
          assert s[1..][k - 1..k + 2] == s[k..k + 3];
          assert CpuAt(s[1..], k - 1);
        }
      }
      if k :| CpuAt(s[1..], k) {
        assert s[1..][k..k + 3] == s[k + 1..k + 4];
        assert CpuAt(s, k + 1);
      }
    }
  }

  lemma {:induction false} NoLetterNoCpu(s: string)
    requires 'u' !in s
    ensures !HasCpu(s)
  {
    if s != [] {
      assert |s| >= 3 ==> s[2] in s;
      NoLetterNoCpu(s[1..]);
    }
  }

  /** A name without "cpu" stays as it is. */
  lemma {:induction false} NumberedNothing(s: string, digits: string)
    requires !HasCpu(s)
    ensures Numbered(s, digits) == s
  {
    if s != [] {
      NumberedNothing(s[1..], digits);
      assert s == [s[0]] + s[1..];
    }
  }

  /** Behind its first occurrence the digits are inserted, and the rest of the name is treated likewise. */
  lemma {:induction false} NumberedFirst(before: string, after: string, digits: string)
    requires !HasCpu(before + "cp")
    ensures Numbered(before + "cpu" + after, digits) == before + "cpu" + digits + Numbered(after, digits)
  {
    var s := before + "cpu" + after;
    if before == [] {
      assert s[3..] == after && StartsCpu(s);
    } else {
      assert (before + "cp")[1..] == before[1..] + "cp";
      NumberedFirst(before[1..], after, digits);
      assert s[1..] == before[1..] + "cpu" + after;
      StartsEarlier(before, after);
      assert [before[0]] + (before[1..] + "cpu" + digits + Numbered(after, digits)) == before + "cpu" + digits + Numbered(after, digits);
    }
  }

  lemma StartsEarlier(before: string, after: string)
    requires before != [] && !HasCpu(before + "cp")
    ensures !StartsCpu(before + "cpu" + after)
  {
    var s, t := before + "cpu" + after, before + "cp";
    assert s[0] == t[0] && s[1] == t[1] && s[2] == t[2];
  }

  lemma {:induction false} ZeroFillExactly(s: string, width: nat)
    ensures ZeroFill(s, width) == Zeros(if |s| < width then width - |s| else 0) + s
    decreases width - |s|
  {
    if |s| < width {
      ZeroFillExactly(['0'] + s, width);
      assert Zeros(width - |s| - 1) + (['0'] + s) == Zeros(width - |s|) + s;
    } else {
      assert Zeros(0) + s == s;
    }
  }

  // ----- No occurrence of "cpu" appears or disappears -----

  lemma NumberedHead(s: string, digits: string)
    ensures Numbered(s, digits) == [] <==> s == []
    ensures s != [] ==> Numbered(s, digits)[0] == s[0]
  {
  }

  lemma StartsKept(s: string, digits: string)
    ensures StartsCpu(Numbered(s, digits)) <==> StartsCpu(s)
  {
    if !StartsCpu(s) && s != [] {
      var rest := s[1..];
      NumberedHead(rest, digits);
      if rest != [] && !StartsCpu(rest) {
        NumberedHead(rest[1..], digits);
      }
    }
  }

  lemma {:induction false} HasCpuKept(s: string, digits: string)
    requires HasCpu(s)
    ensures HasCpu(Numbered(s, digits))
  {
    StartsKept(s, digits);
    if !StartsCpu(s) {
      HasCpuKept(s[1..], digits);
      assert Numbered(s, digits)[1..] == Numbered(s[1..], digits);
    }
  }

  // ----- The name and the number can be told from the new name -----

  lemma NumberedParts(s: string, digits: string)
    requires StartsCpu(s)
    ensures var t := Numbered(s, digits);
            |t| >= 3 + |digits| && t[3..3 + |digits|] == digits && t[3 + |digits|..] == Numbered(s[3..], digits)
  {
  }

  lemma {:induction false} NumberedInjective(s: string, t: string, digits: string)
    requires Numbered(s, digits) == Numbered(t, digits)
    ensures s == t
    decreases |s|
  {
    StartsKept(s, digits);
    StartsKept(t, digits);
    NumberedHead(s, digits);
    NumberedHead(t, digits);
    if StartsCpu(s) {
      NumberedParts(s, digits);
      NumberedParts(t, digits);
      NumberedInjective(s[3..], t[3..], digits);
      assert s == s[..3] + s[3..] && t == t[..3] + t[3..] && s[..3] == t[..3];
    } else if s != [] {
      assert Numbered(s, digits)[1..] == Numbered(s[1..], digits);
      assert Numbered(t, digits)[1..] == Numbered(t[1..], digits);
      NumberedInjective(s[1..], t[1..], digits);
      assert s == [s[0]] + s[1..] && t == [t[0]] + t[1..];
    }
  }

  lemma {:induction false} NumberShows(s: string, d: string, t: string, e: string)
    requires HasCpu(s) && |d| == |e| && Numbered(s, d) == Numbered(t, e)
    ensures d == e
    decreases |s|
  {
    StartsKept(s, d);
    StartsKept(t, e);
    NumberedHead(s, d);
    NumberedHead(t, e);
    if StartsCpu(s) {
      NumberedParts(s, d);
      NumberedParts(t, e);
    } else {
      assert Numbered(s, d)[1..] == Numbered(s[1..], d);
      assert Numbered(t, e)[1..] == Numbered(t[1..], e);
      NumberShows(s[1..], d, t[1..], e);
    }
  }

  lemma {:induction false} LeadingZero(s: string)
    requires ParseNat(s).Some?
    ensures ParseNat(['0'] + s) == ParseNat(s)
  {
    var filled := ['0'] + s;
    assert filled[..|filled| - 1] == ['0'] + s[..|s| - 1];
    if |s| > 1 {
      LeadingZero(s[..|s| - 1]);
    } else {
      assert s[..|s| - 1] == [];
      assert ParseNat(['0']) == Some(0);
    }
  }

  lemma {:induction false} FilledNumber(s: string, width: nat)
    requires ParseNat(s).Some?
    ensures ParseNat(ZeroFill(s, width)) == ParseNat(s)
    decreases width - |s|
  {
    if |s| < width {
      LeadingZero(s);
      FilledNumber(['0'] + s, width);
    }
  }

  lemma {:induction false} DecimalGrows(a: nat, b: nat)
    requires a <= b
    ensures |Decimal(a)| <= |Decimal(b)|
  {
    if a >= 10 {
      DecimalGrows(a / 10, b / 10);
    }
  }

  /** The number is as wide for every checkpoint, so equal new names have equal numbers and old names. */
  lemma RenamedInjective(s: string, i: nat, t: string, j: nat, n: nat)
    requires i < n && j < n && HasCpu(s) && Renamed(s, i, n) == Renamed(t, j, n)
    ensures s == t && i == j
  {
    var width := |Decimal(n - 1)|;
    DecimalGrows(i, n - 1);
    DecimalGrows(j, n - 1);
    var d, e := ZeroFill(Decimal(i), width), ZeroFill(Decimal(j), width);
    NumberShows(s, d, t, e);
    NumberedInjective(s, t, d);
    ParseDecimal(i);
    ParseDecimal(j);
    FilledNumber(Decimal(i), width);
    FilledNumber(Decimal(j), width);
  }
}

/**
 * The string operations the outline relies on, restricted to what the model
 * needs: ASCII case folding, Python's notion of whitespace and `strip`,
 * substring search, and decimal formatting of counters.
 */
module Text {
  import opened Wrappers

  /** Lower-cases an ASCII letter and leaves every other character alone. */
  function Lower(c: char): char
  {
    if 'A' <= c <= 'Z' then (c as int + 32) as char else c
  }

  /** `s.lower()`, restricted to ASCII letters. */
  function LowerStr(s: string): (r: string)
    ensures |r| == |s|
    ensures forall i :: 0 <= i < |s| ==> r[i] == Lower(s[i])
    ensures forall i :: 0 <= i < |r| ==> !('A' <= r[i] <= 'Z')
  {
    seq(|s|, i requires 0 <= i < |s| => Lower(s[i]))
  }

  /** Two strings are equal once ASCII case is ignored. */
  predicate EqualIgnoringCase(a: string, b: string)
  {
    |a| == |b| && forall i :: 0 <= i < |a| ==> Lower(a[i]) == Lower(b[i])
  }

  lemma LowerStrEqual(a: string, b: string)
    ensures LowerStr(a) == LowerStr(b) <==> EqualIgnoringCase(a, b)
  {
    if EqualIgnoringCase(a, b) {
      assert forall i :: 0 <= i < |a| ==> LowerStr(a)[i] == LowerStr(b)[i];
    }
  }

  lemma LowerStrSlice(s: string, i: nat, j: nat)
    requires i <= j <= |s|
    ensures LowerStr(s)[i..j] == LowerStr(s[i..j])
  {
    var a := LowerStr(s)[i..j];
    var b := LowerStr(s[i..j]);
    forall t | 0 <= t < j - i ensures a[t] == b[t] {
      assert s[i..j][t] == s[i + t];
    }
  }

  /** `q` occurs in `s` at index `j` once ASCII case is ignored. */
  predicate OccursIgnoringCaseAt(q: string, s: string, j: nat)
  {
    j + |q| <= |s| && EqualIgnoringCase(s[j..j + |q|], q)
  }

  /** The characters for which Python's `str.isspace` holds. */
  predicate IsSpace(c: char)
  {
    var n := c as int;
    n == 0x20 || 0x09 <= n <= 0x0d || 0x1c <= n <= 0x1f || n == 0x85 || n == 0xa0
    || n == 0x1680 || 0x2000 <= n <= 0x200a || n == 0x2028 || n == 0x2029
    || n == 0x202f || n == 0x205f || n == 0x3000
  }

  predicate IsBlank(s: string)
  {
    forall i :: 0 <= i < |s| ==> IsSpace(s[i])
  }

  function StripLeading(s: string): (r: string)
    ensures |r| <= |s| && r == s[|s| - |r|..]
    ensures IsBlank(s[..|s| - |r|])
    ensures r == [] || !IsSpace(r[0])
  {
    if s == [] then []
    else if IsSpace(s[0]) then
      var t := StripLeading(s[1..]);
      assert s[..|s| - |t|] == [s[0]] + s[1..][..|s| - 1 - |t|];
      t
    else s
  }

  function StripTrailing(s: string): (r: string)
    ensures |r| <= |s| && r == s[..|r|]
    ensures IsBlank(s[|r|..])
    ensures r == [] || !IsSpace(r[|r| - 1])
  {
    if s == [] then []
    else if IsSpace(s[|s| - 1]) then
      var t := StripTrailing(s[..|s| - 1]);
      assert s[|t|..] == s[..|s| - 1][|t|..] + [s[|s| - 1]];
      t
    else s
  }

  /**
   * Python's `s.strip()` with no argument: the part of `s` left once the
   * whitespace at both ends is cut off; it neither starts nor ends with whitespace.
   */
  function Strip(s: string): (r: string)
    ensures exists i, j :: 0 <= i <= j <= |s| && r == s[i..j] && IsBlank(s[..i]) && IsBlank(s[j..])
    ensures r == [] || (!IsSpace(r[0]) && !IsSpace(r[|r| - 1]))
  {
    var l := StripLeading(s);
    var r := StripTrailing(l);
    var i := |s| - |l|;
    var j := i + |r|;
    assert r == s[i..j] && s[j..] == l[|r|..];
    r
  }

  /** A non-empty string is blank exactly when its first character is a space and the rest is blank. */
  lemma BlankFirst(s: string)
    requires s != []
    ensures IsBlank(s) <==> IsSpace(s[0]) && IsBlank(s[1..])
  {
    if IsSpace(s[0]) && IsBlank(s[1..]) {
      forall i | 0 <= i < |s| ensures IsSpace(s[i]) {
        if i > 0 { assert s[i] == s[1..][i - 1]; }
      }
    }
  }

  lemma {:induction false} StripLeadingEmpty(s: string)
    ensures StripLeading(s) == [] <==> IsBlank(s)
  {
    if s != [] {
      BlankFirst(s);
      if IsSpace(s[0]) {
        StripLeadingEmpty(s[1..]);
      }
    }
  }

  lemma {:induction false} StripTrailingEmpty(s: string)
    ensures StripTrailing(s) == [] <==> IsBlank(s)
  {
    if s != [] && IsSpace(s[|s| - 1]) {
      var p := s[..|s| - 1];
      StripTrailingEmpty(p);
      assert IsBlank(s) <==> IsBlank(p) by {
        if IsBlank(p) {
          forall i | 0 <= i < |s| ensures IsSpace(s[i]) {
            if i < |s| - 1 { assert s[i] == p[i]; }
          }
        }
      }
    }
  }

  /** `s.strip()` is empty exactly when every character of `s` is whitespace. */
  lemma StripEmptyIffBlank(s: string)
    ensures Strip(s) == [] <==> IsBlank(s)
  {
    var t := StripLeading(s);
    StripLeadingEmpty(s);
    StripTrailingEmpty(t);
    assert IsBlank(t) <==> t == [] by {
      if t != [] { assert !IsSpace(t[0]); }
    }
  }

  /** `q` occurs in `s` starting at index `j`. */
  predicate OccursAt(q: string, s: string, j: nat)
  {
    j + |q| <= |s| && s[j..j + |q|] == q
  }

  /** The first index at or after `i` where `q` occurs in `s`. */
  function IndexFrom(q: string, s: string, i: nat): (r: Option<nat>)
    requires i <= |s|
    decreases |s| - i
    ensures r.Some? ==> i <= r.value && OccursAt(q, s, r.value)
    ensures r.Some? ==> forall j :: i <= j < r.value ==> !OccursAt(q, s, j)
    ensures r.None? ==> forall j :: i <= j ==> !OccursAt(q, s, j)
  {
    if i + |q| > |s| then None
    else if s[i..i + |q|] == q then Some(i)
    else IndexFrom(q, s, i + 1)
  }

  /** The first occurrence of `q` in `s`, as `str.find` would report it. */
  function IndexOf(q: string, s: string): (r: Option<nat>)
    ensures r.Some? ==> OccursAt(q, s, r.value)
    ensures r.Some? ==> forall j: nat :: j < r.value ==> !OccursAt(q, s, j)
    ensures r.None? ==> forall j :: !OccursAt(q, s, j)
  {
    IndexFrom(q, s, 0)
  }

  /** Python's substring test `q in s`. */
  function Contains(q: string, s: string): (r: bool)
    ensures r <==> exists j: nat :: OccursAt(q, s, j)
  {
    IndexOf(q, s).Some?
  }

  predicate IsDigit(c: char)
  {
    '0' <= c <= '9'
  }

  function DigitChar(d: nat): (c: char)
    requires d < 10
    ensures IsDigit(c)
  {
    (48 + d) as char
  }

  function DigitValue(c: char): nat
    requires IsDigit(c)
  {
    c as int - 48
  }

  predicate AllDigits(s: string)
  {
    forall i :: 0 <= i < |s| ==> IsDigit(s[i])
  }

  /** Python's `str(n)` for a non-negative integer. */
  function NatToString(n: nat): (r: string)
    ensures |r| >= 1 && AllDigits(r)
    ensures n >= 10 ==> |r| >= 2 && r[0] != '0'
    ensures n < 10 <==> |r| == 1
  {
    if n < 10 then [DigitChar(n)] else NatToString(n / 10) + [DigitChar(n % 10)]
  }

  /** The number a string of decimal digits denotes (leading zeros allowed). */
  function ParseDecimal(s: string): nat
    requires AllDigits(s)
  {
    if s == [] then 0 else ParseDecimal(s[..|s| - 1]) * 10 + DigitValue(s[|s| - 1])
  }

  lemma {:induction false} ParseNatToString(n: nat)
    ensures ParseDecimal(NatToString(n)) == n
  {
    if n >= 10 {
      var s := NatToString(n);
      assert s[..|s| - 1] == NatToString(n / 10);
      ParseNatToString(n / 10);
    }
  }

  /** Python's `f"{n:02d}"`: at least two digits, zero-padded on the left. */
  function ZeroPad2(n: nat): (r: string)
    ensures |r| >= 2 && AllDigits(r)
    ensures n < 10 <==> |r| == 2 && r[0] == '0'
  {
    if n < 10 then "0" + NatToString(n) else NatToString(n)
  }

  /** Reading the padded counter back yields the counter. */
  lemma ParseZeroPad2(n: nat)
    ensures ParseDecimal(ZeroPad2(n)) == n
  {
    ParseNatToString(n);
    if n < 10 {
      var s := ZeroPad2(n);
      assert s[..|s| - 1] == "0";
    }
  }

  /** The disambiguated name `f"{base}_{n:02d}"`. */
  function Suffixed(base: string, n: nat): (r: string)
    ensures |r| >= |base| + 3 && r[..|base|] == base
  {
    base + "_" + ZeroPad2(n)
  }

  /** The disambiguated name is the base, an underscore and a digit string that reads back as the counter. */
  lemma SuffixedReadsBack(base: string, n: nat)
    ensures var r := Suffixed(base, n);
      r[|base|] == '_' && AllDigits(r[|base| + 1..]) && ParseDecimal(r[|base| + 1..]) == n
  {
    ParseZeroPad2(n);
    assert Suffixed(base, n)[|base| + 1..] == ZeroPad2(n);
  }

  /** Different counters never give the same disambiguated name. */
  lemma SuffixedInjective(base: string, a: nat, b: nat)
    ensures Suffixed(base, a) == Suffixed(base, b) ==> a == b
  {
    SuffixedReadsBack(base, a);
    SuffixedReadsBack(base, b);
  }
}

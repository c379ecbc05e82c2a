/** The few Python string operations the handler relies on, written out
    for strings of Unicode characters: str.split with a one-character
    separator, str(int), int(str) on decimal digits, str.zfill, and the
    regular-expression fragment `.*LIT` as re.match runs it. */
module Text {

  // ---------------------------------------------------------------------
  // str.split(sep) and its inverse, sep.join(parts)
  // ---------------------------------------------------------------------

  /** Python's `s.split(sep)` for a one-character separator: the pieces
      between consecutive separators, always at least one (possibly empty). */
  function Split(s: string, sep: char): (parts: seq<string>)
    ensures |parts| >= 1
    ensures forall i :: 0 <= i < |parts| ==> sep !in parts[i]
    decreases |s|
  {
    if s == [] then [""]
    else
      var rest := Split(s[1..], sep);
      if s[0] == sep then [""] + rest
      else [[s[0]] + rest[0]] + rest[1..]
  }

  /** Python's `sep.join(parts)` for a non-empty list of pieces. */
  function Join(parts: seq<string>, sep: char): string
    requires |parts| >= 1
  {
    if |parts| == 1 then parts[0] else parts[0] + [sep] + Join(parts[1..], sep)
  }

  /** Joining the pieces of a split gives back the original string. */
  lemma {:induction false} JoinSplit(s: string, sep: char)
    ensures Join(Split(s, sep), sep) == s
    decreases |s|
  {
    if s != [] {
      var rest := Split(s[1..], sep);
      JoinSplit(s[1..], sep);
      if s[0] == sep {
        assert ([""] + rest)[1..] == rest;
      } else if |rest| == 1 {
        assert s == [s[0]] + s[1..];
      } else {
        var parts := Split(s, sep);
        assert parts == [[s[0]] + rest[0]] + rest[1..];
        assert parts[1..] == rest[1..];
        assert s == [s[0]] + s[1..];
      }
    }
  }

  /** Splitting `p + t` where the piece `p` holds no separator glues `p`
      onto the first piece of `t`'s split. */
  lemma {:induction false} SplitPrefix(p: string, t: string, sep: char)
    requires sep !in p
    ensures Split(p + t, sep) == [p + Split(t, sep)[0]] + Split(t, sep)[1..]
    decreases |p|
  {
    if p == [] {
      assert p + t == t;
      var parts := Split(t, sep);
      assert p + parts[0] == parts[0];
      assert [parts[0]] + parts[1..] == parts;
    } else {
      SplitPrefix(p[1..], t, sep);
      assert (p + t)[1..] == p[1..] + t;
      assert [p[0]] + (p[1..] + Split(t, sep)[0]) == p + Split(t, sep)[0];
    }
  }

  /** Splitting a join of separator-free pieces gives back the pieces. */
  lemma {:induction false} SplitJoin(parts: seq<string>, sep: char)
    requires |parts| >= 1
    requires forall i :: 0 <= i < |parts| ==> sep !in parts[i]
    ensures Split(Join(parts, sep), sep) == parts
  {
    if |parts| == 1 {
      SplitPrefix(parts[0], "", sep);
      assert parts[0] + "" == parts[0];
    } else {
      var t := [sep] + Join(parts[1..], sep);
      SplitJoin(parts[1..], sep);
      SplitPrefix(parts[0], t, sep);
      assert parts[0] + [sep] + Join(parts[1..], sep) == parts[0] + t;
      assert parts[0] + "" == parts[0];
      assert parts == [parts[0]] + parts[1..];
    }
  }

  /** A string splits into one piece iff it holds no separator. */
  lemma SplitWhole(s: string, sep: char)
    ensures sep !in s <==> Split(s, sep) == [s]
    ensures sep !in s <==> |Split(s, sep)| == 1
  {
    if sep !in s {
      SplitPrefix(s, "", sep);
      assert s + "" == s;
    } else {
      JoinSplit(s, sep);
    }
  }

  /** The last piece of a join is a suffix of it, preceded by a separator
      unless it is the whole string. */
  lemma {:induction false} JoinEndsWithLast(parts: seq<string>, sep: char)
    requires |parts| >= 1
    ensures var last, j := parts[|parts| - 1], Join(parts, sep);
      && |last| <= |j| && j[|j| - |last|..] == last
      && (|last| < |j| ==> j[|j| - |last| - 1] == sep)
  {
    if |parts| > 1 {
      JoinEndsWithLast(parts[1..], sep);
      var last := parts[|parts| - 1];
      var rest := Join(parts[1..], sep);
      var j := parts[0] + [sep] + rest;
      assert parts[1..][|parts| - 2] == last;
      assert j[|j| - |rest|..] == rest;
      assert j[|j| - |last|..] == rest[|rest| - |last|..];
      if |last| == |rest| {
        assert j[|j| - |last| - 1] == sep;
      } else {
        assert j[|j| - |last| - 1] == rest[|rest| - |last| - 1];
      }
    }
  }

  // ---------------------------------------------------------------------
  // Decimal digits: str(int) and int(str)
  // ---------------------------------------------------------------------

  predicate IsDigit(c: char) { '0' <= c <= '9' }

  predicate AllDigits(s: string) { forall i :: 0 <= i < |s| ==> IsDigit(s[i]) }

  function DigitChar(d: nat): (c: char)
    requires d < 10
    ensures IsDigit(c)
  {
    ('0' as int + d) as char
  }

  /** Python's `str(n)` for a natural number: decimal, no leading zero. */
  function NatToString(n: nat): (s: string)
    ensures |s| >= 1 && AllDigits(s)
    ensures |s| > 1 ==> s[0] != '0'
    ensures n < 10 <==> |s| == 1
  {
    if n < 10 then [DigitChar(n)] else NatToString(n / 10) + [DigitChar(n % 10)]
  }

  /** Python's `str(i)` for any integer: a leading '-' for negatives. */
  function IntToString(i: int): (s: string)
    ensures |s| >= 1 && '_' !in s && '=' !in s
    ensures i >= 0 ==> AllDigits(s)
  {
    if i < 0 then "-" + NatToString(-i) else NatToString(i)
  }

  /** `str(i)` holds only digits and a leading '-', so no path separator. */
  lemma NoSlashInIntToString(i: int)
    ensures '/' !in IntToString(i)
  {
  }

  /** Python's `int(s)` on a string of decimal digits (the empty string, which
      Python rejects, is given the value 0). */
  function ParseNat(s: string): nat
    requires AllDigits(s)
  {
    if s == [] then 0 else 10 * ParseNat(s[..|s| - 1]) + (s[|s| - 1] as int - '0' as int)
  }

  /** int(str(n)) == n. */
  lemma {:induction false} ParseNatToString(n: nat)
    ensures ParseNat(NatToString(n)) == n
  {
    if n >= 10 {
      ParseNatToString(n / 10);
      var s := NatToString(n);
    }
  }

  /** str is injective on integers: distinct integers print differently. */
  lemma IntToStringInjective(a: int, b: int)
    ensures IntToString(a) == IntToString(b) <==> a == b
  {
    if IntToString(a) == IntToString(b) {
      if a < 0 && b < 0 {
        assert NatToString(-a) == IntToString(a)[1..];
        ParseNatToString(-a);
        ParseNatToString(-b);
      } else if a >= 0 && b >= 0 {
        ParseNatToString(a);
        ParseNatToString(b);
      }
    }
  }

  // ---------------------------------------------------------------------
  // str.zfill(width)
  // ---------------------------------------------------------------------

  function Zeros(k: nat): (z: string)
    ensures |z| == k && forall i :: 0 <= i < k ==> z[i] == '0'
  {
    if k == 0 then "" else Zeros(k - 1) + "0"
  }

  /** Python's `s.zfill(width)`: pads with '0' on the left up to `width`
      characters, after a leading '+' or '-' sign if there is one. */
  function ZFill(s: string, width: nat): (r: string)
    ensures |s| >= width ==> r == s
    ensures |s| < width ==> |r| == width
    ensures AllDigits(s) ==> AllDigits(r)
    ensures forall c :: c in r ==> c in s || c == '0'
    ensures |s| < width && !(|s| > 0 && (s[0] == '+' || s[0] == '-')) ==>
      r[width - |s|..] == s && forall i :: 0 <= i < width - |s| ==> r[i] == '0'
    ensures |s| < width && |s| > 0 && (s[0] == '+' || s[0] == '-') ==>
      r[0] == s[0] && r[width - |s| + 1..] == s[1..] && forall i :: 1 <= i <= width - |s| ==> r[i] == '0'
  {
    if |s| >= width then s
    else if |s| > 0 && (s[0] == '+' || s[0] == '-') then [s[0]] + Zeros(width - |s|) + s[1..]
    else Zeros(width - |s|) + s
  }

  /** A string of zeros has the value 0. */
  lemma {:induction false} ZerosValue(k: nat)
    ensures AllDigits(Zeros(k)) && ParseNat(Zeros(k)) == 0
  {
    if k > 0 {
      ZerosValue(k - 1);
      assert Zeros(k)[..k - 1] == Zeros(k - 1);
    }
  }

  /** Leading zeros do not change the value of a digit string. */
  lemma {:induction false} ParseNatZeros(k: nat, s: string)
    requires AllDigits(s)
    ensures AllDigits(Zeros(k) + s) && ParseNat(Zeros(k) + s) == ParseNat(s)
    decreases |s|
  {
    ZerosValue(k);
    if s == [] {
      assert Zeros(k) + s == Zeros(k);
    } else {
      var z := Zeros(k) + s;
      assert z[..|z| - 1] == Zeros(k) + s[..|s| - 1];
      assert z[|z| - 1] == s[|s| - 1];
      ParseNatZeros(k, s[..|s| - 1]);
    }
  }

  /** zfill keeps the numeric value of a digit string. */
  lemma ZFillValue(s: string, width: nat)
    requires AllDigits(s)
    ensures ParseNat(ZFill(s, width)) == ParseNat(s)
  {
    if |s| < width {
      ParseNatZeros(width - |s|, s);
    }
  }

  // ---------------------------------------------------------------------
  // The regular-expression fragment `.*LIT` under re.match
  // ---------------------------------------------------------------------

  predicate StartsWith(s: string, prefix: string) {
    |prefix| <= |s| && s[..|prefix|] == prefix
  }

  /** Does re.match of `.*` followed by the literal `lit` succeed on `s`?
      `.` matches anything but a newline, and the match may stop anywhere
      (re.match is anchored only at the start), so the backtracking search
      tries each position before the first newline. */
  predicate DotStarThen(s: string, lit: string)
    decreases |s|
  {
    StartsWith(s, lit) || (|s| > 0 && s[0] != '\n' && DotStarThen(s[1..], lit))
  }

  /** The search above agrees with the declarative reading of `.*LIT`:
      some newline-free stretch of `s` is followed by `lit`. */
  lemma {:induction false} DotStarThenMeaning(s: string, lit: string)
    ensures DotStarThen(s, lit) <==>
      exists j :: 0 <= j <= |s| && '\n' !in s[..j] && StartsWith(s[j..], lit)
    decreases |s|
  {
    if DotStarThen(s, lit) {
      if StartsWith(s, lit) {
        assert s[0..] == s && s[..0] == [];
      } else {
        DotStarThenMeaning(s[1..], lit);
        var j :| 0 <= j <= |s| - 1 && '\n' !in s[1..][..j] && StartsWith(s[1..][j..], lit);
        assert s[..j + 1] == [s[0]] + s[1..][..j];
        assert s[j + 1..] == s[1..][j..];
      }
    }
    if exists j :: 0 <= j <= |s| && '\n' !in s[..j] && StartsWith(s[j..], lit) {
      var j :| 0 <= j <= |s| && '\n' !in s[..j] && StartsWith(s[j..], lit);
      if j == 0 {
        assert s[0..] == s;
      } else {
        assert s[0] in s[..j];
        var w := s[1..][..j - 1];
        assert '\n' !in w by {
          forall i | 0 <= i < j - 1 ensures w[i] != '\n' {
            assert w[i] == s[..j][i + 1];
          }
        }
        assert s[1..][j - 1..] == s[j..];
        DotStarThenMeaning(s[1..], lit);
      }
    }
  }

  /** `.*LIT` matches a newline-free stretch followed by LIT. */
  lemma {:induction false} DotStarThenAfter(u: string, lit: string)
    requires '\n' !in u
    ensures DotStarThen(u + lit, lit)
    decreases |u|
  {
    if u == [] {
      assert u + lit == lit;
    } else {
      assert (u + lit)[1..] == u[1..] + lit;
      assert u[0] != '\n';
      DotStarThenAfter(u[1..], lit);
    }
  }
}

/**
 * The few Python `str` operations the upload service relies on:
 * `s.split(sep)` with a one-character separator, indexing its last piece,
 * `s.lower()` (ASCII letters only), `str(n)` for naturals and the `.1f`
 * fixed-point format of an exact quotient.
 */
module PyStrings {

  /** Index of the first occurrence of `c` in `s`. */
  function FirstIndex(s: string, c: char): (k: nat)
    requires c in s
    ensures k < |s| && s[k] == c && c !in s[..k]
  {
    if s[0] == c then 0
    else
      var k := 1 + FirstIndex(s[1..], c);
      assert s[..k] == [s[0]] + s[1..][..k - 1];
      k
  }

  /** `s.split(sep)`: the maximal separator-free pieces between separators. */
  function Split(s: string, sep: char): (parts: seq<string>)
    ensures |parts| >= 1
    ensures forall i | 0 <= i < |parts| :: sep !in parts[i]
    decreases |s|
  {
    if sep !in s then [s]
    else
      var k := FirstIndex(s, sep);
      [s[..k]] + Split(s[k + 1..], sep)
  }

  /** One step of `Split`: the piece before the first separator, then the split of the rest. */
  lemma SplitAt(s: string, sep: char, k: nat)
    requires k < |s| && s[k] == sep
    requires forall j | 0 <= j < k :: s[j] != sep
    ensures Split(s, sep) == [s[..k]] + Split(s[k + 1..], sep)
  {
    var k' := FirstIndex(s, sep);
    assert forall j | 0 <= j < k' :: s[..k'][j] == s[j];
  }

  /** A string without the separator is its own only piece. */
  lemma SplitNone(s: string, sep: char)
    requires forall j | 0 <= j < |s| :: s[j] != sep
    ensures Split(s, sep) == [s]
  {
  }

  /** `sep.join(parts)`. */
  function Join(parts: seq<string>, sep: char): string
  {
    if |parts| == 0 then ""
    else if |parts| == 1 then parts[0]
    else parts[0] + [sep] + Join(parts[1..], sep)
  }

  /** Joining the pieces of a split gives back the original string. */
  lemma {:induction false} JoinSplit(s: string, sep: char)
    ensures Join(Split(s, sep), sep) == s
    decreases |s|
  {
    if sep in s {
      var k := FirstIndex(s, sep);
      var rest := Split(s[k + 1..], sep);
      JoinSplit(s[k + 1..], sep);
      var parts := [s[..k]] + rest;
      assert parts[0] == s[..k] && parts[1..] == rest && |parts| >= 2;
      assert Join(parts, sep) == s[..k] + [sep] + Join(rest, sep);
      assert s == s[..k] + [sep] + s[k + 1..];
    }
  }

  /** Splitting the join of non-empty, separator-free pieces gives back the pieces. */
  lemma {:induction false} SplitJoin(parts: seq<string>, sep: char)
    requires |parts| >= 1
    requires forall i | 0 <= i < |parts| :: sep !in parts[i]
    ensures Split(Join(parts, sep), sep) == parts
  {
    if |parts| == 1 {
      SplitNone(parts[0], sep);
    } else {
      var rest := Join(parts[1..], sep);
      var s := parts[0] + [sep] + rest;
      assert forall j | 0 <= j < |parts[0]| :: s[j] == parts[0][j];
      SplitAt(s, sep, |parts[0]|);
      assert s[..|parts[0]|] == parts[0] && s[|parts[0]| + 1..] == rest;
      SplitJoin(parts[1..], sep);
    }
  }

  /** `s.split(sep)[-1]`. */
  function LastSegment(s: string, sep: char): string
  {
    var parts := Split(s, sep);
    parts[|parts| - 1]
  }

  /** `s` ends with `suffix`. */
  predicate EndsWith(s: string, suffix: string)
  {
    |suffix| <= |s| && s[|s| - |suffix|..] == suffix
  }

  /**
   * The last segment is a separator-free suffix of `s` that is either all
   * of `s` or preceded by a separator.
   */
  lemma {:induction false} LastSegmentIsSuffix(s: string, sep: char)
    ensures sep !in LastSegment(s, sep)
    ensures LastSegment(s, sep) == s || EndsWith(s, [sep] + LastSegment(s, sep))
    decreases |s|
  {
    if sep in s {
      var k := FirstIndex(s, sep);
      var rest := s[k + 1..];
      LastSegmentIsSuffix(rest, sep);
      var r := LastSegment(rest, sep);
      assert LastSegment(s, sep) == r;
      assert s == s[..k + 1] + rest;
      if r == rest {
        assert s[|s| - |r| - 1..] == [sep] + r;
      } else {
        assert s[|s| - |r| - 1..] == rest[|rest| - |r| - 1..];
      }
    }
  }

  /**
   * Characterisation of `s.split(sep)[-1]` without `split`: it is `t` iff
   * `t` holds no separator and `s` is `t` or ends with the separator then `t`.
   */
  lemma LastSegmentIff(s: string, sep: char, t: string)
    ensures LastSegment(s, sep) == t <==> sep !in t && (s == t || EndsWith(s, [sep] + t))
  {
    LastSegmentIsSuffix(s, sep);
    var r := LastSegment(s, sep);
    if sep !in t && (s == t || EndsWith(s, [sep] + t)) {
      LongerSuffixHasSeparator(s, sep, r, t);
      LongerSuffixHasSeparator(s, sep, t, r);
      assert r == s[|s| - |r|..] && t == s[|s| - |t|..];
    }
  }

  /**
   * Of two suffixes of `s` that are each all of `s` or preceded by the
   * separator, the longer one contains the separator before the shorter one.
   */
  lemma LongerSuffixHasSeparator(s: string, sep: char, short: string, long: string)
    requires short == s || EndsWith(s, [sep] + short)
    requires long == s || EndsWith(s, [sep] + long)
    ensures EndsWith(s, short) && EndsWith(s, long)
    ensures |short| < |long| ==> sep in long
  {
    if short != s {
      assert s[|s| - |short|..] == ([sep] + short)[1..];
    }
    if long != s {
      assert s[|s| - |long|..] == ([sep] + long)[1..];
    }
    if |short| < |long| {
      assert long[|long| - |short| - 1] == s[|s| - |short| - 1];
    }
  }

  /** Python's `c.lower()` restricted to ASCII. */
  function LowerChar(c: char): char
  {
    if 'A' <= c <= 'Z' then (c as int + 32) as char else c
  }

  /** Python's `s.lower()` restricted to ASCII. */
  function Lower(s: string): string
  {
    seq(|s|, i requires 0 <= i < |s| => LowerChar(s[i]))
  }

  lemma LowerAppend(a: string, b: string)
    ensures Lower(a + b) == Lower(a) + Lower(b)
  {
    assert forall i | 0 <= i < |a + b| :: Lower(a + b)[i] == (Lower(a) + Lower(b))[i];
  }

  lemma LowerIdempotent(s: string)
    ensures Lower(Lower(s)) == Lower(s)
  {
  }

  /** Lower-casing creates and removes no dots. */
  lemma LowerKeepsDots(s: string)
    ensures '.' in Lower(s) <==> '.' in s
  {
    if '.' in s {
      var i :| 0 <= i < |s| && s[i] == '.';
      assert Lower(s)[i] == '.';
    }
  }

  /** Lower-casing before or after taking the last dot-separated segment agree. */
  lemma LowerLastSegment(s: string)
    ensures Lower(LastSegment(s, '.')) == LastSegment(Lower(s), '.')
  {
    var t := LastSegment(s, '.');
    LastSegmentIsSuffix(s, '.');
    LowerKeepsDots(t);
    if t != s {
      var p := s[..|s| - |t| - 1];
      assert s == p + ['.'] + t;
      LowerAppend(p + ['.'], t);
      LowerAppend(p, ['.']);
      assert Lower(['.']) == ['.'];
      assert Lower(s)[|s| - |t| - 1..] == ['.'] + Lower(t);
    }
    LastSegmentIff(Lower(s), '.', Lower(t));
  }

  /** The decimal digit `d`. */
  function DigitChar(d: nat): (c: char)
    requires d < 10
    ensures '0' <= c <= '9' && c as int - '0' as int == d
  {
    ('0' as int + d) as char
  }

  predicate AllDigits(s: string)
  {
    forall k | 0 <= k < |s| :: '0' <= s[k] <= '9'
  }

  /** The number a string of decimal digits spells, read left to right. */
  function DecimalValue(s: string): nat
    requires AllDigits(s)
  {
    if s == [] then 0
    else 10 * DecimalValue(s[..|s| - 1]) + (s[|s| - 1] as int - '0' as int)
  }

  /** Python's `str(n)` for a natural number: the digits of `n`, without leading zeros. */
  function NatToString(n: nat): (s: string)
    ensures |s| >= 1 && AllDigits(s) && DecimalValue(s) == n
    ensures |s| == 1 || s[0] != '0'
  {
    if n < 10 then [DigitChar(n)]
    else
      var s := NatToString(n / 10) + [DigitChar(n % 10)];
      assert s[..|s| - 1] == NatToString(n / 10);
      s
  }

  /**
   * `n / d` in tenths, rounded to the nearest tenth with ties to even, as
   * Python's `format(x, '.1f')` rounds a binary float that is exact.
   */
  function RoundedTenths(n: nat, d: nat): (t: nat)
    requires d > 0
    ensures 2 * (10 * n - t * d) <= d && 2 * (t * d - 10 * n) <= d
    ensures 2 * (10 * n - t * d) == d || 2 * (t * d - 10 * n) == d ==> t % 2 == 0
  {
    var q := (10 * n) / d;
    var r := (10 * n) % d;
    var t := if 2 * r > d || (2 * r == d && q % 2 == 1) then q + 1 else q;
    NearestTenth(10 * n, d, q, r, t);
    TieToEven(10 * n, d, q, r, t);
    t
  }

  lemma NearestTenth(x: nat, d: nat, q: nat, r: nat, t: nat)
    requires d > 0 && q == x / d && r == x % d
    requires t == q || (t == q + 1 && 2 * r >= d)
    requires t == q ==> 2 * r <= d
    ensures 2 * (x - t * d) <= d && 2 * (t * d - x) <= d
  {
    assert x == q * d + r;
    assert (q + 1) * d == q * d + d;
  }

  /**
   * At an exact tie between two tenths, the rounded value is the even one:
   * a tie leaves remainder d/2, and the choice above then takes the even neighbour.
   */
  lemma TieToEven(x: nat, d: nat, q: nat, r: nat, t: nat)
    requires d > 0 && q == x / d && r == x % d
    requires t == (if 2 * r > d || (2 * r == d && q % 2 == 1) then q + 1 else q)
    ensures 2 * (x - t * d) == d || 2 * (t * d - x) == d ==> t % 2 == 0
  {
    assert x == q * d + r;
    assert (q + 1) * d == q * d + d;
  }

  /** `f"{n / d:.1f}"`. */
  function FormatOneDecimal(n: nat, d: nat): (s: string)
    requires d > 0
    ensures |s| >= 3 && s[|s| - 2] == '.' && '0' <= s[|s| - 1] <= '9'
    ensures AllDigits(s[..|s| - 2]) && (|s| == 3 || s[0] != '0')
    ensures 10 * DecimalValue(s[..|s| - 2]) + (s[|s| - 1] as int - '0' as int) == RoundedTenths(n, d)
  {
    var t := RoundedTenths(n, d);
    var s := NatToString(t / 10) + "." + [DigitChar(t % 10)];
    assert s[..|s| - 2] == NatToString(t / 10);
    s
  }
}

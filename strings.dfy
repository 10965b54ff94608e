/**
 * The pieces of Rust's standard library that the synchronizer's string
 * handling relies on: `str::lines`, `join`, `str::replace`, decimal
 * printing of integers (`format!("{}")`) and `FromStr` for integers.
 * Strings are sequences of `char`; none of these operations depends on
 * an encoding.
 */
module Strings {
  import opened Results

  // ---------------------------------------------------------------------
  // Decimal digits
  // ---------------------------------------------------------------------

  predicate IsDigit(c: char) {
    '0' <= c <= '9'
  }

  predicate AllDigits(s: string) {
    forall i :: 0 <= i < |s| ==> IsDigit(s[i])
  }

  function DigitValue(c: char): nat
    requires IsDigit(c)
  {
    c as nat - '0' as nat
  }

  function DigitChar(d: nat): (c: char)
    requires d < 10
    ensures IsDigit(c) && DigitValue(c) == d
  {
    ('0' as nat + d) as char
  }

  /** Left-to-right decimal evaluation of a digit string, starting from `acc`. */
  function Horner(s: string, acc: nat): nat
    requires AllDigits(s)
  {
    if s == [] then acc else Horner(s[1..], acc * 10 + DigitValue(s[0]))
  }

  /** Digits never decrease the accumulated value. */
  lemma {:induction false} HornerGrows(s: string, acc: nat)
    requires AllDigits(s)
    ensures Horner(s, acc) >= acc
  {
    if s != [] {
      HornerGrows(s[1..], acc * 10 + DigitValue(s[0]));
    }
  }

  /** Evaluating a concatenation evaluates the second part from where the first ended. */
  lemma {:induction false} HornerAppend(a: string, b: string, acc: nat)
    requires AllDigits(a) && AllDigits(b)
    ensures AllDigits(a + b)
    ensures Horner(a + b, acc) == Horner(b, Horner(a, acc))
  {
    if a == [] {
      assert a + b == b;
    } else {
      assert (a + b)[0] == a[0];
      assert (a + b)[1..] == a[1..] + b;
      HornerAppend(a[1..], b, acc * 10 + DigitValue(a[0]));
    }
  }

  /** `format!("{}", n)` for a non-negative integer: no sign, no leading zero. */
  function NatToString(n: nat): (s: string)
    ensures |s| > 0 && AllDigits(s)
    ensures |s| > 1 ==> s[0] != '0'
  {
    if n < 10 then [DigitChar(n)] else NatToString(n / 10) + [DigitChar(n % 10)]
  }

  /** `format!("{}", i)` for a signed integer: a `-` in front of negative values. */
  function IntToString(i: int): (s: string)
    ensures |s| > 0
  {
    if i < 0 then "-" + NatToString(-i) else NatToString(i)
  }

  /** Printing and evaluating are inverse: the digits of `n` evaluate to `n`. */
  lemma {:induction false} NatToStringValue(n: nat)
    ensures Horner(NatToString(n), 0) == n
  {
    if n >= 10 {
      var d := [DigitChar(n % 10)];
      NatToStringValue(n / 10);
      HornerAppend(NatToString(n / 10), d, 0);
      assert d[1..] == [];
    }
  }

  // ---------------------------------------------------------------------
  // FromStr for integers (core::num::from_str_radix, radix 10)
  // ---------------------------------------------------------------------

  datatype IntErrorKind = Empty | InvalidDigit | PosOverflow | NegOverflow

  const I32_MIN: int := -0x8000_0000
  const I32_MAX: int := 0x7fff_ffff
  const I64_MIN: int := -0x8000_0000_0000_0000
  const I64_MAX: int := 0x7fff_ffff_ffff_ffff
  const U64_MAX: int := 0xffff_ffff_ffff_ffff

  /**
   * The checked accumulation loop for a non-negative value: each character
   * is first tested for being a digit, then the multiplication and the
   * addition are tested for overflow past `max`.
   */
  function AccumulateUp(s: string, acc: nat, max: nat): Result<nat, IntErrorKind>
  {
    if s == [] then Ok(acc)
    else if !IsDigit(s[0]) then Err(InvalidDigit)
    else if acc * 10 + DigitValue(s[0]) > max then Err(PosOverflow)
    else AccumulateUp(s[1..], acc * 10 + DigitValue(s[0]), max)
  }

  /** The same loop for a negative value, which subtracts each digit and checks against `min`. */
  function AccumulateDown(s: string, acc: int, min: int): Result<int, IntErrorKind>
    requires acc <= 0
  {
    if s == [] then Ok(acc)
    else if !IsDigit(s[0]) then Err(InvalidDigit)
    else if acc * 10 - DigitValue(s[0]) < min then Err(NegOverflow)
    else AccumulateDown(s[1..], acc * 10 - DigitValue(s[0]), min)
  }

  /**
   * `<iN/uN as FromStr>::from_str`: an empty string is `Empty`, a lone sign is
   * `InvalidDigit`, a leading `+` is accepted, a leading `-` only for signed types.
   */
  function ParseInteger(s: string, signed: bool, min: int, max: nat): Result<int, IntErrorKind>
    requires min <= 0
  {
    if s == [] then Err(Empty)
    else if s == "+" || s == "-" then Err(InvalidDigit)
    else if s[0] == '+' then
      match AccumulateUp(s[1..], 0, max)
      case Ok(v) => Ok(v)
      case Err(k) => Err(k)
    else if s[0] == '-' && signed then AccumulateDown(s[1..], 0, min)
    else
      match AccumulateUp(s, 0, max)
      case Ok(v) => Ok(v)
      case Err(k) => Err(k)
  }

  /** `s.parse::<i32>()` */
  function ParseI32(s: string): Result<int, IntErrorKind> {
    ParseInteger(s, true, I32_MIN, I32_MAX)
  }

  /** `s.parse::<i64>()` */
  function ParseI64(s: string): Result<int, IntErrorKind> {
    ParseInteger(s, true, I64_MIN, I64_MAX)
  }

  /** `s.parse::<u64>()` */
  function ParseU64(s: string): Result<int, IntErrorKind> {
    ParseInteger(s, false, 0, U64_MAX)
  }

  /**
   * On a digit string the checked loop succeeds exactly when the decimal
   * value fits, and then yields that value.
   */
  lemma {:induction false} AccumulateUpDigits(s: string, acc: nat, max: nat)
    requires AllDigits(s) && acc <= max
    ensures AccumulateUp(s, acc, max) ==
      if Horner(s, acc) <= max then Ok(Horner(s, acc)) else Err(PosOverflow)
  {
    if s != [] {
      var next := acc * 10 + DigitValue(s[0]);
      assert IsDigit(s[0]);
      assert Horner(s, acc) == Horner(s[1..], next);
      HornerGrows(s[1..], next);
      if next > max {
        assert AccumulateUp(s, acc, max) == Err(PosOverflow);
      } else {
        AccumulateUpDigits(s[1..], next, max);
        assert AccumulateUp(s, acc, max) == AccumulateUp(s[1..], next, max);
      }
    }
  }

  /** The first non-digit decides: the loop reports `InvalidDigit` unless it overflowed earlier. */
  lemma {:induction false} AccumulateUpStopsAtNonDigit(s: string, acc: nat, max: nat, k: nat)
    requires k < |s| && AllDigits(s[..k]) && !IsDigit(s[k])
    requires Horner(s[..k], acc) <= max
    ensures AccumulateUp(s, acc, max) == Err(InvalidDigit)
  {
    if k > 0 {
      var next := acc * 10 + DigitValue(s[0]);
      assert s[..k][1..] == s[1..][..k - 1];
      HornerGrows(s[1..][..k - 1], next);
      AccumulateUpStopsAtNonDigit(s[1..], next, max, k - 1);
    }
  }

  /** `parse::<i32>` of an unsigned digit string: its value when it is at most 2^31 - 1, else `PosOverflow`. */
  lemma ParseI32Digits(s: string)
    requires |s| > 0 && AllDigits(s)
    ensures ParseI32(s) == if Horner(s, 0) <= I32_MAX then Ok(Horner(s, 0)) else Err(PosOverflow)
  {
    AccumulateUpDigits(s, 0, I32_MAX);
  }

  /** Printing a non-negative `i32` and parsing it back gives the same number. */
  lemma ParseI32OfNatToString(n: nat)
    requires n <= I32_MAX
    ensures ParseI32(NatToString(n)) == Ok(n)
  {
    NatToStringValue(n);
    ParseI32Digits(NatToString(n));
  }

  /** Printing a `u64` and parsing it back gives the same number. */
  lemma ParseU64OfNatToString(n: nat)
    requires n <= U64_MAX
    ensures ParseU64(NatToString(n)) == Ok(n)
  {
    NatToStringValue(n);
    AccumulateUpDigits(NatToString(n), 0, U64_MAX);
  }

  /** An unsigned parse never yields a negative number and rejects a leading `-`. */
  lemma ParseU64Range(s: string)
    ensures ParseU64(s).Ok? ==> 0 <= ParseU64(s).value <= U64_MAX
    ensures |s| > 0 && s[0] == '-' ==> ParseU64(s) == Err(InvalidDigit)
  {
    if s != [] && s != "+" && s != "-" {
      if s[0] == '+' {
        AccumulateUpBounded(s[1..], 0, U64_MAX);
      } else {
        AccumulateUpBounded(s, 0, U64_MAX);
      }
    }
  }

  /**
   * On a digit string the negative loop succeeds exactly when minus the
   * decimal value is not below `min`, and then yields minus that value.
   */
  lemma {:induction false} AccumulateDownDigits(s: string, acc: nat, min: int)
    requires AllDigits(s) && min <= -(acc as int)
    ensures var v := -(Horner(s, acc) as int);
      AccumulateDown(s, -(acc as int), min) == if v >= min then Ok(v) else Err(NegOverflow)
  {
    if s != [] {
      var next := acc * 10 + DigitValue(s[0]);
      assert IsDigit(s[0]);
      assert -(acc as int) * 10 - DigitValue(s[0]) == -(next as int);
      assert Horner(s, acc) == Horner(s[1..], next);
      HornerGrows(s[1..], next);
      if -(next as int) < min {
        assert AccumulateDown(s, -(acc as int), min) == Err(NegOverflow);
      } else {
        AccumulateDownDigits(s[1..], next, min);
        assert AccumulateDown(s, -(acc as int), min) == AccumulateDown(s[1..], -(next as int), min);
      }
    }
  }

  /** Printing a signed integer in `min..=max` and parsing it back with that range gives the same number. */
  lemma ParseIntegerOfIntToString(i: int, min: int, max: nat)
    requires min <= 0 && min <= i <= max
    ensures ParseInteger(IntToString(i), true, min, max) == Ok(i)
  {
    if i >= 0 {
      var s := NatToString(i);
      NatToStringValue(i);
      AccumulateUpDigits(s, 0, max);
      assert IsDigit(s[0]);
    } else {
      var s := NatToString(-i);
      NatToStringValue(-i);
      AccumulateDownDigits(s, 0, min);
      assert ("-" + s)[1..] == s;
    }
  }

  /** Printing an `i32` and parsing it back gives the same number. */
  lemma ParseI32OfIntToString(i: int)
    requires I32_MIN <= i <= I32_MAX
    ensures ParseI32(IntToString(i)) == Ok(i)
  {
    ParseIntegerOfIntToString(i, I32_MIN, I32_MAX);
  }

  /** Printing an `i64` and parsing it back gives the same number. */
  lemma ParseI64OfIntToString(i: int)
    requires I64_MIN <= i <= I64_MAX
    ensures ParseI64(IntToString(i)) == Ok(i)
  {
    ParseIntegerOfIntToString(i, I64_MIN, I64_MAX);
  }

  lemma {:induction false} AccumulateUpBounded(s: string, acc: nat, max: nat)
    requires acc <= max
    ensures AccumulateUp(s, acc, max).Ok? ==> AccumulateUp(s, acc, max).value <= max
    ensures |s| > 0 && !IsDigit(s[0]) ==> AccumulateUp(s, acc, max) == Err(InvalidDigit)
  {
    if s != [] && IsDigit(s[0]) && acc * 10 + DigitValue(s[0]) <= max {
      AccumulateUpBounded(s[1..], acc * 10 + DigitValue(s[0]), max);
    }
  }

  // ---------------------------------------------------------------------
  // str::lines and join
  // ---------------------------------------------------------------------

  /** Index of the first `c` at or after `from`, or `|s|` if there is none. */
  function IndexFrom(s: string, c: char, from: nat): (k: nat)
    requires from <= |s|
    ensures from <= k <= |s|
    ensures forall j :: from <= j < k ==> s[j] != c
    ensures k < |s| ==> s[k] == c
    decreases |s| - from
  {
    if from == |s| || s[from] == c then from else IndexFrom(s, c, from + 1)
  }

  /** One `\r` in front of a removed `\n` goes too. */
  function StripCarriageReturn(line: string): string {
    if |line| > 0 && line[|line| - 1] == '\r' then line[..|line| - 1] else line
  }

  /**
   * `str::lines`: split after every `\n`, drop the `\n` and a `\r` before it;
   * a final line ending adds no empty line, and the empty string has no lines.
   */
  function Lines(s: string): seq<string>
    decreases |s|
  {
    if s == [] then []
    else
      var k := IndexFrom(s, '\n', 0);
      if k == |s| then [s]
      else [StripCarriageReturn(s[..k])] + Lines(s[k + 1..])
  }

  /** `lines.join(sep)` */
  function Join(lines: seq<string>, sep: string): string {
    if lines == [] then []
    else if |lines| == 1 then lines[0]
    else lines[0] + sep + Join(lines[1..], sep)
  }

  /** A line that `str::lines` hands back unchanged after `join("\n")`. */
  predicate IsPlainLine(line: string) {
    && |line| > 0
    && (forall i :: 0 <= i < |line| ==> line[i] != '\n')
    && line[|line| - 1] != '\r'
  }

  /** Splitting what `join("\n")` produced gives back the lines, if none is empty, holds a `\n` or ends in `\r`. */
  lemma {:induction false} LinesOfJoin(lines: seq<string>)
    requires forall i :: 0 <= i < |lines| ==> IsPlainLine(lines[i])
    ensures Lines(Join(lines, "\n")) == lines
  {
    if |lines| == 1 {
      var s := lines[0];
      assert IndexFrom(s, '\n', 0) == |s|;
    } else if |lines| > 1 {
      var head := lines[0];
      var s := Join(lines, "\n");
      var rest := Join(lines[1..], "\n");
      assert s == head + "\n" + rest;
      assert s[|head|] == '\n';
      assert forall j :: 0 <= j < |head| ==> s[j] == head[j];
      assert IndexFrom(s, '\n', 0) == |head|;
      assert s[..|head|] == head;
      assert s[|head| + 1..] == rest;
      LinesOfJoin(lines[1..]);
    }
  }

  // ---------------------------------------------------------------------
  // str::replace
  // ---------------------------------------------------------------------

  predicate OccursAt(s: string, pat: string, i: nat) {
    i + |pat| <= |s| && s[i..i + |pat|] == pat
  }

  /**
   * `s.replace(pat, rep)`: scanning left to right, every occurrence of `pat`
   * that does not overlap an earlier replaced one becomes `rep`.
   */
  function ReplaceAll(s: string, pat: string, rep: string): string
    requires |pat| > 0
    decreases |s|
  {
    if |s| < |pat| then s
    else if s[..|pat|] == pat then rep + ReplaceAll(s[|pat|..], pat, rep)
    else [s[0]] + ReplaceAll(s[1..], pat, rep)
  }

  /** Dropping the first character shifts every occurrence one place to the left. */
  lemma OccursAtShift(s: string, pat: string, i: nat)
    requires |s| > 0
    ensures OccursAt(s[1..], pat, i) <==> OccursAt(s, pat, i + 1)
  {
    if i + |pat| <= |s| - 1 {
      assert s[1..][i..i + |pat|] == s[i + 1..i + 1 + |pat|];
    }
  }

  /** Where `pat` does not occur, `replace` changes nothing. */
  lemma {:induction false} ReplaceAllAbsent(s: string, pat: string, rep: string)
    requires |pat| > 0
    requires forall i: nat :: !OccursAt(s, pat, i)
    ensures ReplaceAll(s, pat, rep) == s
  {
    if |s| >= |pat| {
      assert !OccursAt(s, pat, 0);
      forall i: nat ensures !OccursAt(s[1..], pat, i) {
        OccursAtShift(s, pat, i);
      }
      ReplaceAllAbsent(s[1..], pat, rep);
      assert [s[0]] + s[1..] == s;
    }
  }

  /**
   * `replace` is determined by the leftmost occurrence: everything before it
   * is kept, it becomes `rep`, and the scan resumes right after it.
   */
  lemma {:induction false} ReplaceAllAtFirst(s: string, pat: string, rep: string, k: nat)
    requires |pat| > 0
    requires OccursAt(s, pat, k)
    requires forall i: nat :: i < k ==> !OccursAt(s, pat, i)
    ensures ReplaceAll(s, pat, rep) == s[..k] + rep + ReplaceAll(s[k + |pat|..], pat, rep)
  {
    if k == 0 {
      ReplaceAllAtStart(s, pat, rep);
    } else {
      ShiftedOccurrences(s, pat, k);
      ReplaceAllAtFirst(s[1..], pat, rep, k - 1);
      ReplaceAllAfterSkip(s, pat, rep, k);
    }
  }

  /** Dropping the first character keeps the leftmost occurrence leftmost, one place earlier. */
  lemma ShiftedOccurrences(s: string, pat: string, k: nat)
    requires 0 < k && OccursAt(s, pat, k)
    requires forall i: nat :: i < k ==> !OccursAt(s, pat, i)
    ensures OccursAt(s[1..], pat, k - 1)
    ensures forall i: nat :: i < k - 1 ==> !OccursAt(s[1..], pat, i)
  {
    forall i: nat | i < k - 1 ensures !OccursAt(s[1..], pat, i) {
      OccursAtShift(s, pat, i);
    }
    OccursAtShift(s, pat, k - 1);
  }

  /** The step of `ReplaceAllAtFirst` past a first character that starts no occurrence. */
  lemma ReplaceAllAfterSkip(s: string, pat: string, rep: string, k: nat)
    requires |pat| > 0 && 0 < k && OccursAt(s, pat, k) && !OccursAt(s, pat, 0)
    requires ReplaceAll(s[1..], pat, rep) == s[1..][..k - 1] + rep + ReplaceAll(s[1..][k - 1 + |pat|..], pat, rep)
    ensures ReplaceAll(s, pat, rep) == s[..k] + rep + ReplaceAll(s[k + |pat|..], pat, rep)
  {
    var t := s[1..];
    ReplaceAllSkip(s, pat, rep, k);
    ShiftedSlices(s, k, |pat|);
    Regroup(s[0], t[..k - 1], rep, ReplaceAll(s[k + |pat|..], pat, rep), s[..k]);
  }

  lemma Regroup(c: char, u: string, v: string, w: string, x: string)
    requires x == [c] + u
    ensures [c] + (u + v + w) == x + v + w
  {
  }

  lemma ReplaceAllAtStart(s: string, pat: string, rep: string)
    requires |pat| > 0 && OccursAt(s, pat, 0)
    ensures ReplaceAll(s, pat, rep) == s[..0] + rep + ReplaceAll(s[|pat|..], pat, rep)
  {
    assert s[..0] + rep == rep;
  }

  lemma ReplaceAllSkip(s: string, pat: string, rep: string, k: nat)
    requires |pat| > 0 && 0 < k && OccursAt(s, pat, k) && !OccursAt(s, pat, 0)
    ensures ReplaceAll(s, pat, rep) == [s[0]] + ReplaceAll(s[1..], pat, rep)
  {
  }

  lemma ShiftedSlices(s: string, k: nat, n: nat)
    requires 0 < k && k + n <= |s|
    ensures s[1..][k - 1 + n..] == s[k + n..]
    ensures [s[0]] + s[1..][..k - 1] == s[..k]
  {
  }

  /** `s.split(c)`: the pieces between the occurrences of `c`; there is always at least one. */
  function Split(s: string, c: char): (pieces: seq<string>)
    ensures |pieces| > 0
    decreases |s|
  {
    var k := IndexFrom(s, c, 0);
    if k == |s| then [s] else [s[..k]] + Split(s[k + 1..], c)
  }

  /** A piece free of `c`, followed by `c`, is split off as the first piece. */
  lemma SplitAt(a: string, c: char, b: string)
    requires forall i :: 0 <= i < |a| ==> a[i] != c
    ensures Split(a + [c] + b, c) == [a] + Split(b, c)
  {
    var s := a + [c] + b;
    assert forall j :: 0 <= j < |a| ==> s[j] == a[j];
    assert s[|a|] == c;
    assert IndexFrom(s, c, 0) == |a|;
    assert s[..|a|] == a;
    assert s[|a| + 1..] == b;
  }

  /** A text free of `c` is a single piece. */
  lemma SplitNone(a: string, c: char)
    requires forall i :: 0 <= i < |a| ==> a[i] != c
    ensures Split(a, c) == [a]
  {
    assert IndexFrom(a, c, 0) == |a|;
  }

  /**
   * When `rep` cannot start a text `w` (its first character does not occur
   * in `w`), a replaced text begins with `w` only if the original did.
   */
  lemma {:induction false} ReplaceAllPrefix(t: string, pat: string, rep: string, w: string)
    requires |pat| > 0 && |rep| > 0
    requires forall i :: 0 <= i < |w| ==> w[i] != rep[0]
    ensures var r := ReplaceAll(t, pat, rep);
      |w| <= |r| && r[..|w|] == w ==> |w| <= |t| && t[..|w|] == w
    decreases |t|
  {
    var r := ReplaceAll(t, pat, rep);
    if w != [] && |w| <= |r| && |t| >= |pat| && t[..|pat|] != pat {
      var x := ReplaceAll(t[1..], pat, rep);
      assert r == [t[0]] + x;
      assert |w| - 1 <= |x|;
      assert r[..|w|] == [t[0]] + x[..|w| - 1];
      ReplaceAllPrefix(t[1..], pat, rep, w[1..]);
      assert w == [w[0]] + w[1..];
      if |w| <= |t| {
        assert t[..|w|] == [t[0]] + t[1..][..|w| - 1];
      }
    }
  }

  /**
   * A replacement that cannot recreate the pattern removes it everywhere:
   * `rep` does not begin with `pat`, and the first character of `pat`
   * occurs neither later in `rep` nor later in `pat` (it is `rep[0]`'s only place there).
   */
  lemma {:induction false} ReplaceAllLeavesNone(s: string, pat: string, rep: string)
    requires |pat| > 0 && |rep| >= |pat| && rep[..|pat|] != pat
    requires forall j :: 1 <= j < |rep| ==> rep[j] != pat[0]
    requires forall j :: 1 <= j < |pat| ==> pat[j] != rep[0]
    ensures forall i: nat :: !OccursAt(ReplaceAll(s, pat, rep), pat, i)
    decreases |s|
  {
    var r := ReplaceAll(s, pat, rep);
    if |s| >= |pat| {
      if s[..|pat|] == pat {
        var x := ReplaceAll(s[|pat|..], pat, rep);
        ReplaceAllLeavesNone(s[|pat|..], pat, rep);
        assert r == rep + x;
        forall i: nat ensures !OccursAt(r, pat, i) {
          if i + |pat| <= |r| {
            if i == 0 {
              assert r[..|pat|] == rep[..|pat|];
            } else if i < |rep| {
              assert r[i..i + |pat|][0] == rep[i];
            } else {
              assert r[i..i + |pat|] == x[i - |rep|..i - |rep| + |pat|];
              assert !OccursAt(x, pat, i - |rep|);
            }
          }
        }
      } else {
        var x := ReplaceAll(s[1..], pat, rep);
        ReplaceAllLeavesNone(s[1..], pat, rep);
        assert r == [s[0]] + x;
        forall i: nat ensures !OccursAt(r, pat, i) {
          if i + |pat| <= |r| {
            if i == 0 {
              ReplaceAllPrefix(s[1..], pat, rep, pat[1..]);
              assert r[..|pat|] == [s[0]] + x[..|pat| - 1];
              assert s[..|pat|] == [s[0]] + s[1..][..|pat| - 1];
              assert pat == [pat[0]] + pat[1..];
            } else {
              assert r[i..i + |pat|] == x[i - 1..i - 1 + |pat|];
              assert !OccursAt(x, pat, i - 1);
            }
          }
        }
      }
    }
  }

  /** Appending text that shares no character with `pat` creates no occurrence of it. */
  lemma NoOccurrenceAppend(a: string, b: string, pat: string)
    requires |pat| > 0
    requires forall i: nat :: !OccursAt(a, pat, i)
    requires forall j :: 0 <= j < |b| ==> b[j] !in pat
    ensures forall i: nat :: !OccursAt(a + b, pat, i)
  {
    forall i: nat ensures !OccursAt(a + b, pat, i) {
      if i + |pat| <= |a| {
        assert (a + b)[i..i + |pat|] == a[i..i + |pat|];
        assert !OccursAt(a, pat, i);
      } else if i + |pat| <= |a + b| {
        var p := if i <= |a| then |a| else i;
        assert (a + b)[i..i + |pat|][p - i] == b[p - |a|];
        assert pat[p - i] in pat;
      }
    }
  }
}

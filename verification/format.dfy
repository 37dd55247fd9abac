/** The bot's pure formatters: `formatUptime` (a global regular-expression
    rewrite) and `toMiB` / `toGiB` (a division followed by `toFixed(1)`). */
module Format {
  import opened Text

  // ---------------------------------------------------------------------------
  // formatUptime: uptime.replace(/(\d+)([hms])/g, '$1 $2')
  // ---------------------------------------------------------------------------

  predicate IsUnit(c: char) { c == 'h' || c == 'm' || c == 's' }

  /** Position `k` holds a unit letter directly after a digit: the only place
      where the rewrite changes anything. */
  predicate Boundary(s: string, k: int) {
    0 < k < |s| && IsDigit(s[k - 1]) && IsUnit(s[k])
  }

  /** No digit of `s` is directly followed by `h`, `m` or `s`. */
  predicate NoBoundary(s: string) {
    forall k :: 0 < k < |s| ==> !Boundary(s, k)
  }

  /** How many digit-unit boundaries `s` has. */
  function BoundaryCount(s: string): nat
    decreases |s|
  {
    if |s| == 0 then 0
    else BoundaryCount(s[..|s| - 1]) + (if Boundary(s, |s| - 1) then 1 else 0)
  }

  /** What character `k` of the input becomes in the output. */
  function Piece(s: string, k: nat): string
    requires k < |s|
  {
    if Boundary(s, k) then [' ', s[k]] else [s[k]]
  }

  /** Position-wise statement of the rewrite: one space before every unit
      letter that follows a digit, every other character copied in order.
      The output has one extra character per boundary and ends like the
      input. */
  function FormatUptime(s: string): (r: string)
    ensures |r| == |s| + BoundaryCount(s)
    ensures |s| > 0 ==> |r| > 0 && r[|r| - 1] == s[|s| - 1]
    decreases |s|
  {
    if |s| == 0 then ""
    else FormatUptime(s[..|s| - 1]) + Piece(s, |s| - 1)
  }

  /** The rewrite leaves no digit directly followed by a unit letter. */
  lemma {:induction false} FormatUptimeNoBoundary(s: string)
    ensures NoBoundary(FormatUptime(s))
    decreases |s|
  {
    if |s| > 0 {
      var p := s[..|s| - 1];
      var rp := FormatUptime(p);
      var r := FormatUptime(s);
      FormatUptimeNoBoundary(p);
      assert r == rp + Piece(s, |s| - 1);
      forall k | 0 < k < |r| ensures !Boundary(r, k) {
        if k < |rp| {
          assert r[k - 1] == rp[k - 1] && r[k] == rp[k];
          assert !Boundary(rp, k);
        }
      }
    }
  }

  /** The rewrite only adds what `Piece` adds for the last character. */
  lemma FormatUptimeSnoc(s: string, c: char)
    ensures FormatUptime(s + [c]) == FormatUptime(s) + Piece(s + [c], |s|)
  {
    assert (s + [c])[..|s|] == s;
  }

  /** The global regular-expression replacement as the engine runs it: at each
      position try `\d+` greedily followed by one of `h`, `m`, `s`; on a match
      emit the digits, a space and the letter and continue after the match;
      otherwise copy one character and retry at the next position. It computes
      exactly the position-wise rewrite. */
  method ReplaceDigitUnit(s: string) returns (out: string)
    ensures out == FormatUptime(s)
  {
    out := "";
    var i := 0;
    while i < |s|
      invariant 0 <= i <= |s|
      invariant out == FormatUptime(s[..i])
      invariant !Boundary(s, i)
      decreases |s| - i
    {
      var emitted, next := MatchAt(s, i);
      out := out + emitted;
      i := next;
    }
    assert s[..i] == s;
  }

  /** One attempt of the regular expression at position `i`: the text it
      emits and the position where scanning resumes. */
  method MatchAt(s: string, i: nat) returns (emitted: string, next: nat)
    requires i < |s| && !Boundary(s, i)
    ensures i < next <= |s|
    ensures !Boundary(s, next)
    ensures FormatUptime(s[..next]) == FormatUptime(s[..i]) + emitted
  {
    if IsDigit(s[i]) {
      var j := DigitRun(s, i);
      if j < |s| && IsUnit(s[j]) {
        UnitMatch(s, i, j);
        emitted, next := s[i..j] + " " + [s[j]], j + 1;
      } else {
        // `\d+` cannot end before a unit letter here; the engine retries at i + 1
        assert i + 1 < |s| ==> IsDigit(s[i + 1]) || j == i + 1;
        assert !Boundary(s, i + 1);
        CopyStep(s, i);
        emitted, next := [s[i]], i + 1;
      }
    } else {
      CopyStep(s, i);
      emitted, next := [s[i]], i + 1;
    }
  }

  /** A digit run `s[i..j]` followed by a unit letter: the match emits the
      digits, a space and the letter, and scanning resumes after the letter. */
  lemma UnitMatch(s: string, i: nat, j: nat)
    requires i < j < |s| && IsDigit(s[j - 1]) && IsUnit(s[j])
    requires FormatUptime(s[..j]) == FormatUptime(s[..i]) + s[i..j]
    ensures FormatUptime(s[..j + 1]) == FormatUptime(s[..i]) + (s[i..j] + " " + [s[j]])
    ensures !Boundary(s, j + 1)
  {
    UnitStep(s, j);
    SpaceBefore(FormatUptime(s[..i]), s[i..j], s[j]);
  }

  lemma SpaceBefore(a: string, digits: string, u: char)
    ensures (a + digits) + " " + [u] == a + (digits + " " + [u])
  {
  }

  /** The greedy `\d+`: the end of the run of digits that starts at `i`. */
  method DigitRun(s: string, i: nat) returns (j: nat)
    requires i < |s| && IsDigit(s[i])
    ensures i < j <= |s|
    ensures forall k :: i <= k < j ==> IsDigit(s[k])
    ensures j == |s| || !IsDigit(s[j])
    ensures FormatUptime(s[..j]) == FormatUptime(s[..i]) + s[i..j]
  {
    j := i + 1;
    while j < |s| && IsDigit(s[j])
      invariant i < j <= |s|
      invariant forall k :: i <= k < j ==> IsDigit(s[k])
    {
      j := j + 1;
    }
    CopyRun(s, i, j);
  }

  /** A stretch of the input without boundaries is copied unchanged. */
  lemma {:induction false} CopyRun(s: string, i: nat, j: nat)
    requires i <= j <= |s|
    requires forall k :: i <= k < j ==> !Boundary(s, k)
    ensures FormatUptime(s[..j]) == FormatUptime(s[..i]) + s[i..j]
    decreases j - i
  {
    if i < j {
      CopyStep(s, i);
      CopyRun(s, i + 1, j);
      PrependSlice(FormatUptime(s[..i]), s, i, j);
    } else {
      assert s[i..j] == [];
    }
  }

  lemma PrependSlice(a: string, s: string, i: nat, j: nat)
    requires i < j <= |s|
    ensures (a + [s[i]]) + s[i + 1..j] == a + s[i..j]
  {
    assert s[i..j] == [s[i]] + s[i + 1..j];
  }

  /** Extending the input by a character that is not at a boundary copies it. */
  lemma CopyStep(s: string, i: nat)
    requires i < |s| && !Boundary(s, i)
    ensures FormatUptime(s[..i + 1]) == FormatUptime(s[..i]) + [s[i]]
  {
    FormatUptimeSnoc(s[..i], s[i]);
    assert s[..i] + [s[i]] == s[..i + 1];
  }

  /** Extending the input by a unit letter after a digit adds a space first. */
  lemma UnitStep(s: string, j: nat)
    requires 0 < j < |s| && IsDigit(s[j - 1]) && IsUnit(s[j])
    ensures FormatUptime(s[..j + 1]) == FormatUptime(s[..j]) + " " + [s[j]]
  {
    FormatUptimeSnoc(s[..j], s[j]);
    assert s[..j] + [s[j]] == s[..j + 1];
  }

  /** Text without a digit-unit boundary is left unchanged. */
  lemma {:induction false} FormatUptimeFixesClean(s: string)
    requires NoBoundary(s)
    ensures FormatUptime(s) == s
    decreases |s|
  {
    if |s| > 0 {
      var p := s[..|s| - 1];
      assert NoBoundary(p) by {
        forall k ensures !Boundary(p, k) {
          assert !Boundary(s, k);
        }
      }
      FormatUptimeFixesClean(p);
      assert !Boundary(s, |s| - 1);
      assert p + [s[|s| - 1]] == s;
    }
  }

  /** The rewrite is idempotent: formatting formatted text changes nothing. */
  lemma FormatUptimeIdempotent(s: string)
    ensures FormatUptime(FormatUptime(s)) == FormatUptime(s)
  {
    FormatUptimeNoBoundary(s);
    FormatUptimeFixesClean(FormatUptime(s));
  }

  /** The rewrite is the identity exactly on text with no digit-unit boundary. */
  lemma FormatUptimeUnchangedIff(s: string)
    ensures FormatUptime(s) == s <==> NoBoundary(s)
  {
    FormatUptimeNoBoundary(s);
    if NoBoundary(s) {
      FormatUptimeFixesClean(s);
    }
  }

  /** `s` with every space removed. */
  function Unspaced(s: string): string
    decreases |s|
  {
    if |s| == 0 then ""
    else Unspaced(s[..|s| - 1]) + (if s[|s| - 1] == ' ' then "" else [s[|s| - 1]])
  }

  lemma {:induction false} UnspacedAppend(a: string, b: string)
    ensures Unspaced(a + b) == Unspaced(a) + Unspaced(b)
    decreases |b|
  {
    if |b| > 0 {
      var b' := b[..|b| - 1];
      assert (a + b)[..|a + b| - 1] == a + b';
      UnspacedAppend(a, b');
    } else {
      assert a + b == a;
    }
  }

  /** Only spaces are inserted: with spaces removed, input and output agree,
      so every other character keeps its order. */
  lemma {:induction false} FormatUptimeOnlyAddsSpaces(s: string)
    ensures Unspaced(FormatUptime(s)) == Unspaced(s)
    decreases |s|
  {
    if |s| > 0 {
      var p := s[..|s| - 1];
      var c := s[|s| - 1];
      FormatUptimeOnlyAddsSpaces(p);
      UnspacedAppend(FormatUptime(p), Piece(s, |s| - 1));
      UnspacedAppend(p, [c]);
      assert p + [c] == s;
      if Boundary(s, |s| - 1) {
        assert Unspaced([' ', c]) == Unspaced([' ']) + Unspaced([c]) by {
          UnspacedAppend([' '], [c]);
          assert [' '] + [c] == [' ', c];
        }
      }
    }
  }

  /** Week and day letters are not units: "4w3d" is left as it is. */
  lemma FormatUptimeWeeksDays()
    ensures FormatUptime("4w3d") == "4w3d"
  {
    assert NoBoundary("4w3d");
    FormatUptimeFixesClean("4w3d");
  }

  /** Each of `h`, `m`, `s` after a digit gets a space before it. */
  lemma FormatUptimeHoursMinutesSeconds()
    ensures FormatUptime("1h2m3s") == "1 h2 m3 s"
  {
    var s := "1h2m3s";
    HoursMinutesPrefix(s);
    SnocStep(s, 4, "1 h2 m", "1 h2 m3");
    SnocStep(s, 5, "1 h2 m3", "1 h2 m3 s");
    assert s[..6] == s;
  }

  lemma HoursMinutesPrefix(s: string)
    requires s == "1h2m3s"
    ensures FormatUptime(s[..4]) == "1 h2 m"
  {
    HoursPrefix(s);
    SnocStep(s, 2, "1 h", "1 h2");
    SnocStep(s, 3, "1 h2", "1 h2 m");
  }

  lemma HoursPrefix(s: string)
    requires s == "1h2m3s"
    ensures FormatUptime(s[..2]) == "1 h"
  {
    assert FormatUptime(s[..1]) == "1" by {
      FormatUptimeSnoc([], '1');
      assert [] + ['1'] == s[..1];
    }
    SnocStep(s, 1, "1", "1 h");
  }

  lemma SnocStep(s: string, k: nat, before: string, after: string)
    requires 0 < k < |s|
    requires FormatUptime(s[..k]) == before
    requires after == before + Piece(s, k)
    ensures FormatUptime(s[..k + 1]) == after
  {
    FormatUptimeSnoc(s[..k], s[k]);
    assert s[..k] + [s[k]] == s[..k + 1];
  }

  // ---------------------------------------------------------------------------
  // toMiB / toGiB: (bytes / 2^k).toFixed(1)
  // ---------------------------------------------------------------------------

  const MiB: nat := 1048576      // 1024 * 1024
  const GiB: nat := 1073741824   // 1024 * 1024 * 1024

  /** Ten times `unit` times the distance between `n / 10` and `b / unit`. */
  function Gap(n: int, b: nat, unit: nat): nat {
    if unit * n >= 10 * b then unit * n - 10 * b else 10 * b - unit * n
  }

  /** The choice Number.prototype.toFixed makes for one fractional digit
      (ECMA-262, section 21.1.3.3): `n / 10` is as close as possible to the
      exact quotient `b / unit`, and of two equally close candidates `n` is
      the larger. */
  ghost predicate IsNearestTenth(n: int, b: nat, unit: nat) {
    forall m: int :: Gap(n, b, unit) <= Gap(m, b, unit) && (Gap(m, b, unit) == Gap(n, b, unit) ==> m <= n)
  }

  /** Half-up rounding of `10 * b / unit` to an integer. */
  function RoundTenths(b: nat, unit: nat): nat
    requires unit > 0 && unit % 2 == 0
  {
    (10 * b + unit / 2) / unit
  }

  lemma MulMono(u: nat, a: int, c: int)
    requires a <= c
    ensures u * a <= u * c
  {
    assert u * c - u * a == u * (c - a);
  }

  /** Half-up rounding is exactly the toFixed choice. */
  lemma RoundTenthsIsNearest(b: nat, unit: nat)
    requires unit > 0 && unit % 2 == 0
    ensures IsNearestTenth(RoundTenths(b, unit), b, unit)
  {
    var n: int := RoundTenths(b, unit);
    var h := unit / 2;
    assert unit * n <= 10 * b + h < unit * n + unit;
    assert Gap(n, b, unit) <= h;
    forall m: int
      ensures Gap(n, b, unit) <= Gap(m, b, unit) && (Gap(m, b, unit) == Gap(n, b, unit) ==> m <= n)
    {
      if m > n {
        MulMono(unit, n + 1, m);
        assert unit * (n + 1) == unit * n + unit;
        assert Gap(m, b, unit) > h;
      } else if m < n {
        MulMono(unit, m, n - 1);
        assert unit * (n - 1) == unit * n - unit;
        assert Gap(m, b, unit) >= h;
      }
    }
  }

  /** At most one candidate satisfies the toFixed choice. */
  lemma NearestTenthUnique(n: int, n': int, b: nat, unit: nat)
    requires IsNearestTenth(n, b, unit) && IsNearestTenth(n', b, unit)
    ensures n == n'
  {
    assert Gap(n, b, unit) <= Gap(n', b, unit);
    assert Gap(n', b, unit) <= Gap(n, b, unit);
  }

  /** A string of the shape `<digits>.<digit>`. */
  predicate IsFixed1(r: string) {
    |r| >= 3 && r[|r| - 2] == '.' && AllDigits(r[..|r| - 2]) && IsDigit(r[|r| - 1])
  }

  /** The number of tenths a `<digits>.<digit>` string denotes. */
  function FixedValue(r: string): nat
    requires IsFixed1(r)
  {
    DecimalValue(r[..|r| - 2]) * 10 + DigitValue(r[|r| - 1])
  }

  /** Number.prototype.toFixed(1) applied to `n / 10`, following the steps of
      ECMA-262: take the digits of `n`, pad them with zeros to at least two
      digits, and put the point before the last digit. The result has one
      digit after the point, a canonical integer part, and denotes `n` tenths. */
  function ToFixed1(n: nat): (r: string)
    ensures IsFixed1(r)
    ensures IsCanonicalDecimal(r[..|r| - 2])
    ensures FixedValue(r) == n
  {
    var m := NatToDecimal(n);
    var k := if |m| <= 1 then "0" + m else m;
    assert k[..|k| - 1] == (if |m| <= 1 then "0" else m[..|m| - 1]);
    var r := k[..|k| - 1] + "." + k[|k| - 1..];
    assert r[..|r| - 2] == k[..|k| - 1];
    assert r[|r| - 1] == k[|k| - 1];
    r
  }

  /** `toMiB(bytes)`: the text is `bytes / 2^20` to one fractional digit as
      toFixed chooses it. */
  function ToMiB(bytes: nat): (r: string)
    ensures IsFixed1(r) && IsCanonicalDecimal(r[..|r| - 2])
    ensures IsNearestTenth(FixedValue(r), bytes, MiB)
  {
    RoundTenthsIsNearest(bytes, MiB);
    ToFixed1(RoundTenths(bytes, MiB))
  }

  /** `toGiB(bytes)`: the text is `bytes / 2^30` to one fractional digit as
      toFixed chooses it. */
  function ToGiB(bytes: nat): (r: string)
    ensures IsFixed1(r) && IsCanonicalDecimal(r[..|r| - 2])
    ensures IsNearestTenth(FixedValue(r), bytes, GiB)
  {
    RoundTenthsIsNearest(bytes, GiB);
    ToFixed1(RoundTenths(bytes, GiB))
  }

  lemma RoundTenthsMonotone(b1: nat, b2: nat, unit: nat)
    requires unit > 0 && unit % 2 == 0
    requires b1 <= b2
    ensures RoundTenths(b1, unit) <= RoundTenths(b2, unit)
  {
    var n1, n2 := RoundTenths(b1, unit), RoundTenths(b2, unit);
    var h := unit / 2;
    assert unit * n1 <= 10 * b1 + h;
    assert 10 * b2 + h < unit * n2 + unit;
    assert unit * (n2 + 1) == unit * n2 + unit;
    MulCancel(unit, n1, n2 + 1);
  }

  lemma MulCancel(u: nat, a: int, c: int)
    requires u > 0 && u * a < u * c
    ensures a < c
  {
  }

  /** More free memory never shows as fewer MiB. */
  lemma ToMiBMonotone(b1: nat, b2: nat)
    requires b1 <= b2
    ensures FixedValue(ToMiB(b1)) <= FixedValue(ToMiB(b2))
  {
    RoundTenthsMonotone(b1, b2, MiB);
  }

  /** More free disk never shows as fewer GiB. */
  lemma ToGiBMonotone(b1: nat, b2: nat)
    requires b1 <= b2
    ensures FixedValue(ToGiB(b1)) <= FixedValue(ToGiB(b2))
  {
    RoundTenthsMonotone(b1, b2, GiB);
  }

  /** Concrete cases, including a tie (0.25 MiB) that toFixed rounds up. */
  lemma ByteFormatExamples()
    ensures ToMiB(1048576) == "1.0"
    ensures ToMiB(0) == "0.0"
    ensures ToMiB(262144) == "0.3"
    ensures ToGiB(1610612736) == "1.5"
    ensures ToGiB(12884901888) == "12.0"
  {
    assert RoundTenths(1048576, MiB) == 10;
    assert NatToDecimal(10) == "10";
    assert RoundTenths(262144, MiB) == 3;
    assert RoundTenths(1610612736, GiB) == 15;
    assert NatToDecimal(15) == "15";
    assert RoundTenths(12884901888, GiB) == 120;
    assert NatToDecimal(120) == "120";
  }
}

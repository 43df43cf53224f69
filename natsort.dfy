/** Natural ("human") order on names, as the `natsort` package's test table
    fixes it: maximal runs of ASCII digits compare by numeric value, with the
    run carrying more leading zeros first on a tie; every other byte compares
    by its raw value; a string that runs out first is less. */
module NatSort {
  import opened Strings

  predicate IsDigit(b: Byte) {
    0x30 <= b <= 0x39
  }

  predicate AllDigits(d: Bytes) {
    forall i :: 0 <= i < |d| ==> IsDigit(d[i])
  }

  /** The length of the maximal run of digits at the start of `s`. */
  function DigitRun(s: Bytes): (n: nat)
    ensures n <= |s| && AllDigits(s[..n])
    ensures n < |s| ==> !IsDigit(s[n])
  {
    if s == [] || !IsDigit(s[0]) then 0
    else
      var n := 1 + DigitRun(s[1..]);
      assert s[..n] == [s[0]] + s[1..][..n - 1];
      n
  }

  /** The non-negative integer a run of decimal digits denotes. */
  function Value(d: Bytes): nat
    requires AllDigits(d)
  {
    if d == [] then 0 else 10 * Value(d[..|d| - 1]) + (d[|d| - 1] - 0x30)
  }

  predicate Less(s: Bytes, t: Bytes)
    decreases |s|
  {
    if t == [] then false
    else if s == [] then true
    else if IsDigit(s[0]) && IsDigit(t[0]) then
      var i, j := DigitRun(s), DigitRun(t);
      var a, b := Value(s[..i]), Value(t[..j]);
      if a != b then a < b
      else if i != j then i > j
      else Less(s[i..], t[j..])
    else if s[0] != t[0] then s[0] < t[0]
    else Less(s[1..], t[1..])
  }

  /** A run of digits followed by a non-digit (or nothing) is exactly the
      leading run. */
  lemma {:induction false} DigitRunOf(a: Bytes, s: Bytes)
    requires AllDigits(a)
    requires s == [] || !IsDigit(s[0])
    ensures DigitRun(a + s) == |a|
    ensures (a + s)[..|a|] == a && (a + s)[|a|..] == s
  {
    if a == [] {
      assert a + s == s;
    } else {
      assert (a + s)[1..] == a[1..] + s;
      DigitRunOf(a[1..], s);
    }
  }

  /** Two digit runs, each followed by a non-digit or the end: numeric value
      decides, then the longer run (more leading zeros) is less, and only
      then does the rest matter. */
  lemma {:induction false} LessRuns(a: Bytes, s: Bytes, b: Bytes, t: Bytes)
    requires a != [] && b != [] && AllDigits(a) && AllDigits(b)
    requires s == [] || !IsDigit(s[0])
    requires t == [] || !IsDigit(t[0])
    ensures Less(a + s, b + t) ==
      if Value(a) != Value(b) then Value(a) < Value(b)
      else if |a| != |b| then |a| > |b|
      else Less(s, t)
  {
    var x, y := a + s, b + t;
    DigitRunOf(a, s);
    DigitRunOf(b, t);
    assert IsDigit(x[0]) && IsDigit(y[0]) by {
      assert x[0] == a[0] && y[0] == b[0];
    }
    LessDigits(x, y);
    var i, j := DigitRun(x), DigitRun(y);
    assert i == |a| && j == |b|;
    assert x[..i] == a && y[..j] == b && x[i..] == s && y[j..] == t;
  }

  /** `Less` on two strings that both start with a digit. */
  lemma {:induction false} LessDigits(x: Bytes, y: Bytes)
    requires x != [] && y != [] && IsDigit(x[0]) && IsDigit(y[0])
    ensures Less(x, y) ==
      var i, j := DigitRun(x), DigitRun(y);
      if Value(x[..i]) != Value(y[..j]) then Value(x[..i]) < Value(y[..j])
      else if i != j then i > j
      else Less(x[i..], y[j..])
  {
  }

  /** Two bytes that are not both digits: the raw byte values decide, and
      equal bytes defer to the rest. */
  lemma {:induction false} LessBytes(c: Byte, s: Bytes, d: Byte, t: Bytes)
    requires !(IsDigit(c) && IsDigit(d))
    ensures Less([c] + s, [d] + t) == if c != d then c < d else Less(s, t)
  {
    assert ([c] + s)[1..] == s && ([d] + t)[1..] == t;
  }

  /** Equal digit runs of equal length are the same bytes. */
  lemma {:induction false} ValueInjective(a: Bytes, b: Bytes)
    requires AllDigits(a) && AllDigits(b)
    requires |a| == |b| && Value(a) == Value(b)
    ensures a == b
  {
    if a != [] {
      var n := |a| - 1;
      assert AllDigits(a[..n]) && AllDigits(b[..n]);
      ValueInjective(a[..n], b[..n]);
      assert a == a[..n] + [a[n]] && b == b[..n] + [b[n]];
    }
  }

  /** Equal strings are never less than each other. */
  lemma {:induction false} LessIrreflexive(s: Bytes)
    ensures !Less(s, s)
    decreases |s|
  {
    if s != [] {
      if IsDigit(s[0]) {
        LessIrreflexive(s[DigitRun(s)..]);
      } else {
        LessIrreflexive(s[1..]);
      }
    }
  }

  /** `Less(s, t)` and `Less(t, s)` never both hold. */
  lemma {:induction false} LessAsymmetric(s: Bytes, t: Bytes)
    ensures !(Less(s, t) && Less(t, s))
    decreases |s|
  {
    if s != [] && t != [] {
      if IsDigit(s[0]) && IsDigit(t[0]) {
        LessAsymmetric(s[DigitRun(s)..], t[DigitRun(t)..]);
      } else if s[0] == t[0] {
        LessAsymmetric(s[1..], t[1..]);
      }
    }
  }

  /** Distinct strings are always ordered one way or the other. */
  lemma {:induction false} LessTrichotomous(s: Bytes, t: Bytes)
    ensures s == t || Less(s, t) || Less(t, s)
    decreases |s|
  {
    if s != [] && t != [] {
      if IsDigit(s[0]) && IsDigit(t[0]) {
        var i, j := DigitRun(s), DigitRun(t);
        if Value(s[..i]) == Value(t[..j]) && i == j {
          ValueInjective(s[..i], t[..j]);
          LessTrichotomous(s[i..], t[j..]);
          assert s == s[..i] + s[i..] && t == t[..j] + t[j..];
        }
      } else if s[0] == t[0] {
        LessTrichotomous(s[1..], t[1..]);
        assert s == [s[0]] + s[1..] && t == [t[0]] + t[1..];
      }
    }
  }

  /** Natural order is transitive. A digit sorts before every non-digit
      above '9' and after every one below '0', whichever digit it is, so a
      run and a byte compare the same way whatever the run holds. */
  lemma {:induction false} LessTransitive(s: Bytes, t: Bytes, u: Bytes)
    requires Less(s, t) && Less(t, u)
    ensures Less(s, u)
    decreases |s|
  {
    if s == [] {
    } else if IsDigit(s[0]) && IsDigit(t[0]) && IsDigit(u[0]) {
      var i, j, k := DigitRun(s), DigitRun(t), DigitRun(u);
      if Value(s[..i]) == Value(t[..j]) && i == j && Value(t[..j]) == Value(u[..k]) && j == k {
        LessTransitive(s[i..], t[j..], u[k..]);
      }
    } else if !IsDigit(s[0]) && !IsDigit(t[0]) && !IsDigit(u[0]) {
      if s[0] == t[0] && t[0] == u[0] {
        LessTransitive(s[1..], t[1..], u[1..]);
      }
    }
  }

  /** A string is less than any extension of it that does not lengthen its
      final digit run: "" < "a", "thx1138" < "thx1138a", "a" < "a0". */
  lemma {:induction false} PrefixLess(s: Bytes, u: Bytes)
    requires u != []
    requires s == [] || !IsDigit(s[|s| - 1]) || !IsDigit(u[0])
    ensures Less(s, s + u)
    decreases |s|
  {
    if s != [] {
      if IsDigit(s[0]) {
        var i := DigitRun(s);
        assert s + u == s[..i] + (s[i..] + u);
        assert s[..i] + s[i..] == s;
        DigitRunOf(s[..i], s[i..] + u);
        DigitRunOf(s[..i], s[i..]);
        PrefixLess(s[i..], u);
      } else {
        assert (s + u)[1..] == s[1..] + u;
        PrefixLess(s[1..], u);
      }
    }
  }
  /** A common prefix does not change the order, provided it cannot merge
      with a digit run that follows it: "thx1138a" < "thx1138b" because
      "a" < "b". */
  lemma {:induction false} LessCommonPrefix(p: Bytes, s: Bytes, t: Bytes)
    requires p == [] || !IsDigit(p[|p| - 1]) ||
      ((s == [] || !IsDigit(s[0])) && (t == [] || !IsDigit(t[0])))
    ensures Less(p + s, p + t) == Less(s, t)
    decreases |p|
  {
    if p == [] {
      assert p + s == s && p + t == t;
    } else if IsDigit(p[0]) {
      var i := DigitRun(p);
      if i < |p| {
        var q := p[i..];
        assert p + s == p[..i] + (q + s) && p + t == p[..i] + (q + t);
        assert (q + s)[0] == q[0] && (q + t)[0] == q[0];
        LessRuns(p[..i], q + s, p[..i], q + t);
        LessCommonPrefix(q, s, t);
      } else {
        assert p[..i] == p;
        LessRuns(p, s, p, t);
      }
    } else {
      var q := p[1..];
      assert p + s == [p[0]] + (q + s) && p + t == [p[0]] + (q + t);
      LessBytes(p[0], q + s, p[0], q + t);
      LessCommonPrefix(q, s, t);
    }
  }
}

/** The expected comparisons of the `natsort` test table, each proved of
    `NatSort.Less`. As the test harness does, every row is checked in both
    directions and encoded as one of equal, less, greater. */
module NatSortTable {
  import opened Strings
  import opened NatSort

  datatype Cmp = Eq | Lt | Gt | Both

  /** The harness's encoding: bit 0 is `Less(s, t)`, bit 1 is `Less(t, s)`. */
  function Compare(s: Bytes, t: Bytes): (r: Cmp)
    ensures r != Both
    ensures r == Eq <==> s == t
  {
    LessAsymmetric(s, t);
    LessIrreflexive(s);
    LessTrichotomous(s, t);
    if Less(s, t) then Lt else if Less(t, s) then Gt else Eq
  }

  lemma RunsBoth(a: Bytes, s: Bytes, b: Bytes, t: Bytes)
    requires a != [] && b != [] && AllDigits(a) && AllDigits(b)
    requires s == [] || !IsDigit(s[0])
    requires t == [] || !IsDigit(t[0])
    ensures Less(a + s, b + t) ==
      if Value(a) != Value(b) then Value(a) < Value(b)
      else if |a| != |b| then |a| > |b|
      else Less(s, t)
    ensures Less(b + t, a + s) ==
      if Value(a) != Value(b) then Value(b) < Value(a)
      else if |a| != |b| then |b| > |a|
      else Less(t, s)
  {
    LessRuns(a, s, b, t);
    LessRuns(b, t, a, s);
  }

  lemma BytesBoth(c: Byte, s: Bytes, d: Byte, t: Bytes)
    requires !(IsDigit(c) && IsDigit(d))
    ensures Less([c] + s, [d] + t) == if c != d then c < d else Less(s, t)
    ensures Less([d] + t, [c] + s) == if c != d then d < c else Less(t, s)
  {
    LessBytes(c, s, d, t);
    LessBytes(d, t, c, s);
  }

  /** A common prefix ending at a run boundary, then two digit runs. */
  lemma PrefixRuns(p: Bytes, a: Bytes, s: Bytes, b: Bytes, t: Bytes)
    requires p == [] || !IsDigit(p[|p| - 1])
    requires a != [] && b != [] && AllDigits(a) && AllDigits(b)
    requires s == [] || !IsDigit(s[0])
    requires t == [] || !IsDigit(t[0])
    ensures Less(p + (a + s), p + (b + t)) ==
      if Value(a) != Value(b) then Value(a) < Value(b)
      else if |a| != |b| then |a| > |b|
      else Less(s, t)
    ensures Less(p + (b + t), p + (a + s)) ==
      if Value(a) != Value(b) then Value(b) < Value(a)
      else if |a| != |b| then |b| > |a|
      else Less(t, s)
  {
    LessCommonPrefix(p, a + s, b + t);
    LessCommonPrefix(p, b + t, a + s);
    RunsBoth(a, s, b, t);
  }

  /** A common prefix, then two bytes that are not both digits. */
  lemma PrefixBytes(p: Bytes, c: Byte, s: Bytes, d: Byte, t: Bytes)
    requires !(IsDigit(c) && IsDigit(d))
    requires p == [] || !IsDigit(p[|p| - 1]) || (!IsDigit(c) && !IsDigit(d))
    ensures Less(p + ([c] + s), p + ([d] + t)) == if c != d then c < d else Less(s, t)
    ensures Less(p + ([d] + t), p + ([c] + s)) == if c != d then d < c else Less(t, s)
  {
    LessCommonPrefix(p, [c] + s, [d] + t);
    LessCommonPrefix(p, [d] + t, [c] + s);
    BytesBoth(c, s, d, t);
  }

  /** A string against a proper extension that does not lengthen its last
      digit run. */
  lemma PrefixEnd(p: Bytes, u: Bytes)
    requires u != []
    requires p == [] || !IsDigit(p[|p| - 1]) || !IsDigit(u[0])
    ensures Less(p, p + u) && !Less(p + u, p)
  {
    PrefixLess(p, u);
    LessAsymmetric(p, p + u);
  }

  /** The value of a run of one to four digits, spelled out. */
  lemma Value1(c0: Byte)
    requires IsDigit(c0)
    ensures Value([c0]) == c0 - 0x30
  {
    assert [c0][..0] == [];
  }

  lemma Value2(c0: Byte, c1: Byte)
    requires IsDigit(c0) && IsDigit(c1)
    ensures Value([c0, c1]) == 10 * (c0 - 0x30) + (c1 - 0x30)
  {
    assert [c0, c1][..1] == [c0];
    Value1(c0);
  }

  lemma Value3(c0: Byte, c1: Byte, c2: Byte)
    requires IsDigit(c0) && IsDigit(c1) && IsDigit(c2)
    ensures Value([c0, c1, c2]) == 100 * (c0 - 0x30) + 10 * (c1 - 0x30) + (c2 - 0x30)
  {
    assert [c0, c1, c2][..2] == [c0, c1];
    Value2(c0, c1);
  }

  lemma Value4(c0: Byte, c1: Byte, c2: Byte, c3: Byte)
    requires IsDigit(c0) && IsDigit(c1) && IsDigit(c2) && IsDigit(c3)
    ensures Value([c0, c1, c2, c3]) ==
      1000 * (c0 - 0x30) + 100 * (c1 - 0x30) + 10 * (c2 - 0x30) + (c3 - 0x30)
  {
    assert [c0, c1, c2, c3][..3] == [c0, c1, c2];
    Value3(c0, c1, c2);
  }

  /** Row 28: "" == "" */
  lemma Row28(s: Bytes, t: Bytes)
    requires s == [] && t == []
    ensures Compare(s, t) == Eq
  {
  }

  /** Row 29: "a" > "" */
  lemma Row29(s: Bytes, t: Bytes)
    requires s == Ascii("a") && t == []
    ensures Compare(s, t) == Gt
  {
    var p, u := [], [0x61];
    assert s == p + u && t == p;
    PrefixEnd(p, u);
  }

  /** Row 30: "a" == "a" */
  lemma Row30(s: Bytes, t: Bytes)
    requires s == Ascii("a") && t == Ascii("a")
    ensures Compare(s, t) == Eq
  {
  }

  /** Row 31: "1" < "10" */
  lemma Row31(s: Bytes, t: Bytes)
    requires s == Ascii("1") && t == Ascii("10")
    ensures Compare(s, t) == Lt
  {
    var p, a, s2, b, t2 := [], [0x31], [], [0x31, 0x30], [];
    assert s == p + (a + s2) && t == p + (b + t2);
    Value1(0x31);
    Value2(0x31, 0x30);
    PrefixRuns(p, a, s2, b, t2);
  }

  /** Row 32: "20" > "3" */
  lemma Row32(s: Bytes, t: Bytes)
    requires s == Ascii("20") && t == Ascii("3")
    ensures Compare(s, t) == Gt
  {
    var p, a, s2, b, t2 := [], [0x32, 0x30], [], [0x33], [];
    assert s == p + (a + s2) && t == p + (b + t2);
    Value2(0x32, 0x30);
    Value1(0x33);
    PrefixRuns(p, a, s2, b, t2);
  }

  /** Row 33: "a1" < "a10" */
  lemma Row33(s: Bytes, t: Bytes)
    requires s == Ascii("a1") && t == Ascii("a10")
    ensures Compare(s, t) == Lt
  {
    var p, a, s2, b, t2 := [0x61], [0x31], [], [0x31, 0x30], [];
    assert s == p + (a + s2) && t == p + (b + t2);
    Value1(0x31);
    Value2(0x31, 0x30);
    PrefixRuns(p, a, s2, b, t2);
  }

  /** Row 34: "a2" < "a10" */
  lemma Row34(s: Bytes, t: Bytes)
    requires s == Ascii("a2") && t == Ascii("a10")
    ensures Compare(s, t) == Lt
  {
    var p, a, s2, b, t2 := [0x61], [0x32], [], [0x31, 0x30], [];
    assert s == p + (a + s2) && t == p + (b + t2);
    Value1(0x32);
    Value2(0x31, 0x30);
    PrefixRuns(p, a, s2, b, t2);
  }

  /** Row 35: "a5b2" < "a5b7" */
  lemma Row35(s: Bytes, t: Bytes)
    requires s == Ascii("a5b2") && t == Ascii("a5b7")
    ensures Compare(s, t) == Lt
  {
    var p, a, s2, b, t2 := [0x61, 0x35, 0x62], [0x32], [], [0x37], [];
    assert s == p + (a + s2) && t == p + (b + t2);
    Value1(0x32);
    Value1(0x37);
    PrefixRuns(p, a, s2, b, t2);
  }

  /** Row 36: "a50b2" > "a6b7" */
  lemma Row36(s: Bytes, t: Bytes)
    requires s == Ascii("a50b2") && t == Ascii("a6b7")
    ensures Compare(s, t) == Gt
  {
    var p, a, s2, b, t2 := [0x61], [0x35, 0x30], [0x62, 0x32], [0x36], [0x62, 0x37];
    assert s == p + (a + s2) && t == p + (b + t2);
    Value2(0x35, 0x30);
    Value1(0x36);
    PrefixRuns(p, a, s2, b, t2);
  }

  /** Row 37: "世20" < "世界3" */
  lemma Row37(s: Bytes, t: Bytes)
    requires s == [0xE4, 0xB8, 0x96] + Ascii("20") && t == [0xE4, 0xB8, 0x96, 0xE7, 0x95, 0x8C] + Ascii("3")
    ensures Compare(s, t) == Lt
  {
    var p, s2, t2 := [0xE4, 0xB8, 0x96], [0x30], [0x95, 0x8C, 0x33];
    assert s == p + ([0x32] + s2) && t == p + ([0xE7] + t2);
    PrefixBytes(p, 0x32, s2, 0xE7, t2);
  }

  /** Row 38: "50a" < "50b" */
  lemma Row38(s: Bytes, t: Bytes)
    requires s == Ascii("50a") && t == Ascii("50b")
    ensures Compare(s, t) == Lt
  {
    var p, s2, t2 := [0x35, 0x30], [], [];
    assert s == p + ([0x61] + s2) && t == p + ([0x62] + t2);
    PrefixBytes(p, 0x61, s2, 0x62, t2);
  }

  /** Row 39: "a50" > "a050" */
  lemma Row39(s: Bytes, t: Bytes)
    requires s == Ascii("a50") && t == Ascii("a050")
    ensures Compare(s, t) == Gt
  {
    var p, a, s2, b, t2 := [0x61], [0x35, 0x30], [], [0x30, 0x35, 0x30], [];
    assert s == p + (a + s2) && t == p + (b + t2);
    Value2(0x35, 0x30);
    Value3(0x30, 0x35, 0x30);
    PrefixRuns(p, a, s2, b, t2);
  }

  /** Row 40: "a01b3" < "a1b2" */
  lemma Row40(s: Bytes, t: Bytes)
    requires s == Ascii("a01b3") && t == Ascii("a1b2")
    ensures Compare(s, t) == Lt
  {
    var p, a, s2, b, t2 := [0x61], [0x30, 0x31], [0x62, 0x33], [0x31], [0x62, 0x32];
    assert s == p + (a + s2) && t == p + (b + t2);
    Value2(0x30, 0x31);
    Value1(0x31);
    PrefixRuns(p, a, s2, b, t2);
  }

  /** Row 41: "thx1138" == "thx1138" */
  lemma Row41(s: Bytes, t: Bytes)
    requires s == Ascii("thx1138") && t == Ascii("thx1138")
    ensures Compare(s, t) == Eq
  {
  }

  /** Row 42: "thx1138a" < "thx1138b" */
  lemma Row42(s: Bytes, t: Bytes)
    requires s == Ascii("thx1138a") && t == Ascii("thx1138b")
    ensures Compare(s, t) == Lt
  {
    var p, s2, t2 := [0x74, 0x68, 0x78, 0x31, 0x31, 0x33, 0x38], [], [];
    assert s == p + ([0x61] + s2) && t == p + ([0x62] + t2);
    PrefixBytes(p, 0x61, s2, 0x62, t2);
  }

  /** Row 43: "thx1138a" > "thx1138" */
  lemma Row43(s: Bytes, t: Bytes)
    requires s == Ascii("thx1138a") && t == Ascii("thx1138")
    ensures Compare(s, t) == Gt
  {
    var p, u := [0x74, 0x68, 0x78, 0x31, 0x31, 0x33, 0x38], [0x61];
    assert s == p + u && t == p;
    PrefixEnd(p, u);
  }

  /** Row 46: "a" < "a0" */
  lemma Row46(s: Bytes, t: Bytes)
    requires s == Ascii("a") && t == Ascii("a0")
    ensures Compare(s, t) == Lt
  {
    var p, u := [0x61], [0x30];
    assert s == p && t == p + u;
    PrefixEnd(p, u);
  }

  /** Row 47: "a0" < "a1" */
  lemma Row47(s: Bytes, t: Bytes)
    requires s == Ascii("a0") && t == Ascii("a1")
    ensures Compare(s, t) == Lt
  {
    var p, a, s2, b, t2 := [0x61], [0x30], [], [0x31], [];
    assert s == p + (a + s2) && t == p + (b + t2);
    Value1(0x30);
    Value1(0x31);
    PrefixRuns(p, a, s2, b, t2);
  }

  /** Row 48: "a1" < "a1a" */
  lemma Row48(s: Bytes, t: Bytes)
    requires s == Ascii("a1") && t == Ascii("a1a")
    ensures Compare(s, t) == Lt
  {
    var p, u := [0x61, 0x31], [0x61];
    assert s == p && t == p + u;
    PrefixEnd(p, u);
  }

  /** Row 49: "a1a" < "a1b" */
  lemma Row49(s: Bytes, t: Bytes)
    requires s == Ascii("a1a") && t == Ascii("a1b")
    ensures Compare(s, t) == Lt
  {
    var p, s2, t2 := [0x61, 0x31], [], [];
    assert s == p + ([0x61] + s2) && t == p + ([0x62] + t2);
    PrefixBytes(p, 0x61, s2, 0x62, t2);
  }

  /** Row 50: "a2" < "a10" */
  lemma Row50(s: Bytes, t: Bytes)
    requires s == Ascii("a2") && t == Ascii("a10")
    ensures Compare(s, t) == Lt
  {
    var p, a, s2, b, t2 := [0x61], [0x32], [], [0x31, 0x30], [];
    assert s == p + (a + s2) && t == p + (b + t2);
    Value1(0x32);
    Value2(0x31, 0x30);
    PrefixRuns(p, a, s2, b, t2);
  }

  /** Row 51: "a10" < "a20" */
  lemma Row51(s: Bytes, t: Bytes)
    requires s == Ascii("a10") && t == Ascii("a20")
    ensures Compare(s, t) == Lt
  {
    var p, a, s2, b, t2 := [0x61], [0x31, 0x30], [], [0x32, 0x30], [];
    assert s == p + (a + s2) && t == p + (b + t2);
    Value2(0x31, 0x30);
    Value2(0x32, 0x30);
    PrefixRuns(p, a, s2, b, t2);
  }

  /** Row 54: "1.001" < "1.002" */
  lemma Row54(s: Bytes, t: Bytes)
    requires s == Ascii("1.001") && t == Ascii("1.002")
    ensures Compare(s, t) == Lt
  {
    var p, a, s2, b, t2 := [0x31, 0x2E], [0x30, 0x30, 0x31], [], [0x30, 0x30, 0x32], [];
    assert s == p + (a + s2) && t == p + (b + t2);
    Value3(0x30, 0x30, 0x31);
    Value3(0x30, 0x30, 0x32);
    PrefixRuns(p, a, s2, b, t2);
  }

  /** Row 55: "1.002" < "1.010" */
  lemma Row55(s: Bytes, t: Bytes)
    requires s == Ascii("1.002") && t == Ascii("1.010")
    ensures Compare(s, t) == Lt
  {
    var p, a, s2, b, t2 := [0x31, 0x2E], [0x30, 0x30, 0x32], [], [0x30, 0x31, 0x30], [];
    assert s == p + (a + s2) && t == p + (b + t2);
    Value3(0x30, 0x30, 0x32);
    Value3(0x30, 0x31, 0x30);
    PrefixRuns(p, a, s2, b, t2);
  }

  /** Row 56: "1.010" > "1.02" */
  lemma Row56(s: Bytes, t: Bytes)
    requires s == Ascii("1.010") && t == Ascii("1.02")
    ensures Compare(s, t) == Gt
  {
    var p, a, s2, b, t2 := [0x31, 0x2E], [0x30, 0x31, 0x30], [], [0x30, 0x32], [];
    assert s == p + (a + s2) && t == p + (b + t2);
    Value3(0x30, 0x31, 0x30);
    Value2(0x30, 0x32);
    PrefixRuns(p, a, s2, b, t2);
  }

  /** Row 57: "1.02" > "1.1" */
  lemma Row57(s: Bytes, t: Bytes)
    requires s == Ascii("1.02") && t == Ascii("1.1")
    ensures Compare(s, t) == Gt
  {
    var p, a, s2, b, t2 := [0x31, 0x2E], [0x30, 0x32], [], [0x31], [];
    assert s == p + (a + s2) && t == p + (b + t2);
    Value2(0x30, 0x32);
    Value1(0x31);
    PrefixRuns(p, a, s2, b, t2);
  }

  /** Row 58: "1.1" < "1.3" */
  lemma Row58(s: Bytes, t: Bytes)
    requires s == Ascii("1.1") && t == Ascii("1.3")
    ensures Compare(s, t) == Lt
  {
    var p, a, s2, b, t2 := [0x31, 0x2E], [0x31], [], [0x33], [];
    assert s == p + (a + s2) && t == p + (b + t2);
    Value1(0x31);
    Value1(0x33);
    PrefixRuns(p, a, s2, b, t2);
  }
}

/** Go strings as byte sequences, with the parts of Go's `strings` and
    `path/filepath` packages that the viewer relies on (Unix separators). */
module Strings {

  /** One byte of a Go string. */
  type Byte = b: int | 0 <= b < 256

  /** A Go string: an immutable sequence of bytes, UTF-8 by convention. */
  type Bytes = seq<Byte>

  const Slash: Byte := 0x2F
  const Dot: Byte := 0x2E

  /** The bytes of an ASCII literal. */
  function Ascii(s: string): Bytes
    requires forall i :: 0 <= i < |s| ==> s[i] as int < 128
  {
    seq(|s|, i requires 0 <= i < |s| => s[i] as int)
  }

  function LowerByte(b: Byte): Byte {
    if 0x41 <= b <= 0x5A then b + 0x20 else b
  }

  /** `strings.ToLower`, restricted to ASCII letters. */
  function ToLower(s: Bytes): (r: Bytes)
    ensures |r| == |s| && forall i :: 0 <= i < |s| ==> r[i] == LowerByte(s[i])
  {
    if s == [] then [] else [LowerByte(s[0])] + ToLower(s[1..])
  }

  /** Go's `a < b` on strings: lexicographic on bytes, a proper prefix first. */
  predicate ByteLess(a: Bytes, b: Bytes) {
    if b == [] then false
    else if a == [] then true
    else if a[0] != b[0] then a[0] < b[0]
    else ByteLess(a[1..], b[1..])
  }

  lemma {:induction false} ByteLessIrreflexive(a: Bytes)
    ensures !ByteLess(a, a)
  {
    if a != [] { ByteLessIrreflexive(a[1..]); }
  }

  lemma {:induction false} ByteLessTrichotomy(a: Bytes, b: Bytes)
    ensures a == b || ByteLess(a, b) || ByteLess(b, a)
    ensures !(ByteLess(a, b) && ByteLess(b, a))
  {
    if a != [] && b != [] && a[0] == b[0] {
      ByteLessTrichotomy(a[1..], b[1..]);
      if a[1..] == b[1..] { assert a == [a[0]] + a[1..] && b == [b[0]] + b[1..]; }
    }
  }

  lemma {:induction false} ByteLessTransitive(a: Bytes, b: Bytes, c: Bytes)
    requires ByteLess(a, b) && ByteLess(b, c)
    ensures ByteLess(a, c)
  {
    if a != [] && a[0] == b[0] && b[0] == c[0] {
      ByteLessTransitive(a[1..], b[1..], c[1..]);
    }
  }

  /** The index of the last separator in `p`, or -1 when there is none. */
  function LastSlash(p: Bytes): (r: int)
    ensures -1 <= r < |p|
    ensures r >= 0 ==> p[r] == Slash
    ensures forall k :: r < k < |p| ==> p[k] != Slash
  {
    if p == [] then -1
    else if p[|p| - 1] == Slash then |p| - 1
    else LastSlash(p[..|p| - 1])
  }

  /** `filepath.Split`: everything up to and including the last separator,
      and the final element after it. */
  function Split(p: Bytes): (r: (Bytes, Bytes))
    ensures r.0 + r.1 == p
    ensures Slash !in r.1
    ensures r.0 == [] || r.0[|r.0| - 1] == Slash
  {
    var i := LastSlash(p);
    var dir, file := p[..i + 1], p[i + 1..];
    assert Slash !in file by {
      forall j | 0 <= j < |file| ensures file[j] != Slash {
        assert file[j] == p[i + 1 + j];
      }
    }
    assert dir + file == p;
    (dir, file)
  }

  function ExtFrom(p: Bytes, i: nat): (r: Bytes)
    requires i <= |p|
    requires forall k :: i <= k < |p| ==> p[k] != Dot && p[k] != Slash
    ensures r != [] ==> r[0] == Dot && |r| <= |p| && r == p[|p| - |r|..]
    ensures Slash !in r && (r != [] ==> Dot !in r[1..])
    ensures r == [] <==> forall k :: LastSlash(p[..i]) < k < i ==> p[k] != Dot
    decreases i
  {
    if i == 0 then []
    else if p[i - 1] == Slash then []
    else
      assert p[..i][..i - 1] == p[..i - 1];
      if p[i - 1] == Dot then p[i - 1..]
      else ExtFrom(p, i - 1)
  }

  /** `filepath.Ext`: the suffix of the final element that starts at its last
      dot, or the empty string when that element has no dot. */
  function Ext(p: Bytes): (r: Bytes)
    ensures r != [] ==> r[0] == Dot && |r| <= |p| && r == p[|p| - |r|..]
    ensures Slash !in r && (r != [] ==> Dot !in r[1..])
    ensures r == [] <==> forall k :: LastSlash(p) < k < |p| ==> p[k] != Dot
  {
    assert p[..|p|] == p;
    ExtFrom(p, |p|)
  }

  function AfterLastSlash(p: Bytes): (r: Bytes)
    ensures r == Split(p).1
  {
    p[LastSlash(p) + 1..]
  }

  function TrimTrailingSlashes(p: Bytes): (r: Bytes)
    ensures |r| <= |p| && r == p[..|r|]
    ensures r == [] || r[|r| - 1] != Slash
  {
    if p != [] && p[|p| - 1] == Slash then TrimTrailingSlashes(p[..|p| - 1]) else p
  }

  /** `filepath.Base`: the last element of the path, trailing separators
      removed; "." for the empty path and "/" for a path of separators only. */
  function Base(p: Bytes): (r: Bytes)
    ensures r != []
    ensures Slash !in r || r == [Slash]
  {
    if p == [] then [Dot]
    else
      var q := TrimTrailingSlashes(p);
      if q == [] then [Slash] else AfterLastSlash(q)
  }

  /** `filepath.Join` of a directory and one name, without the lexical
      clean-up that Go's `Clean` also performs. */
  function Join(dir: Bytes, name: Bytes): (r: Bytes)
    ensures |r| >= |name| + |dir| && r[|r| - |name|..] == name && r[..|dir|] == dir
  {
    if dir == [] then name
    else if dir[|dir| - 1] == Slash then dir + name
    else dir + [Slash] + name
  }

  /** `filepath.IsAbs` on Unix. */
  predicate IsAbs(p: Bytes) {
    p != [] && p[0] == Slash
  }

  /** ASCII white space, as `strings.TrimSpace` strips it. */
  predicate IsSpace(b: Byte) {
    b == 0x20 || 0x09 <= b <= 0x0D
  }

  /** `strings.TrimSpace(s) == ""`. */
  predicate IsBlank(s: Bytes) {
    forall i :: 0 <= i < |s| ==> IsSpace(s[i])
  }
}

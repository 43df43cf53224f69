/** Name filtering and ordering shared by the archive backends and by the
    listing of sibling archives in a directory. */
module ArchiveUtil {
  import opened Strings
  import opened Errors
  import opened NatSort
  import opened Sorting

  /** The extensions that mark a file as an archive the viewer can open. */
  const ArchiveExtensions: seq<Bytes> := [Ascii(".zip"), Ascii(".cbz")]

  /** Whether the lower-cased extension of `p` is one of `exts`, compared
      exactly: the list itself is not lower-cased. */
  predicate Matches(p: Bytes, exts: seq<Bytes>) {
    ToLower(Ext(p)) in exts
  }

  /** `ExtensionMatch`: scans the list and stops at the first equal entry. */
  method ExtensionMatch(p: Bytes, exts: seq<Bytes>) returns (b: bool)
    ensures b <==> Matches(p, exts)
  {
    var pext := ToLower(Ext(p));
    var i := 0;
    while i < |exts|
      invariant 0 <= i <= |exts|
      invariant pext !in exts[..i]
    {
      if pext == exts[i] {
        return true;
      }
      i := i + 1;
    }
    assert exts[..i] == exts;
    return false;
  }

  /** The image-format extensions come without their leading dot; the
      package initialiser adds it to every entry in place. */
  method DotPrefix(exts: array<Bytes>)
    modifies exts
    ensures forall i :: 0 <= i < exts.Length ==> exts[i] == [Dot] + old(exts[i])
  {
    var i := 0;
    while i < exts.Length
      invariant 0 <= i <= exts.Length
      invariant forall k :: 0 <= k < i ==> exts[k] == [Dot] + old(exts[k])
      invariant forall k :: i <= k < exts.Length ==> exts[k] == old(exts[k])
    {
      exts[i] := [Dot] + exts[i];
      i := i + 1;
    }
  }

  /** With every entry dot-prefixed, a name whose last element has no dot
      matches none of them. */
  lemma NoDotNoMatch(p: Bytes, exts: seq<Bytes>)
    requires forall e :: e in exts ==> e != [] && e[0] == Dot
    requires forall k :: LastSlash(p) < k < |p| ==> p[k] != Dot
    ensures !Matches(p, exts)
  {
    assert Ext(p) == [];
    assert ToLower(Ext(p)) == [];
  }

  /** `File.Ext`: the extension without its dot, or empty when there is no
      extension or it is a lone dot. */
  function FileExt(p: Bytes): (r: Bytes)
    ensures r == [] <==> Ext(p) == [] || Ext(p) == [Dot]
    ensures r != [] ==> [Dot] + r == Ext(p) && r == p[|p| - |r|..]
    ensures Dot !in r && Slash !in r
  {
    var ext := Ext(p);
    if |ext| <= 1 || ext[0] != Dot then []
    else
      assert ext == [Dot] + ext[1..];
      ext[1..]
  }

  /** `strcmp`: natural order when `natural`, Go's byte order otherwise. */
  function Strcmp(a: Bytes, b: Bytes, natural: bool): bool {
    if natural then Less(a, b) else ByteLess(a, b)
  }

  /** Either way `strcmp` is a strict total order. */
  lemma StrcmpStrictTotal(a: Bytes, b: Bytes, c: Bytes, natural: bool)
    ensures !Strcmp(a, a, natural)
    ensures !(Strcmp(a, b, natural) && Strcmp(b, a, natural))
    ensures a == b || Strcmp(a, b, natural) || Strcmp(b, a, natural)
    ensures Strcmp(a, b, natural) && Strcmp(b, c, natural) ==> Strcmp(a, c, natural)
  {
    if natural {
      LessIrreflexive(a);
      LessAsymmetric(a, b);
      LessTrichotomous(a, b);
      if Less(a, b) && Less(b, c) { LessTransitive(a, b, c); }
    } else {
      ByteLessIrreflexive(a);
      ByteLessTrichotomy(a, b);
      if ByteLess(a, b) && ByteLess(b, c) { ByteLessTransitive(a, b, c); }
    }
  }

  /** `filenames.Less` and `zipfile.Less`: always natural order. */
  predicate FilenamesLess(a: Bytes, b: Bytes) {
    Strcmp(a, b, true)
  }

  /** `stringArray.Less`: byte order of the lower-cased names. */
  predicate LowerLess(a: Bytes, b: Bytes) {
    ByteLess(ToLower(a), ToLower(b))
  }

  /** Both orders meet what `Sort` and `SortedAll` ask of them. */
  lemma FilenamesLessOrder()
    ensures Asymmetric(FilenamesLess) && NotLessTransitive(FilenamesLess)
  {
    forall a, b {
      LessAsymmetric(a, b);
    }
    forall a, b, c | !FilenamesLess(b, a) && !FilenamesLess(c, b)
      ensures !FilenamesLess(c, a)
    {
      LessTrichotomous(a, b);
      if a != b && Less(c, a) {
        LessTransitive(c, a, b);
      }
    }
  }

  lemma LowerLessOrder()
    ensures Asymmetric(LowerLess) && NotLessTransitive(LowerLess)
  {
    forall a, b {
      ByteLessTrichotomy(ToLower(a), ToLower(b));
    }
    forall a, b, c | !LowerLess(b, a) && !LowerLess(c, b)
      ensures !LowerLess(c, a)
    {
      var x, y, z := ToLower(a), ToLower(b), ToLower(c);
      ByteLessTrichotomy(x, y);
      if x != y && ByteLess(z, x) {
        ByteLessTransitive(z, x, y);
      }
    }
  }

  /** The names kept by the backends' filter loop, in input order. */
  function Filter(names: seq<Bytes>, exts: seq<Bytes>): (r: seq<Bytes>)
    ensures |r| <= |names|
  {
    if names == [] then []
    else
      var last := names[|names| - 1];
      Filter(names[..|names| - 1], exts) + (if Matches(last, exts) then [last] else [])
  }

  /** The filter keeps every matching name as often as it occurs, and
      nothing else. */
  lemma {:induction false} FilterCount(names: seq<Bytes>, exts: seq<Bytes>, x: Bytes)
    ensures multiset(Filter(names, exts))[x] ==
      if Matches(x, exts) then multiset(names)[x] else 0
  {
    if names != [] {
      var n := |names| - 1;
      FilterCount(names[..n], exts, x);
      LastSplit(names);
    }
  }

  lemma LastSplit<T>(s: seq<T>)
    requires s != []
    ensures s == s[..|s| - 1] + [s[|s| - 1]]
  {
  }

  /** The filter loop of `NewZip` and `NewDir`: appends every name that
      passes `ExtensionMatch`, in input order. */
  method FilterNames(names: seq<Bytes>, exts: seq<Bytes>) returns (kept: seq<Bytes>)
    ensures kept == Filter(names, exts)
  {
    kept := [];
    var i := 0;
    while i < |names|
      invariant 0 <= i <= |names|
      invariant kept == Filter(names[..i], exts)
    {
      var ok := ExtensionMatch(names[i], exts);
      assert names[..i + 1][..i] == names[..i];
      if ok {
        kept := kept + [names[i]];
      }
      i := i + 1;
    }
    assert names[..i] == names;
  }

  /** Sorts a copy of `s` in place, as `sort.Sort` sorts the slice. */
  method SortNames(s: seq<Bytes>, less: (Bytes, Bytes) -> bool) returns (r: seq<Bytes>)
    requires Asymmetric(less)
    ensures multiset(r) == multiset(s) && SortedBy(less, r)
  {
    var a := new Bytes[|s|](i requires 0 <= i < |s| => s[i]);
    assert a[..] == s;
    Sort(a, less);
    r := a[..];
  }

  /** A directory entry as `os.Stat` reports it: a directory or not, or the
      error the call failed with. */
  datatype Child = Child(name: Bytes, isDir: Result<bool>)

  /** What the file system answers for a directory: whether opening and
      statting it succeeded and it is a directory, and its entries. */
  datatype Listing = Listing(isDir: Result<bool>, children: Result<seq<Child>>)

  /** The error of the first entry whose `Stat` fails. */
  function FirstFailure(cs: seq<Child>): Option<Error> {
    if cs == [] then None
    else if cs[0].isDir.Err? then Some(cs[0].isDir.error)
    else FirstFailure(cs[1..])
  }

  /** There is a first failure exactly when some entry failed, and it is the
      error of an entry with no failure before it. */
  lemma {:induction false} FirstFailureIsFirst(cs: seq<Child>)
    ensures FirstFailure(cs).None? <==> forall i :: 0 <= i < |cs| ==> cs[i].isDir.Ok?
    ensures FirstFailure(cs).Some? ==>
      exists i :: 0 <= i < |cs| && cs[i].isDir == Err(FirstFailure(cs).value) &&
        (forall k :: 0 <= k < i ==> cs[k].isDir.Ok?)
  {
    if cs != [] && cs[0].isDir.Ok? {
      FirstFailureIsFirst(cs[1..]);
      assert forall i :: 0 < i < |cs| ==> cs[i] == cs[1..][i - 1];
      if FirstFailure(cs).Some? {
        var i :| 0 <= i < |cs[1..]| && cs[1..][i].isDir == Err(FirstFailure(cs).value) &&
          (forall k :: 0 <= k < i ==> cs[1..][k].isDir.Ok?);
        assert cs[i + 1].isDir == Err(FirstFailure(cs).value);
      }
    }
  }

  /** The entries `ListArchives` keeps: archives by extension, in any case,
      and directories. */
  predicate IsKept(c: Child, exts: seq<Bytes>) {
    c.isDir.Ok? && (Matches(c.name, exts) || c.isDir.value)
  }

  /** The names kept among the first `n` entries, in listing order. */
  function KeptUpTo(cs: seq<Child>, exts: seq<Bytes>, n: nat): (r: seq<Bytes>)
    requires n <= |cs|
    ensures |r| <= n
  {
    if n == 0 then []
    else KeptUpTo(cs, exts, n - 1) + (if IsKept(cs[n - 1], exts) then [cs[n - 1].name] else [])
  }

  /** The names of all kept entries, in listing order. */
  function KeptNames(cs: seq<Child>, exts: seq<Bytes>): (r: seq<Bytes>)
    ensures |r| <= |cs|
  {
    KeptUpTo(cs, exts, |cs|)
  }

  /** A name is listed exactly when some entry of that name is kept. */
  lemma KeptNamesExactly(cs: seq<Child>, exts: seq<Bytes>, x: Bytes)
    ensures x in KeptNames(cs, exts) <==> exists i :: 0 <= i < |cs| && Listed(cs, exts, i, x)
  {
    if x in KeptNames(cs, exts) {
      KeptListed(cs, exts, |cs|, x);
    }
    if exists i :: 0 <= i < |cs| && Listed(cs, exts, i, x) {
      var i :| 0 <= i < |cs| && Listed(cs, exts, i, x);
      ListedKept(cs, exts, |cs|, i, x);
    }
  }

  lemma {:induction false} KeptListed(cs: seq<Child>, exts: seq<Bytes>, n: nat, x: Bytes)
    requires n <= |cs| && x in KeptUpTo(cs, exts, n)
    ensures exists i :: 0 <= i < n && Listed(cs, exts, i, x)
  {
    var m := n - 1;
    if x in KeptUpTo(cs, exts, m) {
      KeptListed(cs, exts, m, x);
      var i :| 0 <= i < m && Listed(cs, exts, i, x);
      assert 0 <= i < n;
    } else {
      assert Listed(cs, exts, m, x);
    }
  }

  lemma {:induction false} ListedKept(cs: seq<Child>, exts: seq<Bytes>, n: nat, i: int, x: Bytes)
    requires 0 <= i < n <= |cs| && Listed(cs, exts, i, x)
    ensures x in KeptUpTo(cs, exts, n)
  {
    if i < n - 1 {
      ListedKept(cs, exts, n - 1, i, x);
    }
  }

  /** Entry `i` of `cs` is kept and named `x`. */
  predicate Listed(cs: seq<Child>, exts: seq<Bytes>, i: int, x: Bytes)
    requires 0 <= i < |cs|
  {
    cs[i].name == x && IsKept(cs[i], exts)
  }

  /** `ListArchives`: the archives and sub-directories of `dir`, ordered by
      their lower-cased bytes. */
  /** What `ListArchives` promises for a directory whose listing is `l`:
      the stat and read errors are passed on, a non-directory is refused,
      and otherwise the kept names come back in case-insensitive byte
      order. */
  ghost predicate ArchivesListed(dir: Bytes, l: Listing, r: Result<seq<Bytes>>) {
    (l.isDir.Err? ==> r == Err(l.isDir.error)) &&
    (l.isDir == Ok(false) ==> r == Err(NotADirectory(dir))) &&
    (l.isDir == Ok(true) && l.children.Err? ==> r == Err(l.children.error)) &&
    (l.isDir == Ok(true) && l.children.Ok? ==>
      var f := FirstFailure(l.children.value);
      (f.Some? ==> r == Err(f.value)) &&
      (f.None? ==> r.Ok? && multiset(r.value) == multiset(KeptNames(l.children.value, ArchiveExtensions)) &&
                   SortedBy(LowerLess, r.value)))
  }

  /** A listing only succeeds on a readable directory whose entries all
      stat, and then holds exactly the kept names. */
  lemma ListedOk(dir: Bytes, l: Listing, r: Result<seq<Bytes>>)
    requires ArchivesListed(dir, l, r) && r.Ok?
    ensures l.isDir == Ok(true) && l.children.Ok? && FirstFailure(l.children.value).None?
    ensures multiset(r.value) == multiset(KeptNames(l.children.value, ArchiveExtensions))
  {
    if l.isDir.Ok? && l.isDir.value {
      assert l.isDir == Ok(true);
    }
  }

  method ListArchives(dir: Bytes, l: Listing) returns (r: Result<seq<Bytes>>)
    ensures ArchivesListed(dir, l, r)
  {
    if l.isDir.Err? {
      return Err(l.isDir.error);
    }
    if !l.isDir.value {
      return Err(NotADirectory(dir));
    }
    if l.children.Err? {
      return Err(l.children.error);
    }
    var kept := KeepArchives(l.children.value, ArchiveExtensions);
    if kept.Err? {
      return kept;
    }
    LowerLessOrder();
    var sorted := SortNames(kept.value, LowerLess);
    return Ok(sorted);
  }

  /** The loop of `ListArchives`: stats every entry in order, stops at the
      first failure, and collects the kept names. */
  method KeepArchives(cs: seq<Child>, exts: seq<Bytes>) returns (r: Result<seq<Bytes>>)
    ensures FirstFailure(cs).Some? ==> r == Err(FirstFailure(cs).value)
    ensures FirstFailure(cs).None? ==> r == Ok(KeptNames(cs, exts))
  {
    var anames: seq<Bytes> := [];
    var i := 0;
    while i < |cs|
      invariant 0 <= i <= |cs|
      invariant forall k :: 0 <= k < i ==> cs[k].isDir.Ok?
      invariant anames == KeptUpTo(cs, exts, i)
    {
      if cs[i].isDir.Err? {
        FailureAt(cs, i);
        return Err(cs[i].isDir.error);
      }
      var isArchive := ExtensionMatch(cs[i].name, exts);
      if isArchive || cs[i].isDir.value {
        anames := anames + [cs[i].name];
      }
      i := i + 1;
    }
    NoFailure(cs);
    return Ok(anames);
  }

  /** Entries that all stat leave no failure to report. */
  lemma {:induction false} NoFailure(cs: seq<Child>)
    requires forall k :: 0 <= k < |cs| ==> cs[k].isDir.Ok?
    ensures FirstFailure(cs).None?
  {
    if cs != [] {
      assert forall k :: 0 <= k < |cs[1..]| ==> cs[1..][k] == cs[k + 1];
      NoFailure(cs[1..]);
    }
  }

  /** The first failing entry after a run of successful ones decides
      `FirstFailure`. */
  lemma {:induction false} FailureAt(cs: seq<Child>, i: int)
    requires 0 <= i < |cs| && cs[i].isDir.Err?
    requires forall k :: 0 <= k < i ==> cs[k].isDir.Ok?
    ensures FirstFailure(cs) == Some(cs[i].isDir.error)
    decreases i
  {
    if i > 0 {
      FailureAt(cs[1..], i - 1);
    }
  }
}

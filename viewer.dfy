/** The viewer state and its navigation: which archive is open, which page
    is shown, the page cache of image hashes, and the bookmarks, with the
    operations of main.go, navigation.go, image.go and bookmark.go that
    change or inspect them. Decoding, hashing, the file system and the
    working directory are parameters (`Env`). */
module Viewer {
  import opened Strings
  import opened Errors
  import opened Util
  import opened ImgDiff
  import opened Scenes
  import opened Sorting
  import opened ArchiveUtil
  import opened ZipBackend
  import opened Archives

  datatype ZoomMode = Original | BestFit | FitToWidth | FitToHeight

  /** The settings the navigation reads. `thres` is the largest Hamming
      distance (out of 64) that still counts as the same scene. */
  datatype Config = Config(
    doublePage: bool, seamless: bool, random: bool, oneWide: bool, mangaMode: bool,
    enlarge: bool, shrink: bool, zoomMode: ZoomMode,
    nSkip: int, sceneScanSkip: int, thres: int)

  /** The defaults of config.go. The float threshold 0.4 on `d / 64` becomes
      the integer threshold 25 on `d`. */
  const DefaultConfig := Config(
    false, true, false, false, false,
    false, true, BestFit,
    10, 5, 25)

  /** `d / 64 > 0.4` holds exactly for the distances above 25. */
  lemma DefaultThreshold(d: int)
    requires 0 <= d <= 64
    ensures d > DefaultConfig.thres <==> 5 * d > 2 * 64
  {
  }

  datatype Bookmark = Bookmark(path: Bytes, page: nat, totalPages: nat, added: int)

  /** The outside world: the working directory, the member names of each
      zip file, directory listings, page decoding (a zip member through its
      reader, or a file by path), the difference hash of a decoded page
      (rescale included), and the dot-prefixed image extensions. */
  datatype Env = Env(
    cwd: Result<Bytes>,
    zipMembers: Bytes -> Result<seq<Bytes>>,
    listing: Bytes -> Listing,
    openMember: (Bytes, Bytes) -> Result<Pixbuf>,
    openFile: Bytes -> Result<Pixbuf>,
    dhash: Pixbuf -> Hash,
    imageExtensions: seq<Bytes>)

  /** `LoadImage` without its error report: page `n`, or nothing when it
      does not decode. */
  function PageOf(a: Archive, env: Env, n: int): (r: Option<Pixbuf>)
    ensures !(0 <= n < a.Len()) ==> r.None?
  {
    match a.Load(n, env.openMember, env.openFile)
    case Ok(pb) => Some(pb)
    case Err(_) => None
  }

  /** `ImageHash(n)`: the cached hash when there is one, else the hash of
      the freshly decoded page; nothing is added to the cache. */
  function HashAt(cache: Option<map<int, Hash>>, a: Archive, env: Env, n: int): (r: Option<Hash>)
    ensures cache.Some? && n in cache.value ==> r == Some(cache.value[n])
    ensures r.None? <==> !(cache.Some? && n in cache.value) && PageOf(a, env, n).None?
  {
    if cache.Some? && n in cache.value then Some(cache.value[n])
    else match PageOf(a, env, n)
      case Some(pb) => Some(env.dhash(pb))
      case None => None
  }

  predicate Wide(p: Option<Pixbuf>) {
    p.Some? && p.value.width > p.value.height
  }

  /** `forceSinglePage`: always without a right page; with `OneWide`, also
      when either page is wider than tall. */
  predicate ForceSingle(l: Option<Pixbuf>, r: Option<Pixbuf>, oneWide: bool) {
    r.None? || (oneWide && (Wide(l) || Wide(r)))
  }

  /** Two pages are laid out side by side. */
  predicate DoubleShown(l: Option<Pixbuf>, r: Option<Pixbuf>, c: Config) {
    c.doublePage && !ForceSingle(l, r, c.oneWide)
  }

  /** `pixbufLoaded`. */
  predicate PixbufLoaded(l: Option<Pixbuf>, r: Option<Pixbuf>, c: Config) {
    if DoubleShown(l, r, c) then l.Some? && r.Some? else l.Some?
  }

  /** `pixbufSize`. */
  function PixbufSize(l: Option<Pixbuf>, r: Option<Pixbuf>, c: Config): (int, int) {
    if !PixbufLoaded(l, r, c) then (0, 0)
    else if DoubleShown(l, r, c) then (l.value.width + r.value.width, Max(l.value.height, r.value.height))
    else (l.value.width, l.value.height)
  }

  /** Without a right page the layout is single, so "loaded" means a left
      page; side by side, the size spans both pages and the taller one. */
  lemma LayoutFacts(l: Option<Pixbuf>, r: Option<Pixbuf>, c: Config)
    ensures r.None? ==> !DoubleShown(l, r, c)
    ensures PixbufLoaded(l, r, c) <==> l.Some?
    ensures !l.Some? ==> PixbufSize(l, r, c) == (0, 0)
    ensures l.Some? && !DoubleShown(l, r, c) ==> PixbufSize(l, r, c) == (l.value.width, l.value.height)
    ensures l.Some? && DoubleShown(l, r, c) ==>
      var (w, h) := PixbufSize(l, r, c);
      w == l.value.width + r.value.width &&
      h >= l.value.height && h >= r.value.height &&
      (h == l.value.height || h == r.value.height)
  {
  }

  /** With `OneWide` and both pages present, the layout is single exactly
      when one of them is wider than tall. */
  lemma OneWideRule(l: Option<Pixbuf>, r: Option<Pixbuf>)
    requires l.Some? && r.Some?
    ensures ForceSingle(l, r, true) <==> l.value.width > l.value.height || r.value.width > r.value.height
    ensures !ForceSingle(l, r, false)
  {
  }

  /** The 1-based page numbers shown on the left and on the right of a
      double page: swapped in manga mode. */
  function DisplayIndices(pos: int, manga: bool): (r: (int, int))
    ensures multiset{r.0, r.1} == multiset{pos + 1, pos + 2}
    ensures manga <==> r.0 > r.1
  {
    if manga then (pos + 2, pos + 1) else (pos + 1, pos + 2)
  }

  datatype Scaling = Unscaled | ToWidth | ToHeight | ToFit

  /** Which rule of `scaledSize` applies to a picture of `w` x `h` on a
      screen of `scrw` x `scrh`. */
  function ScalingOf(c: Config, w: int, h: int, scrw: int, scrh: int): Scaling {
    match c.zoomMode
    case FitToWidth => if (c.enlarge && w < scrw) || (c.shrink && w > scrw) then ToWidth else Unscaled
    case FitToHeight => ToHeight
    case BestFit =>
      if (c.enlarge && w < scrw && h < scrh) || (c.shrink && (w > scrw || h > scrh)) then ToFit else Unscaled
    case Original => Unscaled
  }

  /** Enlarging and shrinking are separate permissions: fit-to-width and
      best-fit only enlarge a picture smaller than the screen under
      `Enlarge`, only shrink a larger one under `Shrink`, and leave a
      picture of exactly the screen's size alone. */
  lemma ScalingRules(c: Config, w: int, h: int, scrw: int, scrh: int)
    requires c.zoomMode == FitToWidth || c.zoomMode == BestFit
    ensures !c.enlarge && w <= scrw && h <= scrh ==> ScalingOf(c, w, h, scrw, scrh) == Unscaled
    ensures !c.shrink && w >= scrw && h >= scrh ==> ScalingOf(c, w, h, scrw, scrh) == Unscaled
    ensures w == scrw && h == scrh ==> ScalingOf(c, w, h, scrw, scrh) == Unscaled
    ensures c.zoomMode == BestFit && c.shrink ==> (ScalingOf(c, w, h, scrw, scrh) == ToFit <== w > scrw || h > scrh)
    ensures c.zoomMode == BestFit && c.enlarge && !c.shrink ==>
      (ScalingOf(c, w, h, scrw, scrh) == ToFit <==> w < scrw && h < scrh)
  {
  }

  /** `filepath.Join(os.Getwd(), path)` is skipped for an absolute path. */
  predicate NoLoad(path: Bytes, cwd: Result<Bytes>) {
    IsBlank(path) || (!IsAbs(path) && cwd.Err?)
  }

  function FullPath(path: Bytes, cwd: Result<Bytes>): (r: Bytes)
    requires !NoLoad(path, cwd)
    ensures r != []
  {
    if IsAbs(path) then path else Join(cwd.value, path)
  }

  /** The directory `curArchive` and `archiveNameRel` list: the directory
      part of the open path, or the working directory when it has none. */
  function ListDir(path: Bytes, cwd: Result<Bytes>): Bytes
    requires Split(path).0 != [] || cwd.Ok?
  {
    if Split(path).0 == [] then cwd.value else Split(path).0
  }

  /** The index of the last occurrence of `x` in `s`, or -1. */
  function LastIndex(s: seq<Bytes>, x: Bytes): int {
    if s == [] then -1
    else if s[|s| - 1] == x then |s| - 1
    else LastIndex(s[..|s| - 1], x)
  }

  /** The last occurrence, and only -1 when there is none. */
  lemma {:induction false} LastIndexSpec(s: seq<Bytes>, x: Bytes)
    ensures var c := LastIndex(s, x);
      -1 <= c < |s| && (c == -1 <==> x !in s) &&
      (c >= 0 ==> s[c] == x) && (forall k :: c < k < |s| ==> s[k] != x)
  {
    if s != [] && s[|s| - 1] != x {
      LastIndexSpec(s[..|s| - 1], x);
      assert s == s[..|s| - 1] + [s[|s| - 1]];
    }
  }

  /** What `curArchive` returns for the open `path`. The order of equal
      names under the case-insensitive sort is not pinned down, so the
      listing is any one `ListArchives` may return. */
  ghost predicate CurArchiveResult(path: Bytes, env: Env, r: Result<int>) {
    if Split(path).0 == [] && env.cwd.Err? then r == Err(env.cwd.error)
    else
      var dir := ListDir(path, env.cwd);
      exists a :: ArchivesListed(dir, env.listing(dir), a) &&
        (a.Err? ==> r == Err(a.error)) &&
        (a.Ok? && LastIndex(a.value, Split(path).1) < 0 ==> r == Err(CurrentNotFound)) &&
        (a.Ok? && LastIndex(a.value, Split(path).1) >= 0 ==> r == Ok(LastIndex(a.value, Split(path).1)))
  }

  /** What `archiveNameRel(i)` returns: the path of the archive `i` places
      after the open one in the second listing, taken from the first
      listing; "" without error when the open archive is not found. */
  ghost predicate NameRelResult(path: Bytes, env: Env, i: int, r: Result<Bytes>) {
    if Split(path).0 == [] && env.cwd.Err? then r == Err(env.cwd.error)
    else
      var dir := ListDir(path, env.cwd);
      exists a :: ArchivesListed(dir, env.listing(dir), a) &&
        (a.Err? ==> r == Err(a.error)) &&
        (a.Ok? ==> exists c :: CurArchiveResult(path, env, c) && NameRelPick(dir, a.value, c, i, r))
  }

  /** The last step of `archiveNameRel`, from the listing and the index of
      the open archive. */
  predicate NameRelPick(dir: Bytes, anames: seq<Bytes>, c: Result<int>, i: int, r: Result<Bytes>) {
    if c.Err? then r == Ok([])
    else if 0 <= c.value + i < |anames| then r == Ok(Join(dir, anames[c.value + i]))
    else r == Err(NoMoreArchives)
  }

  /** A found archive is the last entry of the listing with the open
      archive's file name. */
  lemma CurArchiveFound(path: Bytes, env: Env, c: int)
    requires CurArchiveResult(path, env, Ok(c))
    requires Split(path).0 != [] || env.cwd.Ok?
    ensures var dir := ListDir(path, env.cwd);
      exists a :: ArchivesListed(dir, env.listing(dir), Ok(a)) &&
        0 <= c < |a| && a[c] == Split(path).1 &&
        forall k :: c < k < |a| ==> a[k] != Split(path).1
  {
    var dir := ListDir(path, env.cwd);
    var a :| ArchivesListed(dir, env.listing(dir), a) &&
        (a.Err? ==> Ok(c) == Err(a.error)) &&
        (a.Ok? && LastIndex(a.value, Split(path).1) < 0 ==> Ok(c) == Err(CurrentNotFound)) &&
        (a.Ok? && LastIndex(a.value, Split(path).1) >= 0 ==> Ok(c) == Ok(LastIndex(a.value, Split(path).1)));
    LastIndexSpec(a.value, Split(path).1);
  }

  /** A readable directory without an archive of the open name yields
      `ErrCurrentNotFound`. */
  lemma CurArchiveMissing(path: Bytes, env: Env, r: Result<int>)
    requires CurArchiveResult(path, env, r)
    requires Split(path).0 != [] || env.cwd.Ok?
    requires var l := env.listing(ListDir(path, env.cwd));
      l.isDir == Ok(true) && l.children.Ok? && FirstFailure(l.children.value).None? &&
      Split(path).1 !in multiset(KeptNames(l.children.value, ArchiveExtensions))
    ensures r == Err(CurrentNotFound)
  {
    var dir := ListDir(path, env.cwd);
    var a :| ArchivesListed(dir, env.listing(dir), a) &&
        (a.Err? ==> r == Err(a.error)) &&
        (a.Ok? && LastIndex(a.value, Split(path).1) < 0 ==> r == Err(CurrentNotFound)) &&
        (a.Ok? && LastIndex(a.value, Split(path).1) >= 0 ==> r == Ok(LastIndex(a.value, Split(path).1)));
    assert a.Ok?;
    ListedOk(dir, env.listing(dir), a);
    assert Split(path).1 !in a.value;
    LastIndexSpec(a.value, Split(path).1);
  }

  /** A name `archiveNameRel` produces is a kept archive of the listed
      directory, joined to that directory. */
  lemma NameRelListed(path: Bytes, env: Env, i: int, name: Bytes)
    requires NameRelResult(path, env, i, Ok(name)) && name != []
    requires Split(path).0 != [] || env.cwd.Ok?
    ensures var dir := ListDir(path, env.cwd); var l := env.listing(dir);
      l.isDir == Ok(true) && l.children.Ok? && FirstFailure(l.children.value).None? &&
      exists x :: x in multiset(KeptNames(l.children.value, ArchiveExtensions)) && name == Join(dir, x)
  {
    var dir := ListDir(path, env.cwd);
    var l := env.listing(dir);
    var a :| ArchivesListed(dir, l, a) &&
        (a.Err? ==> Ok(name) == Err(a.error)) &&
        (a.Ok? ==> exists c :: CurArchiveResult(path, env, c) && NameRelPick(dir, a.value, c, i, Ok(name)));
    var c :| CurArchiveResult(path, env, c) && NameRelPick(dir, a.value, c, i, Ok(name));
    ListedOk(dir, l, a);
    var x := a.value[c.value + i];
    assert x in multiset(KeptNames(l.children.value, ArchiveExtensions)) by {
      assert x in multiset(a.value);
    }
  }

  /** The pages `setPage(n)` shows in archive `a`: page `n` on the left, and
      page `n + 1` on the right in double-page mode when it exists. */
  predicate ShowsIn(a: Archive, env: Env, c: Config, n: int, l: Option<Pixbuf>, r: Option<Pixbuf>) {
    l == PageOf(a, env, n) &&
    r == (if c.doublePage && n + 1 < a.Len() then PageOf(a, env, n + 1) else None)
  }

  /** `forceSinglePage` once `setPage(n)` has shown page `n` of `a`. */
  predicate SingleIn(a: Archive, env: Env, c: Config, n: int) {
    ForceSingle(PageOf(a, env, n),
      if c.doublePage && n + 1 < a.Len() then PageOf(a, env, n + 1) else None,
      c.oneWide)
  }

  /** `AddBookmark` on a list of bookmarks: the first bookmark of the same
      path is replaced, or the new one is appended. */
  function Upsert(bms: seq<Bookmark>, b: Bookmark): seq<Bookmark> {
    if bms == [] then [b]
    else if bms[0].path == b.path then [b] + bms[1..]
    else [bms[0]] + Upsert(bms[1..], b)
  }

  /** The first bookmark of the path, at `i`, is the only one that
      changes. */
  lemma {:induction false} UpsertExisting(bms: seq<Bookmark>, b: Bookmark, i: int)
    requires 0 <= i < |bms| && bms[i].path == b.path
    requires forall k :: 0 <= k < i ==> bms[k].path != b.path
    ensures Upsert(bms, b) == bms[i := b]
  {
    if i > 0 {
      UpsertExisting(bms[1..], b, i - 1);
      assert bms == [bms[0]] + bms[1..];
    }
  }

  /** Without a bookmark of the path, the new one is appended and nothing
      else changes. */
  lemma {:induction false} UpsertNew(bms: seq<Bookmark>, b: Bookmark)
    requires forall k :: 0 <= k < |bms| ==> bms[k].path != b.path
    ensures Upsert(bms, b) == bms + [b]
  {
    if bms != [] {
      UpsertNew(bms[1..], b);
      assert bms == [bms[0]] + bms[1..];
    }
  }

  predicate UniquePaths(bms: seq<Bookmark>) {
    forall i, j :: 0 <= i < j < |bms| ==> bms[i].path != bms[j].path
  }

  /** Upserting keeps the paths unique, and the new bookmark is present. */
  lemma UpsertUnique(bms: seq<Bookmark>, b: Bookmark)
    requires UniquePaths(bms)
    ensures UniquePaths(Upsert(bms, b))
    ensures b in Upsert(bms, b)
  {
    if i :| 0 <= i < |bms| && bms[i].path == b.path {
      var f := FirstWithPath(bms, b.path, i);
      UpsertExisting(bms, b, f);
      assert Upsert(bms, b)[f] == b;
    } else {
      UpsertNew(bms, b);
      assert Upsert(bms, b)[|bms|] == b;
    }
  }

  /** The first index with `path`, given that `i` has it. */
  lemma {:induction false} FirstWithPath(bms: seq<Bookmark>, path: Bytes, i: int) returns (f: int)
    requires 0 <= i < |bms| && bms[i].path == path
    ensures 0 <= f <= i && bms[f].path == path
    ensures forall k :: 0 <= k < f ==> bms[k].path != path
  {
    f := 0;
    while bms[f].path != path
      invariant 0 <= f <= i
      invariant forall k :: 0 <= k < f ==> bms[k].path != path
      decreases i - f
    {
      f := f + 1;
    }
  }

  /** Page numbers stay within the page counts they were stored with. */
  lemma UpsertPages(bms: seq<Bookmark>, b: Bookmark)
    requires forall k :: 0 <= k < |bms| ==> bms[k].page <= bms[k].totalPages
    requires b.page <= b.totalPages
    ensures forall k :: 0 <= k < |Upsert(bms, b)| ==> Upsert(bms, b)[k].page <= Upsert(bms, b)[k].totalPages
  {
    if i :| 0 <= i < |bms| && bms[i].path == b.path {
      var f := FirstWithPath(bms, b.path, i);
      UpsertExisting(bms, b, f);
    } else {
      UpsertNew(bms, b);
    }
  }

  /** The viewer: the `State` fields the navigation reads and writes, with
      the bookmark list of the configuration. */
  class GUI {
    var archive: Option<Archive>
    var archivePos: int
    var archivePath: Bytes
    var archiveName: Bytes
    var pixbufL: Option<Pixbuf>
    var pixbufR: Option<Pixbuf>
    var imageHash: Option<map<int, Hash>>
    var bookmarks: seq<Bookmark>
    const config: Config
    const env: Env

    /** A started viewer: nothing open, on page 0. */
    constructor (config: Config, env: Env, bookmarks: seq<Bookmark>)
      ensures Valid() && !Loaded()
      ensures this.config == config && this.env == env && this.bookmarks == bookmarks
      ensures archive.None? && archivePos == 0 && archivePath == [] && archiveName == []
      ensures pixbufL.None? && pixbufR.None? && imageHash.None?
    {
      this.config := config;
      this.env := env;
      this.bookmarks := bookmarks;
      archive := None;
      archivePos := 0;
      archivePath := [];
      archiveName := [];
      pixbufL := None;
      pixbufR := None;
      imageHash := None;
    }

    /** An open archive sits on an existing page whose pictures are the
        ones shown. */
    ghost predicate Valid()
      reads this
    {
      Ready() &&
      (archive.Some? ==>
        archivePos < archive.value.Len() &&
        ShowsIn(archive.value, env, config, archivePos, pixbufL, pixbufR))
    }

    /** `Valid` but for the page shown: what holds between opening an
        archive and showing its first page. The hash cache, which nothing
        fills, holds pages of the archive only. */
    ghost predicate Ready()
      reads this
    {
      archivePos >= 0 &&
      (archive.Some? ==> archivePath != [] && archive.value.Len() >= 1) &&
      (archive.Some? && imageHash.Some? ==> forall k :: k in imageHash.value ==> 0 <= k < archive.value.Len())
    }

    /** `Loaded`: an archive is open (not a failed one) under a path. */
    predicate Loaded()
      reads this
    {
      archive.Some? && archivePath != []
    }

    function Pages(): nat
      reads this
      requires archive.Some?
    {
      archive.value.Len()
    }

    /** Everything but the page position and the pictures is as given. */
    ghost predicate Keeps(a: Option<Archive>, path: Bytes, name: Bytes, cache: Option<map<int, Hash>>, bms: seq<Bookmark>)
      reads this
    {
      archive == a && archivePath == path && archiveName == name && imageHash == cache && bookmarks == bms
    }

    /** `forceSinglePage` on the pictures shown. */
    predicate ForceSinglePage()
      reads this
    {
      ForceSingle(pixbufL, pixbufR, config.oneWide)
    }

    /** `ImageHash(n)`. */
    function ImageHash(n: int): Option<Hash>
      reads this
      requires archive.Some?
    {
      HashAt(imageHash, archive.value, env, n)
    }

    /** What the scene search sees of page `k` against `reference`. */
    function Prober(reference: Hash): int -> Probe
      reads this
      requires archive.Some?
    {
      var cache, a, e, t := imageHash, archive.value, env, config.thres;
      k => Classify(HashAt(cache, a, e, k), reference, t)
    }

    /** `Close`: forgets the open archive, its position, its pictures and
        its hash cache; nothing happens when nothing is open. */
    method Close()
      requires Valid()
      modifies this
      ensures Valid() && !Loaded()
      ensures !old(Loaded()) ==> unchanged(this)
      ensures old(Loaded()) ==>
        archive.None? && archiveName == [] && archivePath == [] && archivePos == 0 &&
        imageHash.None? && pixbufL.None? && pixbufR.None? && bookmarks == old(bookmarks)
    {
      if !Loaded() {
        return;
      }
      archive := None;
      archiveName := [];
      archivePath := [];
      archivePos := 0;
      imageHash := None;
      pixbufL := None;
      pixbufR := None;
    }

    /** `setPage(n)`: moves to page `n` and decodes its pictures, the right
        one only in double-page mode and only when page `n + 1` exists. */
    method ShowPage(n: int)
      requires Ready() && (archive.Some? ==> 0 <= n < Pages())
      modifies this
      ensures Valid()
      ensures !old(Loaded()) ==> unchanged(this)
      ensures old(Loaded()) ==>
        archivePos == n && Keeps(old(archive), old(archivePath), old(archiveName), old(imageHash), old(bookmarks))
    {
      if !Loaded() {
        return;
      }
      archivePos := n;
      pixbufR := None;
      pixbufL := PageOf(archive.value, env, n);
      pixbufR := None;
      if config.doublePage && n + 1 < archive.value.Len() {
        pixbufR := PageOf(archive.value, env, n + 1);
      }
    }

    /** `SetPage(n)`: clamps `n` to the pages of the archive and shows that
        page, unless it is already shown. */
    method SetPage(n: int)
      requires Valid()
      modifies this
      ensures Valid()
      ensures !old(Loaded()) ==> unchanged(this)
      ensures old(Loaded()) ==>
        archivePos == Clamp(n, old(Pages())) &&
        Keeps(old(archive), old(archivePath), old(archiveName), old(imageHash), old(bookmarks))
      ensures old(Loaded()) && Clamp(n, old(Pages())) == old(archivePos) ==> unchanged(this)
    {
      if !Loaded() {
        return;
      }
      var m := n;
      if m < 0 {
        m := 0;
      }
      if m >= archive.value.Len() {
        m := archive.value.Len() - 1;
      }
      if m == archivePos {
        return;
      }
      ShowPage(m);
    }

    /** `FirstPage`. */
    method FirstPage()
      requires Valid()
      modifies this
      ensures Valid()
      ensures !old(Loaded()) ==> unchanged(this)
      ensures old(Loaded()) ==>
        archivePos == 0 && Keeps(old(archive), old(archivePath), old(archiveName), old(imageHash), old(bookmarks))
    {
      if !Loaded() {
        return;
      }
      SetPage(0);
    }

    /** `LastPage`: in double-page mode it first moves to the last but one
        page, then to the last page all the same. */
    method LastPage()
      requires Valid()
      modifies this
      ensures Valid()
      ensures !old(Loaded()) ==> unchanged(this)
      ensures old(Loaded()) ==>
        archivePos == old(Pages()) - 1 &&
        Keeps(old(archive), old(archivePath), old(archiveName), old(imageHash), old(bookmarks))
    {
      if !Loaded() {
        return;
      }
      if config.doublePage && archive.value.Len() >= 2 {
        SetPage(archive.value.Len() - 2);
      }
      SetPage(archive.value.Len() - 1);
    }

    /** `SkipForward`: `nSkip` pages on, at most to the last page. */
    method SkipForward()
      requires Valid()
      modifies this
      ensures Valid()
      ensures !old(Loaded()) ==> unchanged(this)
      ensures old(Loaded()) ==>
        archivePos == Clamp(old(archivePos) + config.nSkip, old(Pages())) &&
        Keeps(old(archive), old(archivePath), old(archiveName), old(imageHash), old(bookmarks))
    {
      SetPage(archivePos + config.nSkip);
    }

    /** `SkipBackward`: `nSkip` pages back, at most to the first page. */
    method SkipBackward()
      requires Valid()
      modifies this
      ensures Valid()
      ensures !old(Loaded()) ==> unchanged(this)
      ensures old(Loaded()) ==>
        archivePos == Clamp(old(archivePos) - config.nSkip, old(Pages())) &&
        Keeps(old(archive), old(archivePath), old(archiveName), old(imageHash), old(bookmarks))
    {
      SetPage(archivePos - config.nSkip);
    }

    /** `RandomPage`, with the random number `rnd` given. */
    method RandomPage(rnd: nat)
      requires Valid()
      modifies this
      ensures Valid()
      ensures !old(Loaded()) ==> unchanged(this)
      ensures old(Loaded()) ==>
        archivePos == rnd % old(Pages()) &&
        Keeps(old(archive), old(archivePath), old(archiveName), old(imageHash), old(bookmarks))
    {
      if !Loaded() {
        return;
      }
      SetPage(rnd % archive.value.Len());
    }

    /** The step of `NextPage`: two pages when both are shown and two more
        pages follow. */
    function NextStep(): (n: int)
      reads this
      requires archive.Some?
      ensures n == 1 || n == 2
      ensures n == 2 ==> config.doublePage && !ForceSinglePage() && archivePos + 2 < Pages()
    {
      if config.doublePage && !ForceSinglePage() && Pages() > archivePos + 2 then 2 else 1
    }

    /** The step of `PreviousPage`: two pages in double-page mode past the
        second page. */
    function PrevStep(): (n: int)
      reads this
      ensures n == 1 || n == 2
      ensures n == 2 ==> config.doublePage && archivePos > 1
    {
      if config.doublePage && archivePos > 1 then 2 else 1
    }

    /** `NextPage`, with the random number `rnd` of random mode given: moves
        on by the step, or, in seamless mode, to the next archive once the
        step would reach the end. */
    method NextPage(rnd: nat)
      requires Valid()
      modifies this
      ensures Valid()
      ensures !old(Loaded()) && !config.seamless ==> unchanged(this)
      ensures !old(Loaded()) && config.seamless ==> Switched(1)
      ensures old(Loaded()) && config.random ==>
        archivePos == rnd % old(Pages()) &&
        Keeps(old(archive), old(archivePath), old(archiveName), old(imageHash), old(bookmarks))
      ensures old(Loaded()) && !config.random && config.seamless && old(Pages() - archivePos <= NextStep()) ==>
        Switched(1)
      ensures old(Loaded()) && !config.random && !(config.seamless && old(Pages() - archivePos <= NextStep())) ==>
        archivePos == Min(old(archivePos + NextStep()), old(Pages()) - 1) &&
        Keeps(old(archive), old(archivePath), old(archiveName), old(imageHash), old(bookmarks))
    {
      if !Loaded() {
        if config.seamless {
          var _ := NextArchive();
        }
        return;
      }
      if config.random {
        RandomPage(rnd);
        return;
      }
      var n := NextStep();
      if config.seamless && archive.value.Len() - archivePos <= n {
        var _ := NextArchive();
        return;
      }
      SetPage(archivePos + n);
    }

    /** `PreviousPage`, with the random number `rnd` of random mode given:
        moves back by the step, or, in seamless mode, to the last page of
        the previous archive from the first page; a page that must be shown
        alone in double-page mode is followed by one more step forward. */
    method PreviousPage(rnd: nat)
      requires Valid()
      modifies this
      ensures Valid()
      ensures !old(Loaded()) && !config.seamless ==> unchanged(this)
      ensures !old(Loaded()) && config.seamless ==> Switched(-1)
      ensures old(Loaded()) && config.random ==>
        archivePos == rnd % old(Pages()) &&
        Keeps(old(archive), old(archivePath), old(archiveName), old(imageHash), old(bookmarks))
      ensures old(Loaded()) && !config.random && config.seamless && old(archivePos + 1 <= PrevStep()) ==>
        Switched(-1)
      ensures old(Loaded()) && !config.random && !(config.seamless && old(archivePos + 1 <= PrevStep())) ==>
        var p1 := Max(old(archivePos - PrevStep()), 0);
        Keeps(old(archive), old(archivePath), old(archiveName), old(imageHash), old(bookmarks)) &&
        archivePos == (if config.doublePage && SingleIn(old(archive.value), env, config, p1) && old(Pages()) - p1 > 1 then p1 + 1 else p1)
    {
      if !Loaded() {
        if config.seamless {
          var _ := PreviousArchive();
        }
        return;
      }
      if config.random {
        RandomPage(rnd);
        return;
      }
      var n := PrevStep();
      if config.seamless && archivePos + 1 <= n {
        var _ := PreviousArchive();
        return;
      }
      StepBack(n, rnd);
    }

    /** The ordinary move of `PreviousPage`: `n` pages back, then one page
        on when the page reached must be shown alone in double-page mode. */
    method StepBack(n: int, rnd: nat)
      requires Valid() && Loaded() && !config.random && n >= 1
      modifies this
      ensures Valid()
      ensures var p1 := Max(old(archivePos) - n, 0);
        Keeps(old(archive), old(archivePath), old(archiveName), old(imageHash), old(bookmarks)) &&
        archivePos == (if config.doublePage && SingleIn(old(archive.value), env, config, p1) && old(Pages()) - p1 > 1 then p1 + 1 else p1)
    {
      SetPage(archivePos - n);
      SettleSingle(rnd);
    }

    /** The last move of `PreviousPage`: one page on when the page shown
        must be shown alone in double-page mode and is not the last. */
    method SettleSingle(rnd: nat)
      requires Valid() && Loaded() && !config.random
      modifies this
      ensures Valid()
      ensures Keeps(old(archive), old(archivePath), old(archiveName), old(imageHash), old(bookmarks))
      ensures archivePos ==
        if config.doublePage && SingleIn(old(archive.value), env, config, old(archivePos)) && old(Pages() - archivePos) > 1
        then old(archivePos) + 1 else old(archivePos)
    {
      assert ForceSinglePage() == SingleIn(archive.value, env, config, archivePos);
      if config.doublePage && ForceSinglePage() && archive.value.Len() - archivePos > 1 {
        NextPage(rnd);
      }
    }

    /** The outcome of a switch to the archive `i` places away: nothing
        changed because `archiveNameRel(i)` failed, or the archive it names
        was loaded (and, going back, shown from its last page). */
    twostate predicate Switched(i: int)
      reads this
    {
      (unchanged(this) && exists e :: NameRelResult(old(archivePath), env, i, Err(e))) ||
      exists name :: NameRelResult(old(archivePath), env, i, Ok(name)) && Reloaded(name, i < 0)
    }

    /** What `LoadArchive(path)` leaves behind, followed by `LastPage` when
        `atEnd`. A blank path, or a relative one without a working
        directory, changes nothing. Otherwise the full path is opened;
        when that fails the old archive is closed all the same. */
    twostate predicate Reloaded(path: Bytes, atEnd: bool)
      reads this
    {
      if NoLoad(path, env.cwd) then
        Keeps(old(archive), old(archivePath), old(archiveName), old(imageHash), old(bookmarks)) &&
        (atEnd && old(Loaded()) ==> archivePos == old(Pages()) - 1) &&
        (!(atEnd && old(Loaded())) ==>
          archivePos == old(archivePos) && pixbufL == old(pixbufL) && pixbufR == old(pixbufR))
      else
        var p := FullPath(path, env.cwd);
        var members := env.zipMembers(p);
        archivePath == p && archiveName == Base(p) && imageHash == Some(map[]) && bookmarks == old(bookmarks) &&
        (archive.None? <==> OpenFails(p, members, env.imageExtensions)) &&
        (archive.Some? ==>
          ArchiveOpened(p, members, env.imageExtensions, Ok(archive.value)) &&
          archivePos == (if atEnd then Pages() - 1 else 0)) &&
        (archive.None? && old(Loaded()) ==> archivePos == 0 && pixbufL.None? && pixbufR.None?) &&
        (archive.None? && !old(Loaded()) ==>
          archivePos == old(archivePos) && pixbufL == old(pixbufL) && pixbufR == old(pixbufR))
    }

    /** `LoadArchive(path)`: closes the open archive, opens the one at
        `path` (made absolute against the working directory) and shows its
        first page. */
    method LoadArchive(path: Bytes)
      requires Valid()
      modifies this
      ensures Valid()
      ensures Reloaded(path, false)
    {
      if IsBlank(path) {
        return;
      }
      var p := path;
      if !IsAbs(path) {
        if env.cwd.Err? {
          return;
        }
        p := Join(env.cwd.value, path);
      }
      assert !NoLoad(path, env.cwd) && p == FullPath(path, env.cwd);
      OpenPath(p);
    }

    /** The part of `LoadArchive` after the path is made absolute. The
        archive is opened first here: opening reads nothing of the viewer
        state. */
    method OpenPath(p: Bytes)
      requires Valid() && p != []
      modifies this
      ensures Valid()
      ensures archivePath == p && archiveName == Base(p) && imageHash == Some(map[]) && bookmarks == old(bookmarks)
      ensures archive.None? <==> OpenFails(p, env.zipMembers(p), env.imageExtensions)
      ensures archive.Some? ==> ArchiveOpened(p, env.zipMembers(p), env.imageExtensions, Ok(archive.value)) && archivePos == 0
      ensures archive.None? && old(Loaded()) ==> archivePos == 0 && pixbufL.None? && pixbufR.None?
      ensures archive.None? && !old(Loaded()) ==>
        archivePos == old(archivePos) && pixbufL == old(pixbufL) && pixbufR == old(pixbufR)
    {
      var r := NewArchive(p, env.zipMembers(p), env.imageExtensions);
      Install(p, r);
    }

    /** Closes the open archive, records path and name, and installs the
        outcome `r` of opening, on its first page. */
    method Install(p: Bytes, r: Result<Archive>)
      requires Valid() && p != [] && (r.Ok? ==> r.value.Len() >= 1)
      modifies this
      ensures Valid()
      ensures archivePath == p && archiveName == Base(p) && imageHash == Some(map[]) && bookmarks == old(bookmarks)
      ensures archive == (if r.Ok? then Some(r.value) else None)
      ensures archive.Some? ==> archivePos == 0
      ensures archive.None? && old(Loaded()) ==> archivePos == 0 && pixbufL.None? && pixbufR.None?
      ensures archive.None? && !old(Loaded()) ==>
        archivePos == old(archivePos) && pixbufL == old(pixbufL) && pixbufR == old(pixbufR)
    {
      if Loaded() {
        Close();
      }
      imageHash := Some(map[]);
      archivePath := p;
      archiveName := Base(p);
      if r.Err? {
        archive := None;
        return;
      }
      archive := Some(r.value);
      ShowPage(0);
    }

    /** `NextArchive`: loads the next archive of the directory; false, with
        nothing changed, when `archiveNameRel(1)` fails. */
    method NextArchive() returns (moved: bool)
      requires Valid()
      modifies this
      ensures Valid()
      ensures !moved ==> unchanged(this) && exists e :: NameRelResult(old(archivePath), env, 1, Err(e))
      ensures moved ==> exists name :: NameRelResult(old(archivePath), env, 1, Ok(name)) && Reloaded(name, false)
      ensures Switched(1)
    {
      var r := ArchiveNameRel(1);
      if r.Err? {
        return false;
      }
      LoadArchive(r.value);
      return true;
    }

    /** `PreviousArchive`: loads the previous archive of the directory and
        shows its last page; false, with nothing changed, when
        `archiveNameRel(-1)` fails. */
    method PreviousArchive() returns (moved: bool)
      requires Valid()
      modifies this
      ensures Valid()
      ensures !moved ==> unchanged(this) && exists e :: NameRelResult(old(archivePath), env, -1, Err(e))
      ensures moved ==> exists name :: NameRelResult(old(archivePath), env, -1, Ok(name)) && Reloaded(name, true)
      ensures Switched(-1)
    {
      var r := ArchiveNameRel(-1);
      if r.Err? {
        return false;
      }
      LoadArchive(r.value);
      LastPage();
      return true;
    }

    /** `curArchive`: the index of the open archive among the archives of
        its directory. */
    method CurArchive() returns (r: Result<int>)
      ensures CurArchiveResult(archivePath, env, r)
    {
      var (dir0, name) := Split(archivePath);
      var dir := dir0;
      if dir == [] {
        if env.cwd.Err? {
          return Err(env.cwd.error);
        }
        dir := env.cwd.value;
      }
      var anames := ListArchives(dir, env.listing(dir));
      if anames.Err? {
        return Err(anames.error);
      }
      var which := FindLast(anames.value, name);
      if which == -1 {
        r := Err(CurrentNotFound);
      } else {
        r := Ok(which);
      }
      LastIndexSpec(anames.value, name);
      assert ListDir(archivePath, env.cwd) == dir;
    }

    /** `archiveNameRel(i)`: the path of the archive `i` places away from
        the open one. */
    method ArchiveNameRel(i: int) returns (r: Result<Bytes>)
      ensures NameRelResult(archivePath, env, i, r)
    {
      var dir := Split(archivePath).0;
      if dir == [] {
        if env.cwd.Err? {
          return Err(env.cwd.error);
        }
        dir := env.cwd.value;
      }
      assert ListDir(archivePath, env.cwd) == dir;
      var anames := ListArchives(dir, env.listing(dir));
      if anames.Err? {
        return Err(anames.error);
      }
      var c := CurArchive();
      if c.Err? {
        r := Ok([]);
      } else if c.value + i < 0 || c.value + i >= |anames.value| {
        r := Err(NoMoreArchives);
      } else {
        r := Ok(Join(dir, anames.value[c.value + i]));
      }
      assert NameRelPick(dir, anames.value, c, i, r);
    }

    /** How `NextScene` ends, from the state it starts in. */
    function NextSceneTarget(): Search
      reads this
      requires archive.Some? && pixbufL.Some?
    {
      ForwardSearch(Prober(env.dhash(pixbufL.value)), archivePos, Pages(), config.sceneScanSkip)
    }

    /** How `PreviousScene` ends, from the state it starts in. */
    function PreviousSceneTarget(): Search
      reads this
      requires archive.Some? && pixbufL.Some?
    {
      BackwardSearch(Prober(env.dhash(pixbufL.value)), archivePos, config.sceneScanSkip)
    }

    /** No page outside the archive yields a hash: such pages are not in
        the cache, and `Load` refuses their index. */
    lemma ProbesOutside(reference: Hash)
      requires Ready() && archive.Some?
      ensures forall k :: k < 0 || k >= Pages() ==> Prober(reference)(k) == Failed
    {
      forall k | k < 0 || k >= Pages()
        ensures Prober(reference)(k) == Failed
      {
        assert !(imageHash.Some? && k in imageHash.value);
      }
    }

    /** `NextScene`: moves to the first page of the next scene, judged
        against the hash of the page shown on the left; stays put when no
        such page is found or a page fails to load. */
    method NextScene()
      requires Valid()
      modifies this
      ensures Valid()
      ensures !(old(Loaded()) && old(pixbufL).Some?) ==> unchanged(this)
      ensures old(Loaded()) && old(pixbufL).Some? && !old(NextSceneTarget()).Lands? ==> unchanged(this)
      ensures old(Loaded()) && old(pixbufL).Some? && old(NextSceneTarget()).Lands? ==>
        archivePos == old(NextSceneTarget()).page &&
        Keeps(old(archive), old(archivePath), old(archiveName), old(imageHash), old(bookmarks))
      ensures old(Loaded()) && old(pixbufL).Some? && old(NextSceneTarget()).Lands? ==>
        old(archivePos) < archivePos < Pages() && ImageHash(archivePos).Some? &&
        Distance(env.dhash(old(pixbufL).value), ImageHash(archivePos).value) > config.thres
    {
      if !Loaded() || pixbufL.None? {
        return;
      }
      var reference := env.dhash(pixbufL.value);
      ProbesOutside(reference);
      var t := ScanForward(Prober(reference), archivePos, archive.value.Len(), config.sceneScanSkip);
      ForwardSearchLands(Prober(reference), archivePos, Pages(), config.sceneScanSkip);
      if t.Lands? {
        ShowPage(t.page);
      }
    }

    /** `PreviousScene`: the mirror of `NextScene`, to the last page of the
        previous scene. */
    method PreviousScene()
      requires Valid()
      modifies this
      ensures Valid()
      ensures !(old(Loaded()) && old(pixbufL).Some?) ==> unchanged(this)
      ensures old(Loaded()) && old(pixbufL).Some? && !old(PreviousSceneTarget()).Lands? ==> unchanged(this)
      ensures old(Loaded()) && old(pixbufL).Some? && old(PreviousSceneTarget()).Lands? ==>
        archivePos == old(PreviousSceneTarget()).page &&
        Keeps(old(archive), old(archivePath), old(archiveName), old(imageHash), old(bookmarks))
      ensures old(Loaded()) && old(pixbufL).Some? && old(PreviousSceneTarget()).Lands? ==>
        0 <= archivePos < old(archivePos) && ImageHash(archivePos).Some? &&
        Distance(env.dhash(old(pixbufL).value), ImageHash(archivePos).value) > config.thres
    {
      if !Loaded() || pixbufL.None? {
        return;
      }
      var reference := env.dhash(pixbufL.value);
      ProbesOutside(reference);
      var t := ScanBackward(Prober(reference), archivePos, archive.value.Len(), config.sceneScanSkip);
      BackwardSearchLands(Prober(reference), archivePos, config.sceneScanSkip);
      if t.Lands? {
        ShowPage(t.page);
      }
    }

    /** `AddBookmark`, with the time given: the bookmark of the open
        archive is updated in place, or a new one is appended; the page is
        stored counting from 1. */
    method AddBookmark(now: int)
      requires Valid() && archive.Some?
      modifies this
      ensures Valid()
      ensures archive == old(archive) && archivePos == old(archivePos) && archivePath == old(archivePath) &&
        archiveName == old(archiveName) && imageHash == old(imageHash) &&
        pixbufL == old(pixbufL) && pixbufR == old(pixbufR)
      ensures bookmarks == Upsert(old(bookmarks), Bookmark(archivePath, archivePos + 1, Pages(), now))
    {
      var b := Bookmark(archivePath, archivePos + 1, archive.value.Len(), now);
      var i := 0;
      while i < |bookmarks| && bookmarks[i].path != archivePath
        invariant 0 <= i <= |bookmarks|
        invariant forall k :: 0 <= k < i ==> bookmarks[k].path != archivePath
      {
        i := i + 1;
      }
      if i < |bookmarks| {
        UpsertExisting(bookmarks, b, i);
        bookmarks := bookmarks[i := b];
      } else {
        UpsertNew(bookmarks, b);
        bookmarks := bookmarks + [b];
      }
    }
  }

  /** The page `SetPage` lands on: the nearest page of the archive. */
  function Clamp(n: int, len: int): (r: int)
    requires len >= 1
    ensures 0 <= r < len
    ensures 0 <= n < len ==> r == n
    ensures n < 0 ==> r == 0
    ensures n >= len ==> r == len - 1
  {
    if n < 0 then 0 else if n >= len then len - 1 else n
  }

  /** `curArchive`'s search: the index of the last entry equal to `x`, or
      -1. */
  method FindLast(s: seq<Bytes>, x: Bytes) returns (which: int)
    ensures which == LastIndex(s, x)
  {
    which := -1;
    var i := 0;
    while i < |s|
      invariant 0 <= i <= |s|
      invariant which == LastIndex(s[..i], x)
    {
      assert s[..i + 1][..i] == s[..i];
      if s[i] == x {
        which := i;
      }
      i := i + 1;
    }
    assert s[..|s|] == s;
  }
}

/** The `Archive` interface over the two backends, and `NewArchive`, which
    picks a backend by the path's extension. */
module Archives {
  import opened Strings
  import opened Errors
  import opened NatSort
  import opened Sorting
  import opened ArchiveUtil
  import opened ZipBackend
  import opened DirBackend

  /** Only a preallocation size for the member lists; nothing enforces it. */
  const MaxArchiveEntries: nat := 4096 * 64

  /** The extensions `NewArchive` opens with the zip backend. */
  const ZipExtensions: seq<Bytes> := [Ascii(".zip"), Ascii(".cbz")]

  datatype Archive = ZipArchive(zip: Zip) | DirArchive(dir: Dir) {
    ghost predicate Valid() {
      match this
      case ZipArchive(z) => z.Valid()
      case DirArchive(d) => d.Valid()
    }

    /** The entry names, in the order the archive presents them. */
    function Names(): seq<Bytes> {
      match this
      case ZipArchive(z) => z.files
      case DirArchive(d) => d.filenames
    }

    function Len(): (r: nat)
      ensures r == |Names()|
      ensures Valid() ==> r >= 1
    {
      match this
      case ZipArchive(z) => z.Len()
      case DirArchive(d) => d.Len()
    }

    function Name(i: int): (r: Result<Bytes>)
      ensures r.Ok? <==> 0 <= i < Len()
      ensures r.Ok? ==> r.value == Names()[i]
      ensures r.Err? ==> r.error == Bounds
    {
      match this
      case ZipArchive(z) => z.Name(i)
      case DirArchive(d) => d.Name(i)
    }

    /** Decodes entry `i`: `openMember` reads a zip member through its
        reader, `openFile` a file by path. */
    function Load<P>(i: int, openMember: (Bytes, Bytes) -> Result<P>, openFile: Bytes -> Result<P>): (r: Result<P>)
      ensures !(0 <= i < Len()) ==> r == Err(Bounds)
      ensures 0 <= i < Len() && ZipArchive? ==> r == openMember(zip.reader, Names()[i])
      ensures 0 <= i < Len() && DirArchive? ==> r == openFile(Join(dir.path, Names()[i]))
    {
      match this
      case ZipArchive(z) => z.Load(i, openMember)
      case DirArchive(d) => d.Load(i, openFile)
    }
  }

  /** The entries of an opened archive are in natural order between any two
      positions, not only neighbouring ones. */
  lemma NamesInOrder(a: Archive, i: int, j: int)
    requires a.Valid() && 0 <= i < j < a.Len()
    ensures !Less(a.Names()[j], a.Names()[i])
  {
    FilenamesLessOrder();
    SortedAll(FilenamesLess, a.Names(), i, j);
  }

  /** Whether `NewArchive` hands `path` to the zip backend. */
  predicate IsZipPath(path: Bytes) {
    ToLower(Ext(path)) in ZipExtensions
  }

  /** What `NewArchive` promises: .zip and .cbz, in any case, open with
      `NewZip`; every other path, including a directory, is an unknown
      archive type. The directory backend is never chosen. */
  ghost predicate ArchiveOpened(path: Bytes, members: Result<seq<Bytes>>, exts: seq<Bytes>, r: Result<Archive>) {
    (!IsZipPath(path) ==> r == Err(UnknownArchiveType)) &&
    (IsZipPath(path) && r.Err? ==> ZipOpened(path, members, exts, Err(r.error))) &&
    (r.Ok? ==> IsZipPath(path) && r.value.ZipArchive? && ZipOpened(path, members, exts, Ok(r.value.zip)))
  }

  /** Whether opening `path` fails, whichever way it fails. */
  predicate OpenFails(path: Bytes, members: Result<seq<Bytes>>, exts: seq<Bytes>) {
    !IsZipPath(path) || members.Err? || Filter(members.value, exts) == []
  }

  /** `NewArchive`: dispatches on the lower-cased extension. */
  method NewArchive(path: Bytes, members: Result<seq<Bytes>>, exts: seq<Bytes>) returns (r: Result<Archive>)
    ensures ArchiveOpened(path, members, exts, r)
    ensures r.Err? <==> OpenFails(path, members, exts)
    ensures r.Ok? ==> r.value.Valid() && r.value.Len() >= 1
  {
    if IsZipPath(path) {
      var z := NewZip(path, members, exts);
      if z.Err? {
        return Err(z.error);
      }
      return Ok(ZipArchive(z.value));
    }
    return Err(UnknownArchiveType);
  }

  /** A path whose last element has no dot, as a directory usually has, is
      never opened as an archive. */
  lemma NoExtensionUnknown(path: Bytes)
    requires forall k :: LastSlash(path) < k < |path| ==> path[k] != Dot
    ensures !IsZipPath(path)
  {
    assert Ext(path) == [];
    assert ToLower(Ext(path)) == [];
  }
}

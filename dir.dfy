/** The directory backend: the image files of a directory, in natural
    order. */
module DirBackend {
  import opened Strings
  import opened Errors
  import opened Sorting
  import opened ArchiveUtil

  /** An opened directory. Its file list is fixed when it is opened. */
  class Dir {
    const filenames: seq<Bytes>
    const name: Bytes
    const path: Bytes

    constructor (filenames: seq<Bytes>, name: Bytes, path: Bytes)
      ensures this.filenames == filenames && this.name == name && this.path == path
    {
      this.filenames := filenames;
      this.name := name;
      this.path := path;
    }

    /** At least one file, sorted by natural order. */
    ghost predicate Valid() {
      |filenames| >= 1 && SortedBy(FilenamesLess, filenames)
    }

    /** `checkbounds`: the single bounds error for every index outside the
        file list. */
    function CheckBounds(i: int): (r: Option<Error>)
      ensures r.None? <==> 0 <= i < |filenames|
      ensures r.Some? ==> r.value == Bounds
    {
      if i < 0 || i >= |filenames| then Some(Bounds) else None
    }

    /** `Name`: the bare file name of entry `i`, after the bounds check. */
    function Name(i: int): (r: Result<Bytes>)
      ensures r.Ok? <==> 0 <= i < |filenames|
      ensures r.Ok? ==> r.value == filenames[i]
      ensures r.Err? ==> r.error == Bounds
    {
      var e := CheckBounds(i);
      if e.Some? then Err(e.value) else Ok(filenames[i])
    }

    function Len(): (r: nat)
      ensures r == |filenames|
      ensures Valid() ==> r >= 1
    {
      |filenames|
    }

    /** `Load`: opens and decodes the file `i` under the directory, after
        the bounds check. */
    function Load<P>(i: int, open: Bytes -> Result<P>): (r: Result<P>)
      ensures !(0 <= i < |filenames|) ==> r == Err(Bounds)
      ensures 0 <= i < |filenames| ==> r == open(Join(path, filenames[i]))
    {
      var e := CheckBounds(i);
      if e.Some? then Err(e.value) else open(Join(path, filenames[i]))
    }

    /** `Close` has nothing to release and never fails. */
    function Close(): (r: Option<Error>)
      ensures r == None
    {
      None
    }
  }

  /** `NewDir`: reads the directory, keeps the entries whose names carry an
      image extension (directories are not told apart), fails when none is
      left, and sorts the rest. */
  method NewDir(path: Bytes, entries: Result<seq<Bytes>>, exts: seq<Bytes>) returns (r: Result<Dir>)
    ensures entries.Err? ==> r == Err(entries.error)
    ensures entries.Ok? && Filter(entries.value, exts) == [] ==> r == Err(NoImagesInDir(Base(path)))
    ensures entries.Ok? && Filter(entries.value, exts) != [] ==>
      r.Ok? && r.value.Valid() && r.value.name == Base(path) && r.value.path == path &&
      multiset(r.value.filenames) == multiset(Filter(entries.value, exts))
  {
    var name := Base(path);
    if entries.Err? {
      return Err(entries.error);
    }
    var names := FilterNames(entries.value, exts);
    if |names| == 0 {
      return Err(NoImagesInDir(name));
    }
    FilenamesLessOrder();
    var sorted := SortNames(names, FilenamesLess);
    var d := new Dir(sorted, name, path);
    return Ok(d);
  }
}

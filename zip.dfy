/** The zip backend: the image members of a zip file, in natural order. */
module ZipBackend {
  import opened Strings
  import opened Errors
  import opened Sorting
  import opened ArchiveUtil

  /** An opened zip archive. The member list is fixed when the archive is
      opened; the reader handle is represented by the path it was opened
      from. */
  class Zip {
    const files: seq<Bytes>
    const reader: Bytes
    const name: Bytes

    constructor (files: seq<Bytes>, reader: Bytes, name: Bytes)
      ensures this.files == files && this.reader == reader && this.name == name
    {
      this.files := files;
      this.reader := reader;
      this.name := name;
    }

    /** At least one member, sorted by natural order of the names. */
    ghost predicate Valid() {
      |files| >= 1 && SortedBy(FilenamesLess, files)
    }

    /** `checkbounds`: the single bounds error for every index outside the
        member list. */
    function CheckBounds(i: int): (r: Option<Error>)
      ensures r.None? <==> 0 <= i < |files|
      ensures r.Some? ==> r.value == Bounds
    {
      if i < 0 || i >= |files| then Some(Bounds) else None
    }

    /** `Name`: the name of member `i`, after the bounds check. */
    function Name(i: int): (r: Result<Bytes>)
      ensures r.Ok? <==> 0 <= i < |files|
      ensures r.Ok? ==> r.value == files[i]
      ensures r.Err? ==> r.error == Bounds
    {
      var e := CheckBounds(i);
      if e.Some? then Err(e.value) else Ok(files[i])
    }

    /** `Len`: the number of image members. */
    function Len(): (r: nat)
      ensures r == |files|
      ensures Valid() ==> r >= 1
    {
      |files|
    }

    /** `Load`: decodes member `i`, after the bounds check; `open` stands for
        opening the member through the reader and decoding it. */
    function Load<P>(i: int, open: (Bytes, Bytes) -> Result<P>): (r: Result<P>)
      ensures !(0 <= i < |files|) ==> r == Err(Bounds)
      ensures 0 <= i < |files| ==> r == open(reader, files[i])
    {
      var e := CheckBounds(i);
      if e.Some? then Err(e.value) else open(reader, files[i])
    }
  }

  /** What `NewZip` promises for a path whose reader yields `members`. */
  ghost predicate ZipOpened(path: Bytes, members: Result<seq<Bytes>>, exts: seq<Bytes>, r: Result<Zip>) {
    (members.Err? ==> r == Err(members.error)) &&
    (members.Ok? && Filter(members.value, exts) == [] ==> r == Err(NoImagesInZip(Base(path)))) &&
    (members.Ok? && Filter(members.value, exts) != [] ==>
      r.Ok? && r.value.Valid() && r.value.name == Base(path) && r.value.reader == path &&
      multiset(r.value.files) == multiset(Filter(members.value, exts)))
  }

  /** `NewZip`: opens the reader, keeps the members whose names carry an
      image extension, fails when none is left, and sorts the rest. */
  method NewZip(path: Bytes, members: Result<seq<Bytes>>, exts: seq<Bytes>) returns (r: Result<Zip>)
    ensures ZipOpened(path, members, exts, r)
  {
    var name := Base(path);
    if members.Err? {
      return Err(members.error);
    }
    var files := FilterNames(members.value, exts);
    if |files| == 0 {
      return Err(NoImagesInZip(name));
    }
    FilenamesLessOrder();
    var sorted := SortNames(files, FilenamesLess);
    var z := new Zip(sorted, path, name);
    return Ok(z);
  }
}

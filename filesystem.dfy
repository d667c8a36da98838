/** The part of the local filesystem the data-preparation drivers see:
    regular files with opaque contents and directories, each addressed by the
    path of the folder that holds it and its name there. */
module FileSystems {
  import opened Wrappers
  import opened Paths

  type Bytes = seq<bv8>

  /** A directory entry: (path of the containing folder, entry name). A
      directory entry (p, n) is the folder whose own path is Join(p, n). */
  type Key = (string, string)

  /** The exceptions the drivers let escape. */
  datatype Error =
    | FileExists(entry: Key)       // os.makedirs where a regular file stands
    | NoSuchDirectory(entry: Key)  // os.listdir of a folder that does not exist
    | CannotOpen(entry: Key)       // PIL Image.open of a missing or undecodable file
    | MalformedBox(row: nat)       // unpacking a box cell that is not four numbers
    | InvertedBox(row: nat)        // PIL Image.crop of a rectangle whose right or lower edge comes first
    | CannotSave(entry: Key)       // PIL Image.save of an image that cannot be written as JPEG

  datatype Outcome = Done | Raised(error: Error)

  datatype Disk = Disk(files: map<Key, Bytes>, dirs: set<Key>) {

    /** No entry is both a regular file and a directory. */
    predicate Valid() {
      forall k :: k in files ==> k !in dirs
    }

    /** `os.path.exists`: a file or a directory stands at `k`. */
    predicate Exists(k: Key) {
      k in files || k in dirs
    }

    /** The names `os.listdir(folder)` reports: files and sub-directories. */
    function Entries(folder: string): (r: set<string>)
      ensures forall n :: n in r <==> (folder, n) in files || (folder, n) in dirs
    {
      var fs := set k | k in files && k.0 == folder :: k.1;
      var ds := set k | k in dirs && k.0 == folder :: k.1;
      assert forall n :: (folder, n) in files ==> n in fs;
      assert forall n :: (folder, n) in dirs ==> n in ds;
      fs + ds
    }

    /** The regular files directly inside `folder`. */
    function FilesIn(folder: string): (r: set<string>)
      ensures forall n :: n in r <==> (folder, n) in files
    {
      var fs := set k | k in files && k.0 == folder :: k.1;
      assert forall n :: (folder, n) in files ==> n in fs;
      fs
    }

    /** The bytes of the regular file at `k`; nothing for a directory or a
        missing entry. */
    function Read(k: Key): (r: Option<Bytes>)
      ensures r.Some? <==> k in files
      ensures r.Some? ==> r.value == files[k]
    {
      if k in files then Some(files[k]) else None
    }

    /** Reading the file at `k` and decoding it as an image. */
    function Load<Img>(k: Key, decode: Bytes -> Option<Img>): (r: Option<Img>)
      ensures r.Some? ==> k in files && r == decode(files[k])
      ensures k in files ==> r == decode(files[k])
    {
      match Read(k)
      case None => None
      case Some(b) => decode(b)
    }

    /** Writing `data` to the file at `k`, creating or replacing it; a
        directory standing at `k` is left as it is. */
    function Write(k: Key, data: Bytes): (d: Disk)
      ensures d.dirs == dirs
      ensures k !in dirs ==> d.files == files[k := data]
      ensures k in dirs ==> d == this
    {
      if k in dirs then this else Disk(files[k := data], dirs)
    }

    /** `os.makedirs(Join(k.0, k.1), exist_ok=True)`: creates the directory
        unless it exists, and raises when a regular file stands there. */
    function MakeDirs(k: Key): (r: Run)
      ensures r.outcome == Done <==> k !in files
      ensures r.outcome == Done ==> r.disk == Disk(files, dirs + {k})
      ensures r.outcome != Done ==> r == Run(this, Raised(FileExists(k)))
    {
      if k in files then Run(this, Raised(FileExists(k)))
      else Run(Disk(files, dirs + {k}), Done)
    }

    /** `later` keeps every directory and every file of this disk, with the
        same contents. */
    predicate GrowsTo(later: Disk) {
      && dirs <= later.dirs
      && forall k :: k in files ==> k in later.files && later.files[k] == files[k]
    }
  }

  /** The state a driver leaves behind, and whether it finished or raised. */
  datatype Run = Run(disk: Disk, outcome: Outcome)

  /** Writing into a file that is absent (and is not a directory) only adds. */
  lemma WriteAbsentGrows(d: Disk, k: Key, data: Bytes)
    requires !d.Exists(k)
    ensures d.GrowsTo(d.Write(k, data))
    ensures d.Write(k, data).files[k] == data
  {
  }

  lemma GrowsToTransitive(a: Disk, b: Disk, c: Disk)
    requires a.GrowsTo(b) && b.GrowsTo(c)
    ensures a.GrowsTo(c)
  {
  }

  /** The live filesystem the drivers act on. */
  class FileSystem {
    var files: map<Key, Bytes>
    var dirs: set<Key>

    function State(): Disk
      reads this
    {
      Disk(files, dirs)
    }

    ghost predicate Valid()
      reads this
    {
      State().Valid()
    }

    constructor (d: Disk)
      requires d.Valid()
      ensures Valid() && State() == d
    {
      files := d.files;
      dirs := d.dirs;
    }

    /** `os.makedirs(..., exist_ok=True)`. */
    method MakeDirs(k: Key) returns (outcome: Outcome)
      requires Valid()
      modifies this
      ensures Valid()
      ensures Run(State(), outcome) == old(State()).MakeDirs(k)
    {
      if k in files {
        outcome := Raised(FileExists(k));
      } else {
        dirs := dirs + {k};
        outcome := Done;
      }
    }

    /** `os.path.exists`. */
    method Exists(k: Key) returns (b: bool)
      ensures b <==> k in files || k in dirs
    {
      b := k in files || k in dirs;
    }

    /** `os.path.isdir`. */
    method IsDir(k: Key) returns (b: bool)
      ensures b <==> k in dirs
    {
      b := k in dirs;
    }

    /** `os.path.isfile`. */
    method IsFile(k: Key) returns (b: bool)
      ensures b <==> k in files
    {
      b := k in files;
    }

    /** Opening the file at `k` for reading. */
    method Read(k: Key) returns (r: Option<Bytes>)
      ensures r.Some? <==> k in files
      ensures r.Some? ==> r.value == files[k]
      ensures r == State().Read(k)
    {
      r := if k in files then Some(files[k]) else None;
    }

    /** Saving an encoded image at `k`. */
    method Write(k: Key, data: Bytes)
      requires Valid()
      modifies this
      ensures Valid()
      ensures State() == old(State()).Write(k, data)
    {
      if k !in dirs {
        files := files[k := data];
      }
    }

    /** `os.listdir(folder)`: every entry once, in an order the operating
        system chooses. */
    method ListDir(folder: string) returns (names: seq<string>)
      ensures IsListing(names, State().Entries(folder))
    {
      var entries := State().Entries(folder);
      var rest := entries;
      names := [];
      while rest != {}
        invariant rest <= entries
        invariant Distinct(names)
        invariant forall x :: x in names ==> x in entries && x !in rest
        invariant forall x :: x in entries ==> x in names || x in rest
        decreases |rest|
      {
        var x :| x in rest;
        names := names + [x];
        rest := rest - {x};
      }
    }
  }
}

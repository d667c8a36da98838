/** The class counter `count_files_per_class`: the number of regular files
    in every class folder under a base folder, as a dictionary ordered by
    decreasing count. */
module Counts {
  import opened Paths
  import opened FileSystems

  /** One item of the returned dictionary. */
  datatype ClassCount = ClassCount(name: string, count: nat)

  /** No two items share a name: they are the keys of a dictionary. */
  predicate UniqueNames(s: seq<ClassCount>) {
    forall i, j :: 0 <= i < j < |s| ==> s[i].name != s[j].name
  }

  predicate SortedByCountDesc(s: seq<ClassCount>) {
    forall i, j :: 0 <= i < j < |s| ==> s[i].count >= s[j].count
  }

  /** The items of `s` whose count is `c`, in their order in `s`. */
  function WithCount(s: seq<ClassCount>, c: nat): seq<ClassCount> {
    if s == [] then [] else (if s[0].count == c then [s[0]] else []) + WithCount(s[1..], c)
  }

  /** Puts `x` into the sorted `s` ahead of every item whose count is not
      larger than its own. */
  function Insert(x: ClassCount, s: seq<ClassCount>): (r: seq<ClassCount>)
    requires SortedByCountDesc(s)
    ensures SortedByCountDesc(r)
    ensures multiset(r) == multiset(s) + multiset{x}
    ensures forall y :: y in r <==> y == x || y in s
  {
    if s == [] || x.count >= s[0].count then
      ConsSorted(x, s);
      [x] + s
    else
      var rest := Insert(x, s[1..]);
      InsertBelowHead(x, s, rest);
      [s[0]] + rest
  }

  /** Putting the head back in front of the tail's insertion keeps the
      order, the items and their multiplicities. */
  lemma InsertBelowHead(x: ClassCount, s: seq<ClassCount>, rest: seq<ClassCount>)
    requires SortedByCountDesc(s) && s != [] && x.count < s[0].count
    requires SortedByCountDesc(rest) && forall y :: y in rest <==> y == x || y in s[1..]
    requires multiset(rest) == multiset(s[1..]) + multiset{x}
    ensures SortedByCountDesc([s[0]] + rest)
    ensures multiset([s[0]] + rest) == multiset(s) + multiset{x}
    ensures forall y :: y in [s[0]] + rest <==> y == x || y in s
  {
    assert s == [s[0]] + s[1..];
    ConsSorted(s[0], rest);
  }

  /** An item with a count no smaller than any item of a sorted list can go
      first. */
  lemma ConsSorted(h: ClassCount, t: seq<ClassCount>)
    requires SortedByCountDesc(t)
    requires forall y :: y in t ==> y.count <= h.count
    ensures SortedByCountDesc([h] + t)
  {
    var r := [h] + t;
    assert forall j :: 1 <= j < |r| ==> r[j] == t[j - 1];
  }

  /** `sorted(items, key=count, reverse=True)`: a stable sort into
      decreasing count. */
  function SortByCountDesc(s: seq<ClassCount>): (r: seq<ClassCount>)
    ensures SortedByCountDesc(r)
    ensures multiset(r) == multiset(s)
    ensures forall y :: y in r <==> y in s
  {
    if s == [] then [] else
      assert s == [s[0]] + s[1..];
      Insert(s[0], SortByCountDesc(s[1..]))
  }

  /** Inserting puts the item first among the items of its count. */
  lemma {:induction false} InsertWithCount(x: ClassCount, s: seq<ClassCount>, c: nat)
    requires SortedByCountDesc(s)
    ensures WithCount(Insert(x, s), c) == (if x.count == c then [x] else []) + WithCount(s, c)
  {
    if s == [] || x.count >= s[0].count {
      WithCountCons(x, s, c);
    } else {
      var rest := Insert(x, s[1..]);
      InsertWithCount(x, s[1..], c);
      WithCountCons(s[0], rest, c);
      WithCountCons(s[0], s[1..], c);
      assert [s[0]] + s[1..] == s;
    }
  }

  /** WithCount unfolded once. */
  lemma WithCountCons(h: ClassCount, t: seq<ClassCount>, c: nat)
    ensures WithCount([h] + t, c) == (if h.count == c then [h] else []) + WithCount(t, c)
  {
    assert ([h] + t)[1..] == t;
  }

  /** Stability: the items of any one count keep their original order. */
  lemma {:induction false} SortIsStable(s: seq<ClassCount>, c: nat)
    ensures WithCount(SortByCountDesc(s), c) == WithCount(s, c)
  {
    if s != [] {
      SortIsStable(s[1..], c);
      InsertWithCount(s[0], SortByCountDesc(s[1..]), c);
    }
  }

  /** Inserting an item with a new name keeps the names unique. */
  lemma {:induction false} InsertUnique(x: ClassCount, s: seq<ClassCount>)
    requires SortedByCountDesc(s) && UniqueNames(s)
    requires forall y :: y in s ==> y.name != x.name
    ensures UniqueNames(Insert(x, s))
  {
    if s == [] || x.count >= s[0].count {
      ConsUnique(x, s);
    } else {
      var rest := Insert(x, s[1..]);
      assert forall y :: y in s[1..] ==> y in s;
      InsertUnique(x, s[1..]);
      forall y | y in rest
        ensures y.name != s[0].name
      {
        if y != x {
          var j :| 0 <= j < |s[1..]| && s[1..][j] == y;
          assert s[j + 1] == y;
        }
      }
      ConsUnique(s[0], rest);
    }
  }

  /** An item whose name is new can go in front of a list with unique names. */
  lemma ConsUnique(h: ClassCount, t: seq<ClassCount>)
    requires UniqueNames(t) && forall y :: y in t ==> y.name != h.name
    ensures UniqueNames([h] + t)
  {
    var r := [h] + t;
    forall i, j | 0 <= i < j < |r|
      ensures r[i].name != r[j].name
    {
      assert r[j] == t[j - 1];
      if i > 0 {
        assert r[i] == t[i - 1];
      }
    }
  }

  /** Sorting keeps the names unique. */
  lemma {:induction false} SortUnique(s: seq<ClassCount>)
    requires UniqueNames(s)
    ensures UniqueNames(SortByCountDesc(s))
  {
    if s != [] {
      SortUnique(s[1..]);
      assert forall y :: y in s[1..] ==> y.name != s[0].name;
      InsertUnique(s[0], SortByCountDesc(s[1..]));
    }
  }

  /** The item `count_files_per_class` records for the class folder `name`. */
  function Item(d: Disk, base: string, name: string): ClassCount {
    ClassCount(name, |d.FilesIn(Join(base, name))|)
  }

  /** The dictionary `class_counts` in insertion order, for the listing
      `names` of `base`: one item per listed sub-directory. */
  function ClassCounts(d: Disk, base: string, names: seq<string>): seq<ClassCount> {
    if names == [] then []
    else
      var last := names[|names| - 1];
      ClassCounts(d, base, names[..|names| - 1]) + (if (base, last) in d.dirs then [Item(d, base, last)] else [])
  }

  /** The items follow the listing, one per listed sub-directory, each with
      the number of regular files in that sub-directory. */
  lemma ClassCountsItems(d: Disk, base: string, names: seq<string>)
    requires Distinct(names)
    ensures UniqueNames(ClassCounts(d, base, names))
    ensures forall item :: item in ClassCounts(d, base, names) ==>
      item.name in names && (base, item.name) in d.dirs && item == Item(d, base, item.name)
    ensures forall x :: x in names && (base, x) in d.dirs ==> Item(d, base, x) in ClassCounts(d, base, names)
  {
    ClassCountsUnique(d, base, names);
    ClassCountsSound(d, base, names);
    ClassCountsComplete(d, base, names);
  }

  /** ClassCounts unfolded once: the items of all but the last name, then
      the item of the last name when it is a sub-directory. */
  lemma ClassCountsLast(d: Disk, base: string, names: seq<string>)
    requires names != []
    ensures var last := names[|names| - 1];
      ClassCounts(d, base, names)
        == ClassCounts(d, base, names[..|names| - 1]) + (if (base, last) in d.dirs then [Item(d, base, last)] else [])
  {
  }

  /** Every item is that of a listed sub-directory. */
  lemma {:induction false} ClassCountsSound(d: Disk, base: string, names: seq<string>)
    ensures forall item :: item in ClassCounts(d, base, names) ==>
      item.name in names && (base, item.name) in d.dirs && item == Item(d, base, item.name)
  {
    if names != [] {
      var prefix, last := names[..|names| - 1], names[|names| - 1];
      ClassCountsSound(d, base, prefix);
      ClassCountsLast(d, base, names);
      var pre := ClassCounts(d, base, prefix);
      forall item | item in ClassCounts(d, base, names)
        ensures item.name in names && (base, item.name) in d.dirs && item == Item(d, base, item.name)
      {
        if item in pre {
          assert item.name in prefix;
          assert prefix <= names;
        } else {
          assert item == Item(d, base, last);
        }
      }
    }
  }

  /** Every listed sub-directory has its item. */
  lemma ClassCountsComplete(d: Disk, base: string, names: seq<string>)
    ensures forall x :: x in names && (base, x) in d.dirs ==> Item(d, base, x) in ClassCounts(d, base, names)
  {
    forall x | x in names && (base, x) in d.dirs
      ensures Item(d, base, x) in ClassCounts(d, base, names)
    {
      var i :| 0 <= i < |names| && names[i] == x;
      ClassCountsHas(d, base, names, i);
    }
  }

  /** The sub-directory at position `i` of the listing has its item. */
  lemma {:induction false} ClassCountsHas(d: Disk, base: string, names: seq<string>, i: nat)
    requires i < |names| && (base, names[i]) in d.dirs
    ensures Item(d, base, names[i]) in ClassCounts(d, base, names)
  {
    var prefix := names[..|names| - 1];
    ClassCountsLast(d, base, names);
    if i < |names| - 1 {
      assert prefix[i] == names[i];
      ClassCountsHas(d, base, prefix, i);
      MemberOfAppend(Item(d, base, names[i]), ClassCounts(d, base, prefix),
        if (base, names[|names| - 1]) in d.dirs then [Item(d, base, names[|names| - 1])] else []);
    }
  }

  /** A listing without repeats gives items with unique names. */
  lemma {:induction false} ClassCountsUnique(d: Disk, base: string, names: seq<string>)
    requires Distinct(names)
    ensures UniqueNames(ClassCounts(d, base, names))
  {
    if names != [] {
      var prefix, last := names[..|names| - 1], names[|names| - 1];
      assert names == prefix + [last];
      assert Distinct(prefix) && last !in prefix;
      ClassCountsUnique(d, base, prefix);
      ClassCountsSound(d, base, prefix);
      ClassCountsLast(d, base, names);
      var pre := ClassCounts(d, base, prefix);
      if (base, last) in d.dirs {
        UniqueAppend(pre, Item(d, base, last));
      } else {
        assert pre + [] == pre;
      }
    }
  }

  /** Membership in a concatenation. */
  lemma MemberOfAppend<T>(x: T, s: seq<T>, t: seq<T>)
    ensures x in s + t <==> x in s || x in t
  {
    if x in s + t {
      var i :| 0 <= i < |s + t| && (s + t)[i] == x;
      if i >= |s| {
        assert t[i - |s|] == x;
      }
    }
    if x in t {
      var i :| 0 <= i < |t| && t[i] == x;
      assert (s + t)[|s| + i] == x;
    }
  }

  /** An item whose name is new can be added to a list with unique names. */
  lemma UniqueAppend(s: seq<ClassCount>, x: ClassCount)
    requires UniqueNames(s) && forall y :: y in s ==> y.name != x.name
    ensures UniqueNames(s + [x])
  {
    var r := s + [x];
    forall i, j | 0 <= i < j < |r|
      ensures r[i].name != r[j].name
    {
      assert r[i] == s[i];
      if j == |s| {
        assert s[i] in s;
      }
    }
  }

  /** The regular files of `folder` among `names`. */
  ghost function FilesAmong(d: Disk, folder: string, names: seq<string>): set<string> {
    set f | f in names && (folder, f) in d.files
  }

  /** How many of `names` are regular files of `folder`. */
  function FileCount(d: Disk, folder: string, names: seq<string>): nat {
    if names == [] then 0
    else
      FileCount(d, folder, names[..|names| - 1]) + (if (folder, names[|names| - 1]) in d.files then 1 else 0)
  }

  lemma {:induction false} FileCountIsSize(d: Disk, folder: string, names: seq<string>)
    requires Distinct(names)
    ensures FileCount(d, folder, names) == |FilesAmong(d, folder, names)|
  {
    if names != [] {
      var prefix, last := names[..|names| - 1], names[|names| - 1];
      assert names == prefix + [last];
      assert Distinct(prefix);
      FileCountIsSize(d, folder, prefix);
      assert last !in FilesAmong(d, folder, prefix);
      if (folder, last) in d.files {
        assert FilesAmong(d, folder, names) == FilesAmong(d, folder, prefix) + {last};
      } else {
        assert FilesAmong(d, folder, names) == FilesAmong(d, folder, prefix);
      }
    }
  }

  /** Counting over a full listing counts every regular file of the folder. */
  lemma ListingCountsAllFiles(d: Disk, folder: string, names: seq<string>)
    requires IsListing(names, d.Entries(folder))
    ensures FileCount(d, folder, names) == |d.FilesIn(folder)|
  {
    FileCountIsSize(d, folder, names);
    assert FilesAmong(d, folder, names) == d.FilesIn(folder);
  }

  /** The number of regular files directly inside `folder`; sub-directories
      do not count. */
  method CountFiles(fs: FileSystem, folder: string) returns (k: nat)
    ensures k == |fs.State().FilesIn(folder)|
  {
    var names := fs.ListDir(folder);
    k := 0;
    var i := 0;
    while i < |names|
      invariant 0 <= i <= |names|
      invariant k == FileCount(fs.State(), folder, names[..i])
    {
      assert names[..i + 1][..i] == names[..i];
      var isFile := fs.IsFile((folder, names[i]));
      if isFile {
        k := k + 1;
      }
      i := i + 1;
    }
    assert names[..|names|] == names;
    ListingCountsAllFiles(fs.State(), folder, names);
  }

  /** The body of `count_files_per_class` once `base_folder` is known to
      be a directory: count the files of every listed sub-directory, then
      sort. Also returns the listing it worked through, whose order the
      operating system chooses (it decides the order among equal counts). */
  method CountClasses(fs: FileSystem, baseFolder: string) returns (counts: seq<ClassCount>, listing: seq<string>)
    ensures IsListing(listing, fs.State().Entries(baseFolder))
    ensures counts == SortByCountDesc(ClassCounts(fs.State(), baseFolder, listing))
    ensures SortedByCountDesc(counts) && UniqueNames(counts)
    ensures forall item :: item in counts ==>
      (baseFolder, item.name) in fs.dirs && item.count == |fs.State().FilesIn(Join(baseFolder, item.name))|
    ensures forall x :: (baseFolder, x) in fs.dirs ==> Item(fs.State(), baseFolder, x) in counts
    ensures forall c: nat :: WithCount(counts, c) == WithCount(ClassCounts(fs.State(), baseFolder, listing), c)
  {
    listing := fs.ListDir(baseFolder);
    var classCounts: seq<ClassCount> := [];
    var i := 0;
    while i < |listing|
      invariant 0 <= i <= |listing|
      invariant classCounts == ClassCounts(fs.State(), baseFolder, listing[..i])
    {
      var className := listing[i];
      assert listing[..i + 1][..i] == listing[..i];
      var isDir := fs.IsDir((baseFolder, className));
      if isDir {
        var numFiles := CountFiles(fs, Join(baseFolder, className));
        classCounts := classCounts + [ClassCount(className, numFiles)];
      }
      i := i + 1;
    }
    assert listing[..|listing|] == listing;
    counts := SortByCountDesc(classCounts);
    ClassCountsItems(fs.State(), baseFolder, listing);
    SortUnique(classCounts);
    forall c: nat ensures WithCount(counts, c) == WithCount(classCounts, c) {
      SortIsStable(classCounts, c);
    }
  }

  /** `count_files_per_class(base_folder)`, with the base folder given as
      the entry (parent, name). A missing base folder raises, as listing it
      does; otherwise the result is that of CountClasses. */
  method CountFilesPerClass(fs: FileSystem, baseParent: string, baseName: string)
    returns (outcome: Outcome, counts: seq<ClassCount>, listing: seq<string>)
    ensures outcome.Done? <==> (baseParent, baseName) in fs.dirs
    ensures outcome.Raised? ==> outcome.error == NoSuchDirectory((baseParent, baseName)) && counts == []
    ensures outcome.Done? ==>
      var baseFolder := Join(baseParent, baseName);
      && IsListing(listing, fs.State().Entries(baseFolder))
      && counts == SortByCountDesc(ClassCounts(fs.State(), baseFolder, listing))
      && SortedByCountDesc(counts) && UniqueNames(counts)
      && (forall item :: item in counts ==>
            (baseFolder, item.name) in fs.dirs && item.count == |fs.State().FilesIn(Join(baseFolder, item.name))|)
      && (forall x :: (baseFolder, x) in fs.dirs ==> Item(fs.State(), baseFolder, x) in counts)
      && (forall c: nat :: WithCount(counts, c) == WithCount(ClassCounts(fs.State(), baseFolder, listing), c))
  {
    if (baseParent, baseName) !in fs.dirs {
      return Raised(NoSuchDirectory((baseParent, baseName))), [], [];
    }
    counts, listing := CountClasses(fs, Join(baseParent, baseName));
    outcome := Done;
  }

  /** Classes of two and five files come out as {"cat": 5, "dog": 2}. */
  lemma CountExample()
    ensures SortByCountDesc([ClassCount("dog", 2), ClassCount("cat", 5)]) == [ClassCount("cat", 5), ClassCount("dog", 2)]
  {
  }
}

/** The augmentation drivers `apply_augmentations_for_class` and
    `apply_static_augmentations_for_class`: every readable image of a class
    folder yields `num_augmentations` transformed copies named
    `{stem}_aug{i}.jpg`, written whether or not a file of that name exists. */
module Augment {
  import opened Wrappers
  import opened Paths
  import opened FileSystems

  /** The steps of an albumentations pipeline, with the probabilities and
      limits the static driver gives them. */
  datatype Transform =
    | HorizontalFlip(p: real)
    | RandomBrightnessContrast(p: real)
    | Rotate(limit: int, p: real)
    | GaussNoise(p: real)

  /** The pipeline `apply_static_augmentations_for_class` builds. */
  const StaticPipeline: seq<Transform> :=
    [HorizontalFlip(0.5), RandomBrightnessContrast(0.2), Rotate(20, 0.5), GaussNoise(0.2)]

  /** `A.Compose(pipeline)` applied to an image for draw number `draw`: the
      steps in order, the effect of step `t` in that draw given by
      `apply(t, img, draw)`. */
  function Compose<Img>(pipeline: seq<Transform>, apply: (Transform, Img, nat) -> Img, img: Img, draw: nat): Img
  {
    if pipeline == [] then img else Compose(pipeline[1..], apply, apply(pipeline[0], img, draw), draw)
  }

  /** The static pipeline flips first and adds noise last. */
  lemma StaticPipelineOrder<Img>(apply: (Transform, Img, nat) -> Img, img: Img, draw: nat)
    ensures Compose(StaticPipeline, apply, img, draw)
         == apply(GaussNoise(0.2), apply(Rotate(20, 0.5), apply(RandomBrightnessContrast(0.2), apply(HorizontalFlip(0.5), img, draw), draw), draw), draw)
  {
    var p := StaticPipeline;
    var x1 := apply(HorizontalFlip(0.5), img, draw);
    var x2 := apply(RandomBrightnessContrast(0.2), x1, draw);
    var x3 := apply(Rotate(20, 0.5), x2, draw);
    var x4 := apply(GaussNoise(0.2), x3, draw);
    assert p[1..][1..][1..][1..] == [];
    assert Compose(p[1..][1..][1..], apply, x3, draw) == x4;
    assert Compose(p[1..][1..], apply, x2, draw) == x4;
    assert Compose(p[1..], apply, x1, draw) == x4;
  }

  function StaticTransform<Img>(apply: (Transform, Img, nat) -> Img): (Img, nat) -> Img {
    (img: Img, draw: nat) => Compose(StaticPipeline, apply, img, draw)
  }

  /** The file name of draw `i` of an image: its stem, "_aug", the draw
      number in decimal, and ".jpg". */
  function AugName(stem: string, i: nat): (r: string)
    ensures IsExtSplit(r, stem + "_aug" + NatToString(i), ".jpg")
  {
    var base := stem + "_aug" + NatToString(i);
    StemOfJpg(base);
    base + ".jpg"
  }

  /** Distinct draws of one image, and images of distinct stems, get
      distinct output names. */
  lemma AugNameInjective(s1: string, i1: nat, s2: string, i2: nat)
    requires AugName(s1, i1) == AugName(s2, i2)
    ensures s1 == s2 && i1 == i2
  {
    var n1, n2 := NatToString(i1), NatToString(i2);
    var t1, t2 := "aug" + n1, "aug" + n2;
    var b1, b2 := s1 + "_aug" + n1, s2 + "_aug" + n2;
    var r := AugName(s1, i1);
    assert b1 + ".jpg" == r == b2 + ".jpg";
    assert b1 == r[..|r| - 4] == b2;
    NoUnderscoreInAug(n1);
    NoUnderscoreInAug(n2);
    assert s1 + "_aug" + n1 == s1 + ['_'] + t1;
    assert s2 + "_aug" + n2 == s2 + ['_'] + t2;
    SplitAtLast(s1, t1, s2, t2, '_');
    assert n1 == t1[3..] && n2 == t2[3..];
    NatToStringInjective(i1, i2);
  }

  lemma NoUnderscoreInAug(n: string)
    requires AllDigits(n)
    ensures '_' !in "aug" + n
  {
    assert forall j :: 3 <= j < 3 + |n| ==> ("aug" + n)[j] == n[j - 3];
  }

  /** The output entries of one image: `{stem}_aug{i}.jpg` for i in [0, n). */
  function AugOutputs(outputFolder: string, stem: string, n: nat): set<Key> {
    set i: nat | i < n :: (outputFolder, AugName(stem, i))
  }

  /** One image has exactly `n` output entries. */
  lemma AugOutputsCount(outputFolder: string, stem: string, n: nat)
    ensures |AugOutputs(outputFolder, stem, n)| == n
  {
    var f := (i: nat) => (outputFolder, AugName(stem, i));
    forall i: nat, j: nat | i < n && j < n && f(i) == f(j)
      ensures i == j
    {
      AugNameInjective(stem, i, stem, j);
    }
    InjectiveImageCount(f, n);
    var image := set i: nat | i < n :: f(i);
    forall x | x in image
      ensures x in AugOutputs(outputFolder, stem, n)
    {
      var i: nat :| i < n && x == f(i);
      assert x == (outputFolder, AugName(stem, i));
    }
    forall x | x in AugOutputs(outputFolder, stem, n)
      ensures x in image
    {
      var i: nat :| i < n && x == (outputFolder, AugName(stem, i));
      assert x == f(i);
    }
    assert AugOutputs(outputFolder, stem, n) == image;
  }

  /** An injective function maps `n` numbers to `n` values. */
  lemma {:induction false} InjectiveImageCount<T>(f: nat -> T, n: nat)
    requires forall i: nat, j: nat :: i < n && j < n && f(i) == f(j) ==> i == j
    ensures |set i: nat | i < n :: f(i)| == n
  {
    if n > 0 {
      var m: nat := n - 1;
      InjectiveImageCount(f, m);
      var before := set i: nat | i < m :: f(i);
      assert (set i: nat | i < n :: f(i)) == before + {f(m)};
      assert f(m) !in before;
    }
  }

  /** The inner loop: draws `i` to `n - 1` of one image, each saved under
      its own name, replacing whatever file was there. */
  function WriteAugs<Img>(d: Disk, outputFolder: string, stem: string, img: Img, i: nat, n: int,
                          transform: (Img, nat) -> Img, encode: Img -> Bytes): Disk
    decreases n - i
  {
    if i >= n then d
    else WriteAugs(d.Write((outputFolder, AugName(stem, i)), encode(transform(img, i))),
                   outputFolder, stem, img, i + 1, n, transform, encode)
  }

  /** The outer loop: the listed images from number `k` on, skipping those
      that cannot be read or decoded. */
  function AugmentFrom<Img>(d: Disk, inputFolder: string, outputFolder: string, names: seq<string>, k: nat, n: int,
                            transform: (Img, nat) -> Img, decode: Bytes -> Option<Img>, encode: Img -> Bytes): Disk
    decreases |names| - k
  {
    if k >= |names| then d
    else
      var img := d.Load((inputFolder, names[k]), decode);
      var d' := if img.None? then d else WriteAugs(d, outputFolder, Stem(names[k]), img.value, 0, n, transform, encode);
      AugmentFrom(d', inputFolder, outputFolder, names, k + 1, n, transform, decode, encode)
  }

  /** The whole driver with `names` as the listing of the input folder:
      create the output folder, list the input folder, run the loop. */
  function AugmentRun<Img>(d: Disk, className: string, inputRoot: string, outputRoot: string, names: seq<string>, n: int,
                           transform: (Img, nat) -> Img, decode: Bytes -> Option<Img>, encode: Img -> Bytes): Run
  {
    var made := d.MakeDirs((outputRoot, className));
    if made.outcome.Raised? then made
    else if (inputRoot, className) !in made.disk.dirs then Run(made.disk, Raised(NoSuchDirectory((inputRoot, className))))
    else Run(AugmentFrom(made.disk, Join(inputRoot, className), Join(outputRoot, className), names, 0, n, transform, decode, encode), Done)
  }

  /** `apply_augmentations_for_class(class_name, input_root, output_root,
      transform, num_augmentations)`, with the image codec as `decode` and
      `encode`. Also returns the listing of the input folder it worked
      through, whose order the operating system chooses. */
  method ApplyAugmentationsForClass<Img>(fs: FileSystem, className: string, inputRoot: string, outputRoot: string,
                                         transform: (Img, nat) -> Img, numAugmentations: int,
                                         decode: Bytes -> Option<Img>, encode: Img -> Bytes)
    returns (outcome: Outcome, listing: seq<string>)
    requires fs.Valid()
    modifies fs
    ensures fs.Valid()
    ensures Run(fs.State(), outcome)
         == AugmentRun(old(fs.State()), className, inputRoot, outputRoot, listing, numAugmentations, transform, decode, encode)
    ensures outcome.Done? ==>
      IsListing(listing, old(fs.State()).MakeDirs((outputRoot, className)).disk.Entries(Join(inputRoot, className)))
  {
    var inputFolder := Join(inputRoot, className);
    var outputFolder := Join(outputRoot, className);
    listing := [];
    outcome := fs.MakeDirs((outputRoot, className));
    if outcome.Raised? {
      return;
    }
    var isDir := fs.IsDir((inputRoot, className));
    if !isDir {
      outcome := Raised(NoSuchDirectory((inputRoot, className)));
      return;
    }
    ghost var start := fs.State();
    listing := fs.ListDir(inputFolder);
    var k := 0;
    while k < |listing|
      invariant 0 <= k <= |listing|
      invariant fs.Valid()
      invariant AugmentFrom(fs.State(), inputFolder, outputFolder, listing, k, numAugmentations, transform, decode, encode)
             == AugmentFrom(start, inputFolder, outputFolder, listing, 0, numAugmentations, transform, decode, encode)
    {
      var imgName := listing[k];
      var bytes := fs.Read((inputFolder, imgName));
      var img := if bytes.Some? then decode(bytes.value) else None;
      if img.None? {
        k := k + 1;
        continue;
      }
      var stem := Stem(imgName);
      ghost var before := fs.State();
      var i := 0;
      while i < numAugmentations
        invariant fs.Valid()
        invariant WriteAugs(fs.State(), outputFolder, stem, img.value, i, numAugmentations, transform, encode)
               == WriteAugs(before, outputFolder, stem, img.value, 0, numAugmentations, transform, encode)
        decreases numAugmentations - i
      {
        var augmented := transform(img.value, i);
        fs.Write((outputFolder, AugName(stem, i)), encode(augmented));
        i := i + 1;
      }
      k := k + 1;
    }
  }

  /** `apply_static_augmentations_for_class`: the same driver with the fixed
      pipeline of flip, brightness/contrast, rotation and noise. */
  method ApplyStaticAugmentationsForClass<Img>(fs: FileSystem, className: string, inputRoot: string, outputRoot: string,
                                               numAugmentations: int, apply: (Transform, Img, nat) -> Img,
                                               decode: Bytes -> Option<Img>, encode: Img -> Bytes)
    returns (outcome: Outcome, listing: seq<string>)
    requires fs.Valid()
    modifies fs
    ensures fs.Valid()
    ensures Run(fs.State(), outcome)
         == AugmentRun(old(fs.State()), className, inputRoot, outputRoot, listing, numAugmentations, StaticTransform(apply), decode, encode)
    ensures outcome.Done? ==>
      IsListing(listing, old(fs.State()).MakeDirs((outputRoot, className)).disk.Entries(Join(inputRoot, className)))
  {
    outcome, listing := ApplyAugmentationsForClass(fs, className, inputRoot, outputRoot, StaticTransform(apply),
                                                   numAugmentations, decode, encode);
  }

  // ---------------------------------------------------------------------
  // What the loops do to the disk

  /** The entry `k` is new in `after`, or holds other bytes than before. */
  predicate Changed(before: Disk, after: Disk, k: Key) {
    k in after.files && (k !in before.files || after.files[k] != before.files[k])
  }

  /** The inner loop keeps the directories and every file, and a well
      formed disk stays well formed. */
  lemma {:induction false} WriteAugsKeeps<Img>(d: Disk, outputFolder: string, stem: string, img: Img, i: nat, n: int,
                                               transform: (Img, nat) -> Img, encode: Img -> Bytes)
    ensures var r := WriteAugs(d, outputFolder, stem, img, i, n, transform, encode);
      && (d.Valid() ==> r.Valid()) && r.dirs == d.dirs
      && (forall k :: k in d.files ==> k in r.files)
    decreases n - i
  {
    if i < n {
      var d' := d.Write((outputFolder, AugName(stem, i)), encode(transform(img, i)));
      WriteAugsKeeps(d', outputFolder, stem, img, i + 1, n, transform, encode);
    }
  }

  /** The inner loop changes only the output entries of draws `i` to
      `n - 1`. */
  lemma {:induction false} WriteAugsChanges<Img>(d: Disk, outputFolder: string, stem: string, img: Img, i: nat, n: int,
                                                 transform: (Img, nat) -> Img, encode: Img -> Bytes)
    ensures var r := WriteAugs(d, outputFolder, stem, img, i, n, transform, encode);
      forall k :: Changed(d, r, k) ==> k.0 == outputFolder && exists j: nat :: i <= j < n && k.1 == AugName(stem, j)
    decreases n - i
  {
    if i < n {
      var key := (outputFolder, AugName(stem, i));
      var d' := d.Write(key, encode(transform(img, i)));
      WriteAugsChanges(d', outputFolder, stem, img, i + 1, n, transform, encode);
      var r := WriteAugs(d', outputFolder, stem, img, i + 1, n, transform, encode);
      forall k | Changed(d, r, k)
        ensures k.0 == outputFolder && exists j: nat :: i <= j < n && k.1 == AugName(stem, j)
      {
        if k == key {
          assert k.1 == AugName(stem, i);
        } else {
          assert Changed(d', r, k);
        }
      }
    }
  }

  /** The output entry of draw `j`, when it is not a directory, ends up
      holding that draw's encoded transformed image: no later draw has the
      same name. */
  lemma {:induction false} WriteAugsWritesDraw<Img>(d: Disk, outputFolder: string, stem: string, img: Img, i: nat, n: int,
                                                    transform: (Img, nat) -> Img, encode: Img -> Bytes, j: nat)
    requires i <= j < n && (outputFolder, AugName(stem, j)) !in d.dirs
    ensures var r := WriteAugs(d, outputFolder, stem, img, i, n, transform, encode);
      (outputFolder, AugName(stem, j)) in r.files && r.files[(outputFolder, AugName(stem, j))] == encode(transform(img, j))
    decreases n - i
  {
    var key := (outputFolder, AugName(stem, j));
    var d' := d.Write((outputFolder, AugName(stem, i)), encode(transform(img, i)));
    assert d'.dirs == d.dirs;
    if i == j {
      assert d'.files == d.files[key := encode(transform(img, j))];
      forall j': nat | i + 1 <= j' < n
        ensures key != (outputFolder, AugName(stem, j'))
      {
        if key.1 == AugName(stem, j') {
          AugNameInjective(stem, j', stem, j);
        }
      }
      WriteAugsLeaves(d', outputFolder, stem, img, i + 1, n, transform, encode, key);
    } else {
      WriteAugsWritesDraw(d', outputFolder, stem, img, i + 1, n, transform, encode, j);
    }
  }

  /** A file that no draw from `i` on is named after keeps its contents. */
  lemma {:induction false} WriteAugsLeaves<Img>(d: Disk, outputFolder: string, stem: string, img: Img, i: nat, n: int,
                                                transform: (Img, nat) -> Img, encode: Img -> Bytes, key: Key)
    requires key in d.files
    requires forall j: nat :: i <= j < n ==> key != (outputFolder, AugName(stem, j))
    ensures var r := WriteAugs(d, outputFolder, stem, img, i, n, transform, encode);
      key in r.files && r.files[key] == d.files[key]
    decreases n - i
  {
    if i < n {
      var d' := d.Write((outputFolder, AugName(stem, i)), encode(transform(img, i)));
      assert key != (outputFolder, AugName(stem, i));
      WriteAugsLeaves(d', outputFolder, stem, img, i + 1, n, transform, encode, key);
    }
  }

  /** Every output entry of draws `i` to `n - 1` that is not a directory
      ends up holding the encoded transformed image. */
  lemma WriteAugsWrites<Img>(d: Disk, outputFolder: string, stem: string, img: Img, i: nat, n: int,
                             transform: (Img, nat) -> Img, encode: Img -> Bytes)
    ensures var r := WriteAugs(d, outputFolder, stem, img, i, n, transform, encode);
      forall j: nat :: i <= j < n && (outputFolder, AugName(stem, j)) !in d.dirs ==>
        (outputFolder, AugName(stem, j)) in r.files && r.files[(outputFolder, AugName(stem, j))] == encode(transform(img, j))
  {
    forall j: nat | i <= j < n && (outputFolder, AugName(stem, j)) !in d.dirs
      ensures var r := WriteAugs(d, outputFolder, stem, img, i, n, transform, encode);
        (outputFolder, AugName(stem, j)) in r.files && r.files[(outputFolder, AugName(stem, j))] == encode(transform(img, j))
    {
      WriteAugsWritesDraw(d, outputFolder, stem, img, i, n, transform, encode, j);
    }
  }

  /** The inner loop keeps the directories and every file, and changes only
      the output entries of draws `i` to `n - 1`, each to the encoded
      transformed image. */
  lemma WriteAugsEffect<Img>(d: Disk, outputFolder: string, stem: string, img: Img, i: nat, n: int,
                             transform: (Img, nat) -> Img, encode: Img -> Bytes)
    requires d.Valid()
    ensures var r := WriteAugs(d, outputFolder, stem, img, i, n, transform, encode);
      && r.Valid() && r.dirs == d.dirs
      && (forall k :: k in d.files ==> k in r.files)
      && (forall k :: Changed(d, r, k) ==> k.0 == outputFolder && exists j: nat :: i <= j < n && k.1 == AugName(stem, j))
      && (forall j: nat :: i <= j < n && (outputFolder, AugName(stem, j)) !in d.dirs ==>
            (outputFolder, AugName(stem, j)) in r.files && r.files[(outputFolder, AugName(stem, j))] == encode(transform(img, j)))
  {
    WriteAugsKeeps(d, outputFolder, stem, img, i, n, transform, encode);
    WriteAugsChanges(d, outputFolder, stem, img, i, n, transform, encode);
    WriteAugsWrites(d, outputFolder, stem, img, i, n, transform, encode);
  }

  /** One pass of the outer loop, for image number `k`. */
  function AugmentOne<Img>(d: Disk, inputFolder: string, outputFolder: string, name: string, n: int,
                           transform: (Img, nat) -> Img, decode: Bytes -> Option<Img>, encode: Img -> Bytes): Disk
  {
    var img := d.Load((inputFolder, name), decode);
    if img.None? then d else WriteAugs(d, outputFolder, Stem(name), img.value, 0, n, transform, encode)
  }

  lemma AugmentFromStep<Img>(d: Disk, inputFolder: string, outputFolder: string, names: seq<string>, k: nat, n: int,
                             transform: (Img, nat) -> Img, decode: Bytes -> Option<Img>, encode: Img -> Bytes)
    requires k < |names|
    ensures AugmentFrom(d, inputFolder, outputFolder, names, k, n, transform, decode, encode)
         == AugmentFrom(AugmentOne(d, inputFolder, outputFolder, names[k], n, transform, decode, encode),
                        inputFolder, outputFolder, names, k + 1, n, transform, decode, encode)
  {
  }

  /** One pass changes only output entries of the image it reads, and leaves
      the input folder alone. */
  lemma AugmentOneEffect<Img>(d: Disk, inputFolder: string, outputFolder: string, name: string, n: int,
                              transform: (Img, nat) -> Img, decode: Bytes -> Option<Img>, encode: Img -> Bytes)
    requires d.Valid() && inputFolder != outputFolder
    ensures var r := AugmentOne(d, inputFolder, outputFolder, name, n, transform, decode, encode);
      && r.Valid() && r.dirs == d.dirs
      && (forall key :: key in d.files ==> key in r.files)
      && (forall key :: Changed(d, r, key) ==>
            && key.0 == outputFolder && d.Load((inputFolder, name), decode).Some?
            && exists i: nat :: i < n && key.1 == AugName(Stem(name), i))
      && (forall x :: r.Load((inputFolder, x), decode) == d.Load((inputFolder, x), decode))
      && (forall i: nat :: i < n && d.Load((inputFolder, name), decode).Some?
                           && (outputFolder, AugName(Stem(name), i)) !in d.dirs ==>
            (outputFolder, AugName(Stem(name), i)) in r.files)
  {
    var img := d.Load((inputFolder, name), decode);
    if img.Some? {
      WriteAugsEffect(d, outputFolder, Stem(name), img.value, 0, n, transform, encode);
      var r := AugmentOne(d, inputFolder, outputFolder, name, n, transform, decode, encode);
      forall x ensures r.Load((inputFolder, x), decode) == d.Load((inputFolder, x), decode) {
        assert !Changed(d, r, (inputFolder, x));
      }
    }
  }

  /** One pass keeps the disk well formed, its directories, and the image
      `x` of the input folder. */
  lemma AugmentOneFrame<Img>(d: Disk, inputFolder: string, outputFolder: string, name: string, n: int,
                             transform: (Img, nat) -> Img, decode: Bytes -> Option<Img>, encode: Img -> Bytes, x: string)
    requires d.Valid() && inputFolder != outputFolder
    ensures var r := AugmentOne(d, inputFolder, outputFolder, name, n, transform, decode, encode);
      r.Valid() && r.dirs == d.dirs && r.Load((inputFolder, x), decode) == d.Load((inputFolder, x), decode)
  {
    AugmentOneEffect(d, inputFolder, outputFolder, name, n, transform, decode, encode);
  }

  /** The outer loop keeps the directories and every file, also when it
      writes into the folder it reads from. */
  lemma {:induction false} AugmentFromKeeps<Img>(d: Disk, inputFolder: string, outputFolder: string, names: seq<string>, k: nat, n: int,
                                                 transform: (Img, nat) -> Img, decode: Bytes -> Option<Img>, encode: Img -> Bytes)
    requires d.Valid()
    ensures var r := AugmentFrom(d, inputFolder, outputFolder, names, k, n, transform, decode, encode);
      && r.Valid() && r.dirs == d.dirs
      && (forall key :: key in d.files ==> key in r.files)
    decreases |names| - k
  {
    if k < |names| {
      AugmentFromStep(d, inputFolder, outputFolder, names, k, n, transform, decode, encode);
      var img := d.Load((inputFolder, names[k]), decode);
      if img.Some? {
        WriteAugsEffect(d, outputFolder, Stem(names[k]), img.value, 0, n, transform, encode);
      }
      var d' := AugmentOne(d, inputFolder, outputFolder, names[k], n, transform, decode, encode);
      AugmentFromKeeps(d', inputFolder, outputFolder, names, k + 1, n, transform, decode, encode);
    }
  }

  /** The outer loop changes nothing but output entries of readable listed
      images. */
  lemma {:induction false} AugmentFromOnlyOutputs<Img>(d: Disk, inputFolder: string, outputFolder: string, names: seq<string>, k: nat, n: int,
                                                       transform: (Img, nat) -> Img, decode: Bytes -> Option<Img>, encode: Img -> Bytes)
    requires d.Valid() && inputFolder != outputFolder
    ensures var r := AugmentFrom(d, inputFolder, outputFolder, names, k, n, transform, decode, encode);
      forall key :: Changed(d, r, key) ==>
        && key.0 == outputFolder
        && exists j, i: nat :: k <= j < |names| && i < n && d.Load((inputFolder, names[j]), decode).Some?
                               && key.1 == AugName(Stem(names[j]), i)
    decreases |names| - k
  {
    if k < |names| {
      AugmentFromStep(d, inputFolder, outputFolder, names, k, n, transform, decode, encode);
      AugmentOneEffect(d, inputFolder, outputFolder, names[k], n, transform, decode, encode);
      var d' := AugmentOne(d, inputFolder, outputFolder, names[k], n, transform, decode, encode);
      AugmentFromOnlyOutputs(d', inputFolder, outputFolder, names, k + 1, n, transform, decode, encode);
      var r := AugmentFrom(d', inputFolder, outputFolder, names, k + 1, n, transform, decode, encode);
      forall key | Changed(d, r, key)
        ensures key.0 == outputFolder &&
          exists j, i: nat :: k <= j < |names| && i < n && d.Load((inputFolder, names[j]), decode).Some?
                              && key.1 == AugName(Stem(names[j]), i)
      {
        if Changed(d', r, key) {
          var j, i: nat :| k + 1 <= j < |names| && i < n && d'.Load((inputFolder, names[j]), decode).Some?
                           && key.1 == AugName(Stem(names[j]), i);
          assert d.Load((inputFolder, names[j]), decode).Some?;
        } else {
          assert Changed(d, d', key);
          var i: nat :| i < n && key.1 == AugName(Stem(names[k]), i);
        }
      }
    }
  }

  /** The outer loop writes every output entry (that is not a directory) of
      every readable listed image. */
  lemma {:induction false} AugmentFromWritesAll<Img>(d: Disk, inputFolder: string, outputFolder: string, names: seq<string>, k: nat, n: int,
                                                     transform: (Img, nat) -> Img, decode: Bytes -> Option<Img>, encode: Img -> Bytes)
    requires d.Valid() && inputFolder != outputFolder
    ensures var r := AugmentFrom(d, inputFolder, outputFolder, names, k, n, transform, decode, encode);
      forall j, i: nat :: k <= j < |names| && i < n && d.Load((inputFolder, names[j]), decode).Some?
                          && (outputFolder, AugName(Stem(names[j]), i)) !in d.dirs ==>
        (outputFolder, AugName(Stem(names[j]), i)) in r.files
    decreases |names| - k
  {
    if k < |names| {
      AugmentFromStep(d, inputFolder, outputFolder, names, k, n, transform, decode, encode);
      AugmentOneEffect(d, inputFolder, outputFolder, names[k], n, transform, decode, encode);
      var d' := AugmentOne(d, inputFolder, outputFolder, names[k], n, transform, decode, encode);
      AugmentFromWritesAll(d', inputFolder, outputFolder, names, k + 1, n, transform, decode, encode);
      AugmentFromKeeps(d', inputFolder, outputFolder, names, k + 1, n, transform, decode, encode);
    }
  }

  /** A file that no remaining listed image has an output name for keeps
      its contents through the rest of the loop. */
  lemma AugmentFromUntouched<Img>(d: Disk, inputFolder: string, outputFolder: string, names: seq<string>, k: nat, n: int,
                                  transform: (Img, nat) -> Img, decode: Bytes -> Option<Img>, encode: Img -> Bytes, key: Key)
    requires d.Valid() && inputFolder != outputFolder
    requires key in d.files
    requires forall j, i: nat :: k <= j < |names| && i < n ==> key.1 != AugName(Stem(names[j]), i)
    ensures var r := AugmentFrom(d, inputFolder, outputFolder, names, k, n, transform, decode, encode);
      key in r.files && r.files[key] == d.files[key]
  {
    AugmentFromKeeps(d, inputFolder, outputFolder, names, k, n, transform, decode, encode);
    AugmentFromOnlyOutputs(d, inputFolder, outputFolder, names, k, n, transform, decode, encode);
  }

  /** A readable listed image whose stem no other listed image shares ends
      up with all of its outputs holding its own transformed copy: earlier
      files of those names are overwritten. */
  lemma {:induction false} AugmentFromContent<Img>(d: Disk, inputFolder: string, outputFolder: string, names: seq<string>, k: nat, n: int,
                                                   transform: (Img, nat) -> Img, decode: Bytes -> Option<Img>, encode: Img -> Bytes,
                                                   j: nat, i: nat)
    requires d.Valid() && inputFolder != outputFolder
    requires k <= j < |names| && i < n
    requires forall j' :: k <= j' < |names| && j' != j ==> Stem(names[j']) != Stem(names[j])
    requires d.Load((inputFolder, names[j]), decode).Some?
    requires (outputFolder, AugName(Stem(names[j]), i)) !in d.dirs
    ensures var r := AugmentFrom(d, inputFolder, outputFolder, names, k, n, transform, decode, encode);
      && (outputFolder, AugName(Stem(names[j]), i)) in r.files
      && r.files[(outputFolder, AugName(Stem(names[j]), i))] == encode(transform(d.Load((inputFolder, names[j]), decode).value, i))
    decreases |names| - k, 1
  {
    if j == k {
      AugmentFromContentFirst(d, inputFolder, outputFolder, names, k, n, transform, decode, encode, i);
    } else {
      AugmentFromContentLater(d, inputFolder, outputFolder, names, k, n, transform, decode, encode, j, i);
    }
  }

  /** The case of AugmentFromContent where the image comes later in the
      listing: the pass over the first image keeps it and the directories. */
  lemma {:induction false} AugmentFromContentLater<Img>(d: Disk, inputFolder: string, outputFolder: string, names: seq<string>, k: nat, n: int,
                                                        transform: (Img, nat) -> Img, decode: Bytes -> Option<Img>, encode: Img -> Bytes,
                                                        j: nat, i: nat)
    requires d.Valid() && inputFolder != outputFolder
    requires k < j < |names| && i < n
    requires forall j' :: k <= j' < |names| && j' != j ==> Stem(names[j']) != Stem(names[j])
    requires d.Load((inputFolder, names[j]), decode).Some?
    requires (outputFolder, AugName(Stem(names[j]), i)) !in d.dirs
    ensures var r := AugmentFrom(d, inputFolder, outputFolder, names, k, n, transform, decode, encode);
      && (outputFolder, AugName(Stem(names[j]), i)) in r.files
      && r.files[(outputFolder, AugName(Stem(names[j]), i))] == encode(transform(d.Load((inputFolder, names[j]), decode).value, i))
    decreases |names| - k, 0
  {
    var d' := AugmentFromFirstPass(d, inputFolder, outputFolder, names, k, n, transform, decode, encode, names[j]);
    AugmentFromContent(d', inputFolder, outputFolder, names, k + 1, n, transform, decode, encode, j, i);
  }

  /** The outer loop after its first pass: the disk `d'` that pass leaves is
      well formed, has the same directories, and holds the same image `x` in
      the input folder. */
  lemma AugmentFromFirstPass<Img>(d: Disk, inputFolder: string, outputFolder: string, names: seq<string>, k: nat, n: int,
                                  transform: (Img, nat) -> Img, decode: Bytes -> Option<Img>, encode: Img -> Bytes, x: string)
    returns (d': Disk)
    requires d.Valid() && inputFolder != outputFolder && k < |names|
    ensures AugmentFrom(d, inputFolder, outputFolder, names, k, n, transform, decode, encode)
         == AugmentFrom(d', inputFolder, outputFolder, names, k + 1, n, transform, decode, encode)
    ensures d'.Valid() && d'.dirs == d.dirs && d'.Load((inputFolder, x), decode) == d.Load((inputFolder, x), decode)
  {
    d' := AugmentOne(d, inputFolder, outputFolder, names[k], n, transform, decode, encode);
    AugmentFromStep(d, inputFolder, outputFolder, names, k, n, transform, decode, encode);
    AugmentOneFrame(d, inputFolder, outputFolder, names[k], n, transform, decode, encode, x);
  }

  /** The case of AugmentFromContent where the image is the first one read:
      its draws are written now, and no later image has their names. */
  lemma AugmentFromContentFirst<Img>(d: Disk, inputFolder: string, outputFolder: string, names: seq<string>, k: nat, n: int,
                                     transform: (Img, nat) -> Img, decode: Bytes -> Option<Img>, encode: Img -> Bytes,
                                     i: nat)
    requires d.Valid() && inputFolder != outputFolder
    requires k < |names| && i < n
    requires forall j' :: k < j' < |names| ==> Stem(names[j']) != Stem(names[k])
    requires d.Load((inputFolder, names[k]), decode).Some?
    requires (outputFolder, AugName(Stem(names[k]), i)) !in d.dirs
    ensures var r := AugmentFrom(d, inputFolder, outputFolder, names, k, n, transform, decode, encode);
      && (outputFolder, AugName(Stem(names[k]), i)) in r.files
      && r.files[(outputFolder, AugName(Stem(names[k]), i))] == encode(transform(d.Load((inputFolder, names[k]), decode).value, i))
  {
    var key := (outputFolder, AugName(Stem(names[k]), i));
    var img := d.Load((inputFolder, names[k]), decode).value;
    AugmentFromStep(d, inputFolder, outputFolder, names, k, n, transform, decode, encode);
    var d' := WriteAugs(d, outputFolder, Stem(names[k]), img, 0, n, transform, encode);
    assert d' == AugmentOne(d, inputFolder, outputFolder, names[k], n, transform, decode, encode);
    WriteAugsEffect(d, outputFolder, Stem(names[k]), img, 0, n, transform, encode);
    WriteAugsWritesDraw(d, outputFolder, Stem(names[k]), img, 0, n, transform, encode, i);
    forall j', i': nat | k + 1 <= j' < |names| && i' < n
      ensures key.1 != AugName(Stem(names[j']), i')
    {
      if key.1 == AugName(Stem(names[j']), i') {
        AugNameInjective(Stem(names[k]), i, Stem(names[j']), i');
      }
    }
    AugmentFromUntouched(d', inputFolder, outputFolder, names, k + 1, n, transform, decode, encode, key);
  }


  /** Each readable listed image yields exactly `n` output files. */
  lemma AugmentOutputsPerImage<Img>(d: Disk, inputFolder: string, outputFolder: string, names: seq<string>, n: nat,
                                    transform: (Img, nat) -> Img, decode: Bytes -> Option<Img>, encode: Img -> Bytes, j: nat)
    requires d.Valid() && inputFolder != outputFolder
    requires j < |names| && d.Load((inputFolder, names[j]), decode).Some?
    requires forall i: nat :: i < n ==> (outputFolder, AugName(Stem(names[j]), i)) !in d.dirs
    ensures var r := AugmentFrom(d, inputFolder, outputFolder, names, 0, n, transform, decode, encode);
      AugOutputs(outputFolder, Stem(names[j]), n) <= r.files.Keys && |AugOutputs(outputFolder, Stem(names[j]), n)| == n
  {
    AugmentFromWritesAll(d, inputFolder, outputFolder, names, 0, n, transform, decode, encode);
    AugOutputsCount(outputFolder, Stem(names[j]), n);
  }
}

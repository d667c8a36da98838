/** The crop driver `save_recortes_by_class`: for every annotation with a
    scaled box, crop its source image to the box and save the crop in the
    folder of its class, unless a file of that name is already there. */
module Crops {
  import opened Wrappers
  import opened Paths
  import opened FileSystems
  import opened BBoxes

  /** PIL's crop rectangle (left, upper, right, lower). */
  datatype Rect = Rect(left: real, upper: real, right: real, lower: real)

  /** PIL's crop refuses a rectangle whose right edge lies left of its left
      edge or whose lower edge lies above its upper edge. */
  predicate Inverted(r: Rect) {
    r.right < r.left || r.lower < r.upper
  }

  /** The rectangle of a box [x0, y0, width, height]: it starts at the box's
      corner and spans exactly its width and height, so it is inverted
      exactly when the width or the height is negative. */
  function CropRect(box: seq<real>): (r: Rect)
    requires |box| == 4
    ensures r.left == box[0] && r.upper == box[1]
    ensures r.right - r.left == box[2] && r.lower - r.upper == box[3]
    ensures Inverted(r) <==> box[2] < 0.0 || box[3] < 0.0
  {
    var x0, y0, width, height := box[0], box[1], box[2], box[3];
    Rect(x0, y0, x0 + width, y0 + height)
  }

  /** The crop's file name: the image name without its extension, an
      underscore, the annotation id in decimal, and the extension ".jpg". */
  function CropName(fileName: string, idAnn: int): (r: string)
    ensures IsExtSplit(r, Stem(fileName) + "_" + IntToString(idAnn), ".jpg")
  {
    var stem := Stem(fileName) + "_" + IntToString(idAnn);
    StemOfJpg(stem);
    stem + ".jpg"
  }

  /** Different annotation ids, or images with different stems, never share
      a crop name. */
  lemma CropNameInjective(f1: string, id1: int, f2: string, id2: int)
    requires CropName(f1, id1) == CropName(f2, id2)
    ensures Stem(f1) == Stem(f2) && id1 == id2
  {
    var n1, n2 := IntToString(id1), IntToString(id2);
    var b1, b2 := Stem(f1) + "_" + n1, Stem(f2) + "_" + n2;
    var r := CropName(f1, id1);
    assert b1 + ".jpg" == r == b2 + ".jpg";
    assert b1 == r[..|r| - 4] == b2;
    assert b1 == Stem(f1) + ['_'] + n1 && b2 == Stem(f2) + ['_'] + n2;
    SplitAtLast(Stem(f1), n1, Stem(f2), n2, '_');
    IntToStringInjective(id1, id2);
  }

  /** The class folder of a row, as the entry (output folder, label). */
  function ClassFolder(outputFolder: string, row: Annotation): Key {
    (outputFolder, row.name)
  }

  /** Where the crop of a row is saved. */
  function CropTarget(outputFolder: string, row: Annotation): Key {
    (Join(outputFolder, row.name), CropName(row.fileName, row.idAnn))
  }

  /** The crop of a row is saved inside the path of its class folder, under
      a name that divides into the image stem, an underscore and the
      annotation id, and the extension ".jpg". */
  lemma CropTargetPlace(outputFolder: string, row: Annotation)
    ensures var t := CropTarget(outputFolder, row);
      var folder := ClassFolder(outputFolder, row);
      && t.0 == Join(folder.0, folder.1)
      && IsExtSplit(t.1, Stem(row.fileName) + "_" + IntToString(row.idAnn), ".jpg")
  {
  }

  /** Two rows of one class are saved at the same target only when their
      images have the same stem and their annotation ids are equal. */
  lemma CropTargetInjective(outputFolder: string, r1: Annotation, r2: Annotation)
    requires r1.name == r2.name && CropTarget(outputFolder, r1) == CropTarget(outputFolder, r2)
    ensures Stem(r1.fileName) == Stem(r2.fileName) && r1.idAnn == r2.idAnn
  {
    CropNameInjective(r1.fileName, r1.idAnn, r2.fileName, r2.idAnn);
  }

  /** The loop body once the class folder exists: open the image at
      `source`, unpack the box cell, crop, and save the crop at `target` when
      nothing stands there yet. Every step but the existence test can
      raise. */
  function SaveCrop<Img>(d: Disk, source: Key, bbox: Cell, index: nat, target: Key,
                         open: Bytes -> Option<Img>, crop: (Img, Rect) -> Img, encode: Img -> Option<Bytes>): Run
  {
    var img := d.Load(source, open);
    if img.None? then Run(d, Raised(CannotOpen(source)))
    else if !IsBox(bbox) then Run(d, Raised(MalformedBox(index)))
    else
      var rect := CropRect(bbox.items);
      if Inverted(rect) then Run(d, Raised(InvertedBox(index)))
      else if d.Exists(target) then Run(d, Done)
      else
        var data := encode(crop(img.value, rect));
        if data.None? then Run(d, Raised(CannotSave(target)))
        else Run(d.Write(target, data.value), Done)
  }

  /** The loop body for a row with a box: create `folder`, which can raise,
      and go on as SaveCrop. */
  function CropStep<Img>(d: Disk, folder: Key, source: Key, bbox: Cell, index: nat, target: Key,
                         open: Bytes -> Option<Img>, crop: (Img, Rect) -> Img, encode: Img -> Option<Bytes>): Run
  {
    var made := d.MakeDirs(folder);
    if made.outcome.Raised? then made
    else SaveCrop(made.disk, source, bbox, index, target, open, crop, encode)
  }

  /** One pass of the loop body for row number `index`: skip a row without a
      box; otherwise create the class folder and save the crop as CropStep
      does with the row's class folder, image, box and crop target. */
  function CropRow<Img>(d: Disk, row: Annotation, index: nat, imagesFolder: string, outputFolder: string,
                        open: Bytes -> Option<Img>, crop: (Img, Rect) -> Img, encode: Img -> Option<Bytes>): Run
  {
    if row.bboxScaled.NoneVal? then Run(d, Done)
    else CropStep(d, ClassFolder(outputFolder, row), (imagesFolder, row.fileName), row.bboxScaled, index,
                  CropTarget(outputFolder, row), open, crop, encode)
  }

  /** The rows from number `i` on, in order, stopping at the first exception. */
  function CropFrom<Img>(d: Disk, rows: seq<Annotation>, i: nat, imagesFolder: string, outputFolder: string,
                         open: Bytes -> Option<Img>, crop: (Img, Rect) -> Img, encode: Img -> Option<Bytes>): Run
    decreases |rows| - i
  {
    if i >= |rows| then Run(d, Done)
    else
      var r := CropRow(d, rows[i], i, imagesFolder, outputFolder, open, crop, encode);
      if r.outcome.Raised? then r
      else CropFrom(r.disk, rows, i + 1, imagesFolder, outputFolder, open, crop, encode)
  }

  /** The loop body for one row: skip a row without a box, create its class
      folder, open its image, unpack its box, crop, and save the crop unless
      its target exists. */
  method CropOne<Img>(fs: FileSystem, row: Annotation, index: nat, imagesFolder: string, outputFolder: string,
                      open: Bytes -> Option<Img>, crop: (Img, Rect) -> Img, encode: Img -> Option<Bytes>)
    returns (outcome: Outcome)
    requires fs.Valid()
    modifies fs
    ensures fs.Valid()
    ensures Run(fs.State(), outcome) == CropRow(old(fs.State()), row, index, imagesFolder, outputFolder, open, crop, encode)
  {
    var bbox := row.bboxScaled;
    if bbox.NoneVal? {
      return Done;
    }
    var made := fs.MakeDirs(ClassFolder(outputFolder, row));
    if made.Raised? {
      return made;
    }
    var bytes := fs.Read((imagesFolder, row.fileName));
    var img := if bytes.Some? then open(bytes.value) else None;
    if img.None? {
      return Raised(CannotOpen((imagesFolder, row.fileName)));
    }
    if !(bbox.SeqVal? && |bbox.items| == 4) {
      return Raised(MalformedBox(index));
    }
    var rect := CropRect(bbox.items);
    if rect.right < rect.left || rect.lower < rect.upper {
      return Raised(InvertedBox(index));
    }
    var cropped := crop(img.value, rect);
    var savePath := CropTarget(outputFolder, row);
    var present := fs.Exists(savePath);
    if !present {
      var data := encode(cropped);
      if data.None? {
        return Raised(CannotSave(savePath));
      }
      fs.Write(savePath, data.value);
    }
    outcome := Done;
  }

  /** `save_recortes_by_class(df, images_folder, output_folder)`: the rows in
      order, stopping at the first exception. */
  method SaveCropsByClass<Img>(fs: FileSystem, rows: seq<Annotation>, imagesFolder: string, outputFolder: string,
                                open: Bytes -> Option<Img>, crop: (Img, Rect) -> Img, encode: Img -> Option<Bytes>)
    returns (outcome: Outcome)
    requires fs.Valid()
    modifies fs
    ensures fs.Valid()
    ensures Run(fs.State(), outcome) == CropFrom(old(fs.State()), rows, 0, imagesFolder, outputFolder, open, crop, encode)
  {
    var i := 0;
    while i < |rows|
      invariant 0 <= i <= |rows|
      invariant fs.Valid()
      invariant CropFrom(fs.State(), rows, i, imagesFolder, outputFolder, open, crop, encode)
             == CropFrom(old(fs.State()), rows, 0, imagesFolder, outputFolder, open, crop, encode)
    {
      var rowOutcome := CropOne(fs, rows[i], i, imagesFolder, outputFolder, open, crop, encode);
      if rowOutcome.Raised? {
        return rowOutcome;
      }
      i := i + 1;
    }
    outcome := Done;
  }

  // ---------------------------------------------------------------------
  // Saving one crop

  /** Saving keeps a well-formed disk well formed, keeps the directories,
      changes the disk only by adding the file at `target`, and leaves it as
      it was when it raises. */
  lemma SaveCropEffect<Img>(d: Disk, source: Key, bbox: Cell, index: nat, target: Key,
                            open: Bytes -> Option<Img>, crop: (Img, Rect) -> Img, encode: Img -> Option<Bytes>)
    ensures var r := SaveCrop(d, source, bbox, index, target, open, crop, encode);
      && (d.Valid() ==> r.disk.Valid()) && d.GrowsTo(r.disk) && r.disk.dirs == d.dirs
      && (forall k :: k in r.disk.files && k !in d.files ==> k == target)
      && (r.outcome.Raised? ==> r.disk == d)
  {
    var r := SaveCrop(d, source, bbox, index, target, open, crop, encode);
    var img := d.Load(source, open);
    if img.Some? && IsBox(bbox) && !Inverted(CropRect(bbox.items)) && !d.Exists(target) {
      var data := encode(crop(img.value, CropRect(bbox.items)));
      if data.Some? {
        assert r.disk == d.Write(target, data.value);
        WriteAbsentGrows(d, target, data.value);
      }
    }
  }

  /** A save that succeeds read its image, unpacked a proper box and leaves
      something at `target`. */
  lemma SaveCropDone<Img>(d: Disk, source: Key, bbox: Cell, index: nat, target: Key,
                          open: Bytes -> Option<Img>, crop: (Img, Rect) -> Img, encode: Img -> Option<Bytes>)
    requires SaveCrop(d, source, bbox, index, target, open, crop, encode).outcome == Done
    ensures d.Load(source, open).Some? && IsBox(bbox) && !Inverted(CropRect(bbox.items))
    ensures SaveCrop(d, source, bbox, index, target, open, crop, encode).disk.Exists(target)
  {
    var img := d.Load(source, open);
    if !d.Exists(target) {
      var data := encode(crop(img.value, CropRect(bbox.items)));
      assert data.Some?;
      assert SaveCrop(d, source, bbox, index, target, open, crop, encode).disk == d.Write(target, data.value);
    }
  }

  /** A save whose image opens and whose box is proper: an inverted
      rectangle raises; an occupied target is left alone; otherwise the
      encoded crop is written at `target`, or the save raises. */
  lemma SaveCropWrites<Img>(d: Disk, source: Key, bbox: Cell, index: nat, target: Key,
                            open: Bytes -> Option<Img>, crop: (Img, Rect) -> Img, encode: Img -> Option<Bytes>)
    requires d.Load(source, open).Some? && IsBox(bbox)
    ensures var r := SaveCrop(d, source, bbox, index, target, open, crop, encode);
      var rect := CropRect(bbox.items);
      var data := encode(crop(d.Load(source, open).value, rect));
      && (Inverted(rect) ==> r == Run(d, Raised(InvertedBox(index))))
      && (!Inverted(rect) && d.Exists(target) ==> r == Run(d, Done))
      && (!Inverted(rect) && !d.Exists(target) && data.None? ==> r == Run(d, Raised(CannotSave(target))))
      && (!Inverted(rect) && !d.Exists(target) && data.Some? ==> r == Run(d.Write(target, data.value), Done))
  {
  }

  // ---------------------------------------------------------------------
  // The step of a row with a box

  lemma CropStepValid<Img>(d: Disk, folder: Key, source: Key, bbox: Cell, index: nat, target: Key,
                           open: Bytes -> Option<Img>, crop: (Img, Rect) -> Img, encode: Img -> Option<Bytes>)
    requires d.Valid()
    ensures var r := CropStep(d, folder, source, bbox, index, target, open, crop, encode);
      r.disk.Valid() && d.GrowsTo(r.disk)
  {
    var made := d.MakeDirs(folder);
    if made.outcome.Done? {
      var r := SaveCrop(made.disk, source, bbox, index, target, open, crop, encode);
      SaveCropEffect(made.disk, source, bbox, index, target, open, crop, encode);
      GrowsToTransitive(d, made.disk, r.disk);
    }
  }

  lemma CropStepOnlyAdds<Img>(d: Disk, folder: Key, source: Key, bbox: Cell, index: nat, target: Key,
                              open: Bytes -> Option<Img>, crop: (Img, Rect) -> Img, encode: Img -> Option<Bytes>)
    ensures var r := CropStep(d, folder, source, bbox, index, target, open, crop, encode);
      && (forall k :: k in r.disk.dirs && k !in d.dirs ==> k == folder)
      && (forall k :: k in r.disk.files && k !in d.files ==> k == target)
  {
    var made := d.MakeDirs(folder);
    if made.outcome.Done? {
      assert made.disk.files == d.files && made.disk.dirs == d.dirs + {folder};
      SaveCropEffect(made.disk, source, bbox, index, target, open, crop, encode);
    }
  }

  lemma CropStepDone<Img>(d: Disk, folder: Key, source: Key, bbox: Cell, index: nat, target: Key,
                          open: Bytes -> Option<Img>, crop: (Img, Rect) -> Img, encode: Img -> Option<Bytes>)
    requires CropStep(d, folder, source, bbox, index, target, open, crop, encode).outcome == Done
    ensures var r := CropStep(d, folder, source, bbox, index, target, open, crop, encode);
      && folder in r.disk.dirs && r.disk.Exists(target)
      && IsBox(bbox) && !Inverted(CropRect(bbox.items)) && r.disk.Load(source, open).Some?
  {
    var made := d.MakeDirs(folder);
    assert made.outcome == Done;
    var d1 := made.disk;
    var r := SaveCrop(d1, source, bbox, index, target, open, crop, encode);
    SaveCropDone(d1, source, bbox, index, target, open, crop, encode);
    SaveCropEffect(d1, source, bbox, index, target, open, crop, encode);
    assert source in r.disk.files && r.disk.files[source] == d1.files[source];
  }

  lemma CropStepSettled<Img>(e: Disk, folder: Key, source: Key, bbox: Cell, index: nat, target: Key,
                             open: Bytes -> Option<Img>, crop: (Img, Rect) -> Img, encode: Img -> Option<Bytes>)
    requires e.Valid() && IsBox(bbox) && !Inverted(CropRect(bbox.items)) && folder in e.dirs
    requires e.Load(source, open).Some? && e.Exists(target)
    ensures CropStep(e, folder, source, bbox, index, target, open, crop, encode) == Run(e, Done)
  {
    assert e.MakeDirs(folder) == Run(e, Done) by {
      assert e.dirs + {folder} == e.dirs;
    }
    SaveCropWrites(e, source, bbox, index, target, open, crop, encode);
  }

  lemma CropStepAgain<Img>(d: Disk, e: Disk, folder: Key, source: Key, bbox: Cell, index: nat, target: Key,
                           open: Bytes -> Option<Img>, crop: (Img, Rect) -> Img, encode: Img -> Option<Bytes>)
    requires e.Valid()
    requires CropStep(d, folder, source, bbox, index, target, open, crop, encode).outcome == Done
    requires CropStep(d, folder, source, bbox, index, target, open, crop, encode).disk.GrowsTo(e)
    ensures CropStep(e, folder, source, bbox, index, target, open, crop, encode) == Run(e, Done)
  {
    var r := CropStep(d, folder, source, bbox, index, target, open, crop, encode);
    CropStepDone(d, folder, source, bbox, index, target, open, crop, encode);
    assert source in e.files && e.files[source] == r.disk.files[source];
    CropStepSettled(e, folder, source, bbox, index, target, open, crop, encode);
  }

  lemma CropStepWrites<Img>(d: Disk, folder: Key, source: Key, bbox: Cell, index: nat, target: Key,
                            open: Bytes -> Option<Img>, crop: (Img, Rect) -> Img, encode: Img -> Option<Bytes>)
    requires IsBox(bbox) && folder !in d.files && !d.Exists(target)
    requires source in d.files && open(d.files[source]).Some?
    ensures var r := CropStep(d, folder, source, bbox, index, target, open, crop, encode);
      var rect := CropRect(bbox.items);
      var data := encode(crop(open(d.files[source]).value, rect));
      && r.disk.dirs == d.dirs + {folder}
      && (Inverted(rect) ==> r.outcome == Raised(InvertedBox(index)) && r.disk.files == d.files)
      && (!Inverted(rect) && target == folder ==> r.outcome == Done && r.disk.files == d.files)
      && (!Inverted(rect) && target != folder && data.None? ==> r.outcome == Raised(CannotSave(target)) && r.disk.files == d.files)
      && (!Inverted(rect) && target != folder && data.Some? ==> r.outcome == Done && r.disk.files == d.files[target := data.value])
  {
    var made := d.MakeDirs(folder);
    assert made.outcome == Done && made.disk == Disk(d.files, d.dirs + {folder});
    var d1 := made.disk;
    assert d1.Load(source, open) == open(d.files[source]);
    assert d1.Exists(target) <==> target == folder;
    SaveCropWrites(d1, source, bbox, index, target, open, crop, encode);
  }

  lemma CropStepRepeat<Img>(d: Disk, folder: Key, source: Key, bbox: Cell, index: nat, target: Key,
                            open: Bytes -> Option<Img>, crop: (Img, Rect) -> Img, encode: Img -> Option<Bytes>)
    requires d.Valid()
    ensures var r := CropStep(d, folder, source, bbox, index, target, open, crop, encode);
      CropStep(r.disk, folder, source, bbox, index, target, open, crop, encode) == r
  {
    var r := CropStep(d, folder, source, bbox, index, target, open, crop, encode);
    var made := d.MakeDirs(folder);
    if made.outcome.Done? {
      CropStepValid(d, folder, source, bbox, index, target, open, crop, encode);
      if r.outcome.Done? {
        CropStepAgain(d, r.disk, folder, source, bbox, index, target, open, crop, encode);
      } else {
        var d1 := made.disk;
        SaveCropEffect(d1, source, bbox, index, target, open, crop, encode);
        assert r.disk == d1;
        assert d1.MakeDirs(folder) == Run(d1, Done) by {
          assert d1.dirs + {folder} == d1.dirs;
        }
      }
    }
  }

  // ---------------------------------------------------------------------
  // One row

  lemma CropRowValid<Img>(d: Disk, row: Annotation, index: nat, imagesFolder: string, outputFolder: string,
                          open: Bytes -> Option<Img>, crop: (Img, Rect) -> Img, encode: Img -> Option<Bytes>)
    requires d.Valid()
    ensures var r := CropRow(d, row, index, imagesFolder, outputFolder, open, crop, encode);
      r.disk.Valid() && d.GrowsTo(r.disk)
  {
    if !row.bboxScaled.NoneVal? {
      CropStepValid(d, ClassFolder(outputFolder, row), (imagesFolder, row.fileName), row.bboxScaled, index, CropTarget(outputFolder, row), open, crop, encode);
    }
  }

  /** A row changes the disk only by creating its class folder and adding
      its crop file. */
  lemma CropRowOnlyAdds<Img>(d: Disk, row: Annotation, index: nat, imagesFolder: string, outputFolder: string,
                             open: Bytes -> Option<Img>, crop: (Img, Rect) -> Img, encode: Img -> Option<Bytes>)
    ensures var r := CropRow(d, row, index, imagesFolder, outputFolder, open, crop, encode);
      && (forall k :: k in r.disk.dirs && k !in d.dirs ==> !row.bboxScaled.NoneVal? && k == ClassFolder(outputFolder, row))
      && (forall k :: k in r.disk.files && k !in d.files ==> !row.bboxScaled.NoneVal? && k == CropTarget(outputFolder, row))
  {
    if !row.bboxScaled.NoneVal? {
      CropStepOnlyAdds(d, ClassFolder(outputFolder, row), (imagesFolder, row.fileName), row.bboxScaled, index, CropTarget(outputFolder, row), open, crop, encode);
    }
  }

  /** A row whose work is already on the disk finds nothing to do: when it
      succeeded once, running it again on any valid disk that grew from the
      result changes nothing and raises nothing. */
  lemma CropRowAgain<Img>(d: Disk, e: Disk, row: Annotation, index: nat, imagesFolder: string, outputFolder: string,
                          open: Bytes -> Option<Img>, crop: (Img, Rect) -> Img, encode: Img -> Option<Bytes>)
    requires d.Valid() && e.Valid()
    requires CropRow(d, row, index, imagesFolder, outputFolder, open, crop, encode).outcome == Done
    requires CropRow(d, row, index, imagesFolder, outputFolder, open, crop, encode).disk.GrowsTo(e)
    ensures CropRow(e, row, index, imagesFolder, outputFolder, open, crop, encode) == Run(e, Done)
  {
    if !row.bboxScaled.NoneVal? {
      CropStepAgain(d, e, ClassFolder(outputFolder, row), (imagesFolder, row.fileName), row.bboxScaled, index,
                    CropTarget(outputFolder, row), open, crop, encode);
    }
  }

  /** A row with a box that succeeds leaves its class folder and something
      at its crop target, having read its image and unpacked a proper box. */
  lemma CropRowDone<Img>(d: Disk, row: Annotation, index: nat, imagesFolder: string, outputFolder: string,
                         open: Bytes -> Option<Img>, crop: (Img, Rect) -> Img, encode: Img -> Option<Bytes>)
    requires !row.bboxScaled.NoneVal?
    requires CropRow(d, row, index, imagesFolder, outputFolder, open, crop, encode).outcome == Done
    ensures var r := CropRow(d, row, index, imagesFolder, outputFolder, open, crop, encode);
      && ClassFolder(outputFolder, row) in r.disk.dirs && r.disk.Exists(CropTarget(outputFolder, row))
      && IsBox(row.bboxScaled) && !Inverted(CropRect(row.bboxScaled.items))
      && r.disk.Load((imagesFolder, row.fileName), open).Some?
  {
    CropStepDone(d, ClassFolder(outputFolder, row), (imagesFolder, row.fileName), row.bboxScaled, index, CropTarget(outputFolder, row), open, crop, encode);
  }

  /** A row whose class folder, source image and crop are all in place
      leaves the disk as it is. */
  lemma CropRowSettled<Img>(e: Disk, row: Annotation, index: nat, imagesFolder: string, outputFolder: string,
                            open: Bytes -> Option<Img>, crop: (Img, Rect) -> Img, encode: Img -> Option<Bytes>)
    requires e.Valid() && IsBox(row.bboxScaled) && !Inverted(CropRect(row.bboxScaled.items))
    requires ClassFolder(outputFolder, row) in e.dirs
    requires e.Load((imagesFolder, row.fileName), open).Some? && e.Exists(CropTarget(outputFolder, row))
    ensures CropRow(e, row, index, imagesFolder, outputFolder, open, crop, encode) == Run(e, Done)
  {
    CropStepSettled(e, ClassFolder(outputFolder, row), (imagesFolder, row.fileName), row.bboxScaled, index,
                    CropTarget(outputFolder, row), open, crop, encode);
  }

  /** A row whose class folder can be made, whose image opens and whose box
      is four numbers: an inverted rectangle raises and writes nothing; a
      target that is the class folder itself is left alone; otherwise the
      crop is saved at the absent target, or the save raises and writes
      nothing. Only the class folder is added to the directories. */
  lemma CropRowWrites<Img>(d: Disk, row: Annotation, index: nat, imagesFolder: string, outputFolder: string,
                           open: Bytes -> Option<Img>, crop: (Img, Rect) -> Img, encode: Img -> Option<Bytes>)
    requires d.Valid() && IsBox(row.bboxScaled)
    requires ClassFolder(outputFolder, row) !in d.files && !d.Exists(CropTarget(outputFolder, row))
    requires (imagesFolder, row.fileName) in d.files && open(d.files[(imagesFolder, row.fileName)]).Some?
    ensures var r := CropRow(d, row, index, imagesFolder, outputFolder, open, crop, encode);
      var rect := CropRect(row.bboxScaled.items);
      var data := encode(crop(open(d.files[(imagesFolder, row.fileName)]).value, rect));
      var target := CropTarget(outputFolder, row);
      && r.disk.dirs == d.dirs + {ClassFolder(outputFolder, row)}
      && (Inverted(rect) ==> r.outcome == Raised(InvertedBox(index)) && r.disk.files == d.files)
      && (!Inverted(rect) && target == ClassFolder(outputFolder, row) ==> r.outcome == Done && r.disk.files == d.files)
      && (!Inverted(rect) && target != ClassFolder(outputFolder, row) && data.None? ==>
            r.outcome == Raised(CannotSave(target)) && r.disk.files == d.files)
      && (!Inverted(rect) && target != ClassFolder(outputFolder, row) && data.Some? ==>
            r.outcome == Done && r.disk.files == d.files[target := data.value])
  {
    CropStepWrites(d, ClassFolder(outputFolder, row), (imagesFolder, row.fileName), row.bboxScaled, index, CropTarget(outputFolder, row), open, crop, encode);
  }

  /** A row run again on the disk it left behind leaves that disk as it is
      and ends the same way, whether it succeeded or raised. */
  lemma CropRowRepeat<Img>(d: Disk, row: Annotation, index: nat, imagesFolder: string, outputFolder: string,
                           open: Bytes -> Option<Img>, crop: (Img, Rect) -> Img, encode: Img -> Option<Bytes>)
    requires d.Valid()
    ensures var r := CropRow(d, row, index, imagesFolder, outputFolder, open, crop, encode);
      CropRow(r.disk, row, index, imagesFolder, outputFolder, open, crop, encode) == r
  {
    if !row.bboxScaled.NoneVal? {
      CropStepRepeat(d, ClassFolder(outputFolder, row), (imagesFolder, row.fileName), row.bboxScaled, index, CropTarget(outputFolder, row), open, crop, encode);
    }
  }

  // ---------------------------------------------------------------------
  // The whole table

  lemma {:induction false} CropFromValid<Img>(d: Disk, rows: seq<Annotation>, i: nat, imagesFolder: string, outputFolder: string,
                                              open: Bytes -> Option<Img>, crop: (Img, Rect) -> Img, encode: Img -> Option<Bytes>)
    requires d.Valid()
    ensures var r := CropFrom(d, rows, i, imagesFolder, outputFolder, open, crop, encode);
      r.disk.Valid() && d.GrowsTo(r.disk)
    decreases |rows| - i
  {
    if i < |rows| {
      var r := CropRow(d, rows[i], i, imagesFolder, outputFolder, open, crop, encode);
      CropRowValid(d, rows[i], i, imagesFolder, outputFolder, open, crop, encode);
      if r.outcome.Done? {
        CropFromValid(r.disk, rows, i + 1, imagesFolder, outputFolder, open, crop, encode);
      }
    }
  }

  /** Existing files are never overwritten, and the only files and folders
      added are the crop targets and class folders of rows that have a box. */
  lemma {:induction false} CropOnlyAdds<Img>(d: Disk, rows: seq<Annotation>, i: nat, imagesFolder: string, outputFolder: string,
                                             open: Bytes -> Option<Img>, crop: (Img, Rect) -> Img, encode: Img -> Option<Bytes>)
    requires d.Valid()
    ensures var r := CropFrom(d, rows, i, imagesFolder, outputFolder, open, crop, encode);
      && d.GrowsTo(r.disk)
      && (forall k :: k in r.disk.files && k !in d.files ==>
            exists j :: i <= j < |rows| && !rows[j].bboxScaled.NoneVal? && k == CropTarget(outputFolder, rows[j]))
      && (forall k :: k in r.disk.dirs && k !in d.dirs ==>
            exists j :: i <= j < |rows| && !rows[j].bboxScaled.NoneVal? && k == ClassFolder(outputFolder, rows[j]))
    decreases |rows| - i
  {
    CropFromValid(d, rows, i, imagesFolder, outputFolder, open, crop, encode);
    if i < |rows| {
      var r := CropRow(d, rows[i], i, imagesFolder, outputFolder, open, crop, encode);
      CropRowValid(d, rows[i], i, imagesFolder, outputFolder, open, crop, encode);
      CropRowOnlyAdds(d, rows[i], i, imagesFolder, outputFolder, open, crop, encode);
      if r.outcome.Done? {
        CropOnlyAdds(r.disk, rows, i + 1, imagesFolder, outputFolder, open, crop, encode);
      }
    }
  }

  /** Running the rows again over a valid disk that grew from a successful
      run's result changes nothing. */
  lemma {:induction false} CropFromAgain<Img>(d: Disk, e: Disk, rows: seq<Annotation>, i: nat, imagesFolder: string, outputFolder: string,
                                              open: Bytes -> Option<Img>, crop: (Img, Rect) -> Img, encode: Img -> Option<Bytes>)
    requires d.Valid() && e.Valid()
    requires CropFrom(d, rows, i, imagesFolder, outputFolder, open, crop, encode).outcome == Done
    requires CropFrom(d, rows, i, imagesFolder, outputFolder, open, crop, encode).disk.GrowsTo(e)
    ensures CropFrom(e, rows, i, imagesFolder, outputFolder, open, crop, encode) == Run(e, Done)
    decreases |rows| - i
  {
    if i < |rows| {
      var r := CropRow(d, rows[i], i, imagesFolder, outputFolder, open, crop, encode);
      CropRowValid(d, rows[i], i, imagesFolder, outputFolder, open, crop, encode);
      var f := CropFrom(r.disk, rows, i + 1, imagesFolder, outputFolder, open, crop, encode);
      CropFromValid(r.disk, rows, i + 1, imagesFolder, outputFolder, open, crop, encode);
      GrowsToTransitive(r.disk, f.disk, e);
      CropRowAgain(d, e, rows[i], i, imagesFolder, outputFolder, open, crop, encode);
      CropFromAgain(r.disk, e, rows, i + 1, imagesFolder, outputFolder, open, crop, encode);
    }
  }

  /** Skip-if-exists makes the crop step idempotent: running the rows from
      number `i` on a second time, over the disk the first run left, leaves
      that disk exactly as it is and ends the same way, with the same
      exception when the first run raised one. */
  lemma {:induction false} CropIdempotent<Img>(d: Disk, rows: seq<Annotation>, i: nat, imagesFolder: string, outputFolder: string,
                                               open: Bytes -> Option<Img>, crop: (Img, Rect) -> Img, encode: Img -> Option<Bytes>)
    requires d.Valid()
    ensures var once := CropFrom(d, rows, i, imagesFolder, outputFolder, open, crop, encode);
      CropFrom(once.disk, rows, i, imagesFolder, outputFolder, open, crop, encode) == once
    decreases |rows| - i
  {
    if i < |rows| {
      var r := CropRow(d, rows[i], i, imagesFolder, outputFolder, open, crop, encode);
      CropRowValid(d, rows[i], i, imagesFolder, outputFolder, open, crop, encode);
      CropRowRepeat(d, rows[i], i, imagesFolder, outputFolder, open, crop, encode);
      if r.outcome.Done? {
        var once := CropFrom(r.disk, rows, i + 1, imagesFolder, outputFolder, open, crop, encode);
        CropFromValid(r.disk, rows, i + 1, imagesFolder, outputFolder, open, crop, encode);
        CropIdempotent(r.disk, rows, i + 1, imagesFolder, outputFolder, open, crop, encode);
        CropRowAgain(d, once.disk, rows[i], i, imagesFolder, outputFolder, open, crop, encode);
      }
    }
  }

  /** After a successful run every row with a box has its class folder and
      something standing at its crop target. */
  lemma {:induction false} CropCoversRows<Img>(d: Disk, rows: seq<Annotation>, i: nat, imagesFolder: string, outputFolder: string,
                                               open: Bytes -> Option<Img>, crop: (Img, Rect) -> Img, encode: Img -> Option<Bytes>)
    requires d.Valid()
    requires CropFrom(d, rows, i, imagesFolder, outputFolder, open, crop, encode).outcome == Done
    ensures var r := CropFrom(d, rows, i, imagesFolder, outputFolder, open, crop, encode).disk;
      forall j :: i <= j < |rows| && !rows[j].bboxScaled.NoneVal? ==>
        ClassFolder(outputFolder, rows[j]) in r.dirs && r.Exists(CropTarget(outputFolder, rows[j]))
    decreases |rows| - i
  {
    if i < |rows| {
      var d' := CropFromFirst(d, rows, i, imagesFolder, outputFolder, open, crop, encode);
      CropFromValid(d', rows, i + 1, imagesFolder, outputFolder, open, crop, encode);
      CropCoversRows(d', rows, i + 1, imagesFolder, outputFolder, open, crop, encode);
    }
  }

  /** A successful run after its first row: the disk `d'` that row leaves
      is well formed and holds that row's class folder and crop target. */
  lemma CropFromFirst<Img>(d: Disk, rows: seq<Annotation>, i: nat, imagesFolder: string, outputFolder: string,
                           open: Bytes -> Option<Img>, crop: (Img, Rect) -> Img, encode: Img -> Option<Bytes>)
    returns (d': Disk)
    requires d.Valid() && i < |rows|
    requires CropFrom(d, rows, i, imagesFolder, outputFolder, open, crop, encode).outcome == Done
    ensures d'.Valid()
    ensures CropFrom(d, rows, i, imagesFolder, outputFolder, open, crop, encode)
         == CropFrom(d', rows, i + 1, imagesFolder, outputFolder, open, crop, encode)
    ensures !rows[i].bboxScaled.NoneVal? ==>
      ClassFolder(outputFolder, rows[i]) in d'.dirs && d'.Exists(CropTarget(outputFolder, rows[i]))
  {
    var r := CropRow(d, rows[i], i, imagesFolder, outputFolder, open, crop, encode);
    CropRowValid(d, rows[i], i, imagesFolder, outputFolder, open, crop, encode);
    assert r.outcome == Done;
    d' := r.disk;
    if !rows[i].bboxScaled.NoneVal? {
      CropRowDone(d, rows[i], i, imagesFolder, outputFolder, open, crop, encode);
    }
  }
}

/** Bounding-box rescaling: `rescale_bounding_boxes` and its inner
    `scale_bbox`, which map every box of an annotation table from the
    original image resolution to a target resolution. */
module BBoxes {
  import opened Wrappers

  datatype SeqKind = List | Tuple

  /** A cell of the `bbox` column as pandas holds it. Floats are exact reals;
      `isNaN` marks the NaN that pandas uses for a missing value. */
  datatype Cell =
    | NoneVal
    | FloatVal(value: real, isNaN: bool)
    | SeqVal(kind: SeqKind, items: seq<real>)
    | OtherVal

  /** One annotation row: the image file it belongs to, that image's size,
      its box `[x0, y0, width, height]`, its class label, its annotation id,
      and the `bbox_scaled` column the rescaler fills in. */
  datatype Annotation = Annotation(
    fileName: string,
    width: real,
    height: real,
    bbox: Cell,
    name: string,
    idAnn: int,
    bboxScaled: Cell)

  /** A usable box: a list or tuple of exactly four numbers. */
  predicate IsBox(c: Cell) {
    c.SeqVal? && |c.items| == 4
  }

  /** `scale_bbox`: `None` for a missing, NaN or malformed box; otherwise the
      box with its x-coordinates scaled by `scaleX` and y-coordinates by
      `scaleY`, as a list. */
  function ScaleBox(bbox: Cell, scaleX: real, scaleY: real): (r: Cell)
    ensures r == NoneVal <==> !IsBox(bbox)
    ensures r != NoneVal ==> r.SeqVal? && r.kind == List
    ensures IsBox(bbox) ==>
      && |r.items| == 4
      && r.items[0] == bbox.items[0] * scaleX && r.items[1] == bbox.items[1] * scaleY
      && r.items[2] == bbox.items[2] * scaleX && r.items[3] == bbox.items[3] * scaleY
  {
    if bbox.NoneVal? || (bbox.FloatVal? && bbox.isNaN) then NoneVal
    else if !bbox.SeqVal? || |bbox.items| != 4 then NoneVal
    else
      var x0, y0, width, height := bbox.items[0], bbox.items[1], bbox.items[2], bbox.items[3];
      var x1, y1 := x0 + width, y0 + height;
      SeqVal(List, [x0 * scaleX, y0 * scaleY, (x1 - x0) * scaleX, (y1 - y0) * scaleY])
  }

  lemma SameBox(a: seq<real>, b: seq<real>)
    requires |a| == 4 && |b| == 4
    requires a[0] == b[0] && a[1] == b[1] && a[2] == b[2] && a[3] == b[3]
    ensures a == b
  {
  }

  /** Scaling twice is scaling once by the products of the factors. */
  lemma ScaleBoxCompose(bbox: Cell, sx1: real, sy1: real, sx2: real, sy2: real)
    ensures ScaleBox(ScaleBox(bbox, sx1, sy1), sx2, sy2) == ScaleBox(bbox, sx1 * sx2, sy1 * sy2)
  {
    if IsBox(bbox) {
      var b := bbox.items;
      var twice, once := ScaleBox(ScaleBox(bbox, sx1, sy1), sx2, sy2).items, ScaleBox(bbox, sx1 * sx2, sy1 * sy2).items;
      assert twice[0] == (b[0] * sx1) * sx2 == b[0] * (sx1 * sx2) == once[0];
      assert twice[1] == (b[1] * sy1) * sy2 == b[1] * (sy1 * sy2) == once[1];
      assert twice[2] == (b[2] * sx1) * sx2 == b[2] * (sx1 * sx2) == once[2];
      assert twice[3] == (b[3] * sy1) * sy2 == b[3] * (sy1 * sy2) == once[3];
      SameBox(twice, once);
    }
  }

  /** Scaling to a resolution and back restores the box (as a list). */
  lemma ScaleBoxRoundTrip(bbox: Cell, w1: real, h1: real, w2: real, h2: real)
    requires w1 != 0.0 && h1 != 0.0 && w2 != 0.0 && h2 != 0.0
    ensures ScaleBox(ScaleBox(bbox, w2 / w1, h2 / h1), w1 / w2, h1 / h2)
         == if IsBox(bbox) then SeqVal(List, bbox.items) else NoneVal
  {
    var sx, sy, ux, uy := w2 / w1, h2 / h1, w1 / w2, h1 / h2;
    assert sx * ux == 1.0 && sy * uy == 1.0;
    if IsBox(bbox) {
      var b, back := bbox.items, ScaleBox(ScaleBox(bbox, sx, sy), ux, uy).items;
      assert back[0] == (b[0] * sx) * ux == b[0] * (sx * ux) == b[0];
      assert back[1] == (b[1] * sy) * uy == b[1] * (sy * uy) == b[1];
      assert back[2] == (b[2] * sx) * ux == b[2] * (sx * ux) == b[2];
      assert back[3] == (b[3] * sy) * uy == b[3] * (sy * uy) == b[3];
      SameBox(back, b);
    }
  }

  /** Where the source reads the original resolution: the first row. */
  predicate HasUsableResolution(rows: seq<Annotation>) {
    rows != [] ==> rows[0].width != 0.0 && rows[0].height != 0.0
  }

  /** The table is empty, so `df[width_column].iloc[0]` raises IndexError. */
  datatype RescaleError = EmptyTable

  /** `rescale_bounding_boxes`: fills `bbox_scaled` of every row with its box
      scaled by `targetWidth / width` and `targetHeight / height` of the
      FIRST row; nothing else in the table changes. */
  function RescaleBoundingBoxes(rows: seq<Annotation>, targetWidth: real, targetHeight: real)
    : (r: Result<seq<Annotation>, RescaleError>)
    requires HasUsableResolution(rows)
    ensures r.Err? <==> rows == []
    ensures r.Ok? ==> |r.value| == |rows|
    ensures r.Ok? ==> forall i :: 0 <= i < |rows| ==>
      && r.value[i] == rows[i].(bboxScaled := r.value[i].bboxScaled)
      && r.value[i].bboxScaled == ScaleBox(rows[i].bbox, targetWidth / rows[0].width, targetHeight / rows[0].height)
  {
    if rows == [] then Err(EmptyTable)
    else
      var originalWidth, originalHeight := rows[0].width, rows[0].height;
      var scaleX, scaleY := targetWidth / originalWidth, targetHeight / originalHeight;
      Ok(seq(|rows|, i requires 0 <= i < |rows| => rows[i].(bboxScaled := ScaleBox(rows[i].bbox, scaleX, scaleY))))
  }

  /** A row's scaled box is `None` exactly when its box is not four numbers,
      and otherwise each coordinate is scaled on its own axis. */
  lemma RescaleRow(rows: seq<Annotation>, targetWidth: real, targetHeight: real, i: nat)
    requires HasUsableResolution(rows) && i < |rows|
    ensures var out := RescaleBoundingBoxes(rows, targetWidth, targetHeight).value[i].bboxScaled;
      && (out == NoneVal <==> !IsBox(rows[i].bbox))
      && (IsBox(rows[i].bbox) ==>
            var b, sx, sy := rows[i].bbox.items, targetWidth / rows[0].width, targetHeight / rows[0].height;
            && out.SeqVal? && out.kind == List && |out.items| == 4
            && out.items[0] == b[0] * sx && out.items[1] == b[1] * sy
            && out.items[2] == b[2] * sx && out.items[3] == b[3] * sy)
  {
  }

  /** Only the first row's resolution matters: two tables that agree on it
      and on the boxes get the same scaled boxes, whatever the other rows
      claim as their width and height. */
  lemma RescaleUsesFirstRowOnly(rows: seq<Annotation>, other: seq<Annotation>, tw: real, th: real)
    requires HasUsableResolution(rows) && rows != []
    requires |other| == |rows|
    requires other[0].width == rows[0].width && other[0].height == rows[0].height
    requires forall i :: 0 <= i < |rows| ==> other[i].bbox == rows[i].bbox
    ensures forall i :: 0 <= i < |rows| ==>
      RescaleBoundingBoxes(other, tw, th).value[i].bboxScaled == RescaleBoundingBoxes(rows, tw, th).value[i].bboxScaled
  {
  }

  /** The table after resizing its images to the target resolution: the
      scaled boxes become the boxes and the size becomes the target size. */
  function Resized(rows: seq<Annotation>, targetWidth: real, targetHeight: real): (r: seq<Annotation>)
    ensures |r| == |rows|
  {
    seq(|rows|, i requires 0 <= i < |rows| =>
      rows[i].(bbox := rows[i].bboxScaled, width := targetWidth, height := targetHeight))
  }

  /** Rescaling to the target resolution and then back to the original gives
      every usable box back and keeps every unusable one `None`. */
  lemma {:induction false} RescaleRoundTrip(rows: seq<Annotation>, targetWidth: real, targetHeight: real)
    requires HasUsableResolution(rows) && rows != []
    requires targetWidth != 0.0 && targetHeight != 0.0
    ensures var there := RescaleBoundingBoxes(rows, targetWidth, targetHeight).value;
            var back := RescaleBoundingBoxes(Resized(there, targetWidth, targetHeight), rows[0].width, rows[0].height).value;
            forall i :: 0 <= i < |rows| ==>
              back[i].bboxScaled == if IsBox(rows[i].bbox) then SeqVal(List, rows[i].bbox.items) else NoneVal
  {
    var there := RescaleBoundingBoxes(rows, targetWidth, targetHeight).value;
    var resized := Resized(there, targetWidth, targetHeight);
    var back := RescaleBoundingBoxes(resized, rows[0].width, rows[0].height).value;
    forall i | 0 <= i < |rows|
      ensures back[i].bboxScaled == if IsBox(rows[i].bbox) then SeqVal(List, rows[i].bbox.items) else NoneVal
    {
      ScaleBoxRoundTrip(rows[i].bbox, rows[0].width, rows[0].height, targetWidth, targetHeight);
    }
  }

  /** One image of 200x100 whose box [10, 10, 50, 20] is rescaled to 100x50. */
  lemma RescaleExample()
    ensures var row := Annotation("a.jpg", 200.0, 100.0, SeqVal(List, [10.0, 10.0, 50.0, 20.0]), "x", 1, NoneVal);
            RescaleBoundingBoxes([row], 100.0, 50.0)
              == Ok([row.(bboxScaled := SeqVal(List, [5.0, 5.0, 25.0, 10.0]))])
  {
    var row := Annotation("a.jpg", 200.0, 100.0, SeqVal(List, [10.0, 10.0, 50.0, 20.0]), "x", 1, NoneVal);
    var scaled := ScaleBox(row.bbox, 100.0 / 200.0, 50.0 / 100.0).items;
    assert scaled[0] == 5.0 && scaled[1] == 5.0 && scaled[2] == 25.0 && scaled[3] == 10.0;
    assert scaled == [5.0, 5.0, 25.0, 10.0];
    var out := RescaleBoundingBoxes([row], 100.0, 50.0).value;
    assert out == [out[0]];
  }
}

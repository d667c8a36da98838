# Wildlife camera-trap data preparation, modelled in Dafny

This project models the data-preparation part of an image-classification
pipeline for camera-trap photographs (`vision/dataset.py`). The pipeline
has four steps:

- **Rescaling** (`rescale_bounding_boxes`). Each annotation's bounding box
  `[x0, y0, width, height]` is mapped from the original image resolution to
  a target resolution. The original resolution is read from the first row
  of the table.
- **Cropping** (`save_recortes_by_class`). Each annotated box is cut out of
  its image and saved as `{stem}_{id_ann}.jpg` in a folder named after its
  class label. A crop whose target file already exists is skipped, so a
  second run over the disk the first run left changes nothing and ends the
  same way. A box whose width or height is negative makes the crop raise,
  and a crop that cannot be saved as JPEG raises with nothing written.
- **Augmenting** (`apply_augmentations_for_class`,
  `apply_static_augmentations_for_class`). Every readable image of a class
  folder yields `num_augmentations` transformed copies named
  `{stem}_aug{i}.jpg`. These copies are written unconditionally and
  overwrite files of the same name. The static driver uses a fixed
  four-step albumentations pipeline.
- **Counting** (`count_files_per_class`). The regular files in every class
  folder are counted. The result is a dictionary ordered by decreasing count
  (a stable sort).

How the model is built:

- The filesystem is a value `FileSystems.Disk`: a map from entries to
  bytes for regular files, plus a set of directory entries. An entry is
  addressed as (path of its folder, its name).
- The drivers are imperative methods over a `FileSystems.FileSystem` object
  holding the same two fields. Each is proved equal to a specification
  function on `Disk`. The properties are proved as lemmas about those
  functions.
- `os.listdir` returns its entries in an order the operating system
  chooses. The model picks that order arbitrarily. Every driver that lists
  a folder also returns the listing it used, so that the contracts can name
  the order.
- Image decoding, encoding, cropping and the augmentation transforms are
  function parameters (uninterpreted).
- Path handling follows POSIX `os.path.join` and `os.path.splitext`.
- Integers are printed in decimal as Python's `str` prints them.

## Model

| member | source | states |
|---|---|---|
| BBoxes.ScaleBox | vision/dataset.py:20-31 | the result is `None` exactly when the box is None, NaN, not a list/tuple, or not of length four; otherwise it is a list of four numbers with x0 and width scaled by the x factor and y0 and height by the y factor |
| BBoxes.ScaleBoxCompose | vision/dataset.py:20-31 | scaling twice equals scaling once by the products of the factors |
| BBoxes.ScaleBoxRoundTrip | vision/dataset.py:20-31 | scaling to another resolution and back returns a usable box unchanged (as a list); an unusable box stays `None` |
| BBoxes.RescaleBoundingBoxes | vision/dataset.py:15-33 | an empty table raises (IndexError on `iloc[0]`); otherwise the table keeps its length and every other column, and each row's `bbox_scaled` is its box scaled by target size over the FIRST row's size |
| BBoxes.RescaleRow | vision/dataset.py:20-33 | per row: `None` iff the box is unusable, else the four coordinates scaled on their own axes |
| BBoxes.RescaleUsesFirstRowOnly | vision/dataset.py:15-18 | the sizes recorded in rows other than the first never affect the result |
| BBoxes.RescaleRoundTrip | vision/dataset.py:9-34 | rescaling to the target resolution and then back to the original restores every usable box and keeps every unusable one `None` |
| BBoxes.RescaleExample | vision/dataset.py:15-33 | a 200x100 image with box [10, 10, 50, 20] rescaled to 100x50 gets [5, 5, 25, 10] |
| Paths.Join | vision/dataset.py:48 | `os.path.join`: an absolute second part replaces the first; otherwise the result is exactly the first part followed by the second when the first part is empty or ends in a separator, and exactly the first part, one separator and the second part otherwise |
| Paths.JoinExamples | vision/dataset.py:48 | `x/` and `y` join to `x/y`, so do `x` and `y`; an empty first part gives `y`; an absolute `/y` replaces `x` |
| Paths.SplitExt | vision/dataset.py:58 | `os.path.splitext`: the two parts concatenate to the path. The extension is empty exactly when no dot of the last path component follows a non-dot character of that component. Otherwise it runs from the last such dot onwards, and contains no further dot or separator |
| Paths.SplitExtUnique | vision/dataset.py:58 | any division of a path that has those properties is the one `SplitExt` returns, so the properties determine the result |
| Paths.SplitExtExamples | vision/dataset.py:58 | `x.tar.gz` splits as `x.tar` + `.gz`; `a/.bashrc` and `d.v/name` have no extension |
| Paths.Stem | vision/dataset.py:58 | `os.path.splitext(p)[0]`: a prefix of the path that, with the rest of the path as extension, is a division with the splitext properties, so by Paths.SplitExtUnique it is exactly the first part of SplitExt |
| Paths.StemOfJpg | vision/dataset.py:95 | a name `s` ending in an ordinary name character, followed by `.jpg`, divides as splitext into `s` and `.jpg`, so its stem is `s` |
| Paths.NatToString | vision/dataset.py:95 | `str(i)` of a natural number: non-empty, decimal digits only, no leading zero |
| Paths.DecimalRoundTrip | vision/dataset.py:95 | reading the decimal digits back gives the number |
| Paths.NatToStringInjective | vision/dataset.py:95 | distinct numbers print differently |
| Paths.IntToString | vision/dataset.py:58 | `str(id_ann)`: non-empty, ends in a digit, contains no underscore, dot or separator; a non-negative id prints as decimal digits with its value, a negative one as a minus sign before the digits of its absolute value; in both, the digits have no leading zero |
| Paths.IntToStringExamples | vision/dataset.py:58 | 5 prints as `5` and -12 as `-12` |
| Paths.IntToStringInjective | vision/dataset.py:58 | distinct ids print differently |
| Crops.CropName | vision/dataset.py:58 | the save name `{stem}_{id_ann}.jpg` divides as splitext into the image stem, an underscore and the printed id, and the extension `.jpg` |
| Crops.CropRect | vision/dataset.py:54-56 | the crop rectangle starts at the box corner; right minus left is the width and lower minus upper is the height; the rectangle is inverted (right before left or lower before upper, which makes PIL's crop raise) exactly when the width or the height is negative |
| Crops.CropNameInjective | vision/dataset.py:58 | two crop names are equal only for equal stems and equal annotation ids |
| Crops.CropTargetPlace | vision/dataset.py:59 | the crop is saved inside the joined class folder, under a name that divides as splitext into the image stem, an underscore and the printed id, and `.jpg` |
| Crops.CropTargetInjective | vision/dataset.py:59 | two rows of one class have the same crop target only for equal image stems and equal annotation ids |
| Crops.SaveCropsByClass | vision/dataset.py:41-61 | the loop leaves exactly the disk and the outcome of the row-by-row specification: skip a row without a box, create the class folder, open the image, unpack the box, save only when the target does not exist |
| Crops.CropOne | vision/dataset.py:42-61 | one pass of the loop body leaves exactly the disk and outcome of the one-row specification |
| Crops.CropRowValid | vision/dataset.py:44-61 | one row keeps the disk well formed and only adds to it |
| Crops.CropRowOnlyAdds | vision/dataset.py:44-61 | one row adds at most its class folder and its crop file, and nothing for a row without a box |
| Crops.CropRowAgain | vision/dataset.py:60-61 | a row that succeeded does nothing and raises nothing on any well-formed disk that grew from its result |
| Crops.CropRowDone | vision/dataset.py:48-61 | a row with a box that succeeded leaves its class folder a directory and an entry at its target, found its image readable, its box four numbers and its rectangle not inverted |
| Crops.CropRowSettled | vision/dataset.py:48-61 | a row whose class folder, readable image, non-inverted rectangle and target are already in place succeeds and changes nothing |
| Crops.CropRowWrites | vision/dataset.py:51-61 | when the class folder can be made, the image opens, the box is four numbers and the target is absent: the class folder is the only directory added; an inverted rectangle raises `InvertedBox` and writes nothing; a crop that cannot be encoded raises `CannotSave` and writes nothing; otherwise the row succeeds and the target holds exactly the encoded crop of the image to the row's rectangle, with no other file changed |
| Crops.CropRowRepeat | vision/dataset.py:44-61 | a row run again on the disk it left behind leaves that disk exactly as it is and ends the same way, whether it succeeded or raised |
| Crops.CropFromValid | vision/dataset.py:41-61 | the whole loop keeps the disk well formed and never removes or overwrites a file |
| Crops.CropOnlyAdds | vision/dataset.py:41-61 | the only entries the loop adds are class folders and crop targets of rows that have a box |
| Crops.CropFromAgain | vision/dataset.py:60-61 | rerunning after a successful run, over any well-formed disk that grew from it, changes nothing |
| Crops.CropIdempotent | vision/dataset.py:41-61 | running the crop step again over the disk one run left leaves that disk exactly as it is and ends with the same outcome, also when the first run raised |
| Crops.CropCoversRows | vision/dataset.py:48-61 | after a successful run every row with a box has its class folder and an entry at its crop target |
| Augment.StaticPipelineOrder | vision/dataset.py:76-81 | documents the fixed pipeline by unfolding it: on one draw it is flip (p=0.5), then brightness/contrast (p=0.2), then rotation (limit 20, p=0.5), then Gaussian noise (p=0.2), each applied to the result of the one before |
| Augment.AugName | vision/dataset.py:135 | the save name `{stem}_aug{i}.jpg` divides as splitext into the image stem, `_aug` and the printed draw number, and the extension `.jpg` |
| Augment.AugNameInjective | vision/dataset.py:135 | two output names are equal only for equal stems and equal draw numbers |
| Augment.AugOutputsCount | vision/dataset.py:133-136 | one image has exactly `num_augmentations` distinct output names |
| Augment.ApplyAugmentationsForClass | vision/dataset.py:120-136 | the loops leave exactly the disk and outcome of the specification: make the output folder, raise when the input folder is missing, and for each listed image that decodes write every draw under its own name; the returned listing enumerates the input folder once each |
| Augment.ApplyStaticAugmentationsForClass | vision/dataset.py:73-96 | the same as the general driver, with the transform of draw `i` being the fixed four-step pipeline applied on that draw |
| Augment.WriteAugsKeeps | vision/dataset.py:133-136 | the inner loop keeps every directory and every file, and a well-formed disk stays well formed |
| Augment.WriteAugsChanges | vision/dataset.py:133-136 | the inner loop changes only the output names of its draws |
| Augment.WriteAugsWritesDraw | vision/dataset.py:133-136 | the output entry of draw `j`, when it is not a directory, ends up holding the encoded image of draw `j`: later draws have other names, so they do not overwrite it |
| Augment.WriteAugsLeaves | vision/dataset.py:133-136 | a file that none of the remaining draws names keeps its contents through the inner loop |
| Augment.WriteAugsWrites | vision/dataset.py:133-136 | every draw `j` whose output entry is not a directory ends up with that entry holding the encoded image of draw `j` |
| Augment.WriteAugsEffect | vision/dataset.py:133-136 | the inner loop keeps every directory and file, changes only this image's output names, and ends with the name of each draw holding the encoded image of that draw |
| Augment.AugmentOneEffect | vision/dataset.py:125-136 | one pass changes only output entries of the image it reads and leaves the input folder's images as they were |
| Augment.AugmentFromKeeps | vision/dataset.py:125-136 | the outer loop keeps the disk well formed, leaves the directories exactly as they were and removes no file; this holds also when the input and output folders are the same |
| Augment.AugmentFromOnlyOutputs | vision/dataset.py:125-136 | every entry the outer loop changes is an output name of a readable listed image |
| Augment.AugmentFromWritesAll | vision/dataset.py:125-136 | every output name of every readable listed image is a file afterwards, unless a directory stands there |
| Augment.AugmentFromUntouched | vision/dataset.py:125-136 | a file that no later listed image can name keeps its contents |
| Augment.AugmentFromContent | vision/dataset.py:133-136 | an image whose stem no other listed image shares ends with the output name of each draw `i` holding that image transformed on draw `i`; a file that was there before is overwritten |
| Augment.AugmentOutputsPerImage | vision/dataset.py:125-136 | each readable listed image yields exactly `num_augmentations` output files |
| FileSystems.FileSystem.Read | vision/dataset.py:52 | opening an entry gives bytes exactly when a regular file stands there, and then exactly that file's bytes |
| FileSystems.FileSystem.MakeDirs | vision/dataset.py:49 | `os.makedirs(..., exist_ok=True)`: when a regular file stands at the entry it raises and nothing changes; otherwise the entry is a directory afterwards and nothing else changes |
| FileSystems.FileSystem.Write | vision/dataset.py:61 | saving at an entry that is not a directory makes it a file holding exactly the given bytes and changes nothing else; on a directory nothing changes |
| FileSystems.FileSystem.ListDir | vision/dataset.py:100 | `os.listdir`: every file and sub-directory of the folder exactly once, and nothing else |
| FileSystems.FileSystem.Exists | vision/dataset.py:60 | `os.path.exists`: true exactly when a file or a directory stands at the entry |
| FileSystems.FileSystem.IsDir | vision/dataset.py:102 | `os.path.isdir`: true exactly when a directory stands at the entry |
| FileSystems.FileSystem.IsFile | vision/dataset.py:103 | `os.path.isfile`: true exactly when a regular file stands at the entry |
| Counts.Insert | vision/dataset.py:106 | inserting into a list sorted by decreasing count keeps it sorted and adds exactly that item |
| Counts.SortByCountDesc | vision/dataset.py:106 | the result is sorted by decreasing count and is a permutation of the input |
| Counts.SortIsStable | vision/dataset.py:106 | the items of any one count keep their dictionary insertion order |
| Counts.SortUnique | vision/dataset.py:106 | sorting keeps the class names unique, as dictionary keys |
| Counts.ClassCountsItems | vision/dataset.py:99-104 | the unsorted dictionary has one entry per listed sub-directory, none for a regular file, each holding that sub-directory's file count, with no name twice |
| Counts.ClassCountsSound | vision/dataset.py:99-104 | every item is for a listed name that is a sub-directory, and holds that sub-directory's count of regular files |
| Counts.ClassCountsComplete | vision/dataset.py:99-104 | every listed sub-directory has its item |
| Counts.ClassCountsHas | vision/dataset.py:99-104 | the sub-directory at any position of the listing has its item |
| Counts.ClassCountsUnique | vision/dataset.py:99-104 | a listing without repeats gives items with unique names |
| Counts.ListingCountsAllFiles | vision/dataset.py:103 | counting regular files over a full listing gives the number of regular files in the folder |
| Counts.CountFiles | vision/dataset.py:103 | the count is the number of regular files directly in the folder; sub-directories are not counted |
| Counts.CountClasses | vision/dataset.py:99-107 | over an existing base folder: the result is the stable descending sort of the per-sub-directory counts in listing order; it has one entry per sub-directory and nothing else, unique names and the right counts; the listing used enumerates the base folder |
| Counts.CountFilesPerClass | vision/dataset.py:98-107 | raises `NoSuchDirectory` exactly when the base folder is not a directory, as listing it does; otherwise it returns the CountClasses result |
| Counts.CountExample | vision/dataset.py:106 | classes of two and five files come out with the five first |

## Left out

- `show_random_augmented_image_by_class` (vision/dataset.py:138-164) is not modelled. It only displays an image picked at random with matplotlib. As written, it also uses `random` and `plt` without importing them.
- The plotting, training, model-zoo and configuration modules of the repository are not part of this model.
- Pixel work is not modelled: PIL's crop, PIL's and cv2's decoding and encoding, and what each albumentations step does to an image. Decoding, cropping, encoding and the pipeline's step semantics are function parameters.
- The randomness of the albumentations transforms is not modelled. The transform is an uninterpreted function of the image and the draw number, standing for what the random state gives on that draw. The model does not say that two draws give different images.
- BBoxes.ScaleBox: reals stand for Python floats, so IEEE rounding, infinities and NaN inside a box are not modelled. NaN is modelled only as a whole-cell missing value.
- BBoxes.ScaleBox: the items of a list or tuple are numbers. A four-element list holding a non-numeric item (such as `[None, 1, 2, 3]`) makes `float` raise in the source. The model cannot represent that cell, so it does not model that exception.
- BBoxes.RescaleBoundingBoxes: requires the first row's width and height to be non-zero. Numpy would produce infinities there, and that is not modelled.
- BBoxes.RescaleBoundingBoxes: the column-name parameters are fixed to their defaults. The model updates the table as a new value, not in place.
- Crops.SaveCropsByClass: the column-name parameters `bbox_column`, `file_column` and `label_column` are fixed to their defaults (`bbox_scaled`, `file_name`, `name`).
- Crops.CropRect: PIL rounds crop coordinates to integers. The model keeps them as reals and hands them to the crop parameter. The inverted-rectangle test is on reals, so float rounding of `x0 + width` is not modelled.
- Crops.CropRowWrites / Crops.SaveCropsByClass: whether `Image.save` can write the cropped image as JPEG (it cannot for modes such as RGBA, P or LA) is the `encode` parameter returning no bytes. The model then raises with nothing written. It does not model the partly written file that Pillow removes when the save fails.
- Crops.SaveCropsByClass: `open` stands for both `Image.open` and the decoding that PIL defers to the crop. A file whose header reads but whose pixel data does not decode raises in the source only after the box has been unpacked and checked for inversion. The model raises `CannotOpen` before the box checks, so for such a file with a malformed or inverted box the model and the source raise different errors.
- Crops.SaveCropsByClass: `id_ann` is modelled as an integer, so other column types are not covered. The model treats a box cell that is neither None nor a four-element list or tuple of numbers as malformed, and raises. Python's unpacking would accept any four-element iterable whose items convert to float, such as a numpy array or the string `"1234"`, and would crop it. The model does not cover those cells.
- Paths.Join: only POSIX paths are modelled, not Windows (`ntpath`). Path normalisation, aliasing (`a/./b`, symbolic links) and names that contain separators are not modelled.
- Counts.CountFilesPerClass: the base folder is given as its entry (parent, name), so a root folder without a parent entry is not modelled.
- FileSystems.Disk.MakeDirs / FileSystems.FileSystem.MakeDirs: only the last directory of the path is created; missing parent directories are not. A write onto a directory is a no-op. Write permissions and full disks are not modelled.
- Augment.ApplyAugmentationsForClass: a file that cannot be read or decoded is skipped silently. In the source it prints a message, and console output and tqdm progress bars are not modelled.
- Augment.ApplyAugmentationsForClass: the drivers also return the listing they iterated over. The source does not return it. It is there so the contracts can name the operating system's order.
- Augment.AugmentOneEffect, Augment.AugmentFromOnlyOutputs, Augment.AugmentFromWritesAll, Augment.AugmentFromUntouched, Augment.AugmentFromContent, Augment.AugmentOutputsPerImage: these lemmas require the input and output folders to differ. The drivers and their specification also cover `input_root == output_root`, where they augment in place. In that case a later listed image can be an output the loop has just written, so it is read in its new form. Only Augment.AugmentFromKeeps is proved for that case.
- Augment.AugmentFromContent: two listed images with the same stem (say `a.jpg` and `a.png`) write to the same output names, and the later one wins. The lemma covers only images with a unique stem.

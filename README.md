# wdv3tagger — a verified model of the per-image tagging logic

`wdv3tagger.py` tags every image of a folder with the labels a pretrained
classifier (SmilingWolf's `wd-vit-tagger-v3`) predicts, and writes the tags as
a caption text file under `./captions/`, into the image's `IPTC:Keywords` and
`XMP:Subject` fields, or both. This project models in Dafny the decision logic
around the classifier call:

- `Labels`: the label table split by category code (9 rating, 0 general,
  4 character) into ascending index lists (`LabelData`, `load_model_and_tags`).
- `Selection`: threshold-based tag selection
  (`process_predictions_with_thresholds`); scores are only compared with `>=`
  and are modelled as reals.
- `Padding`: the integer arithmetic that places the image on its square
  canvas (`prepare_image`).
- `Metadata`: `normalize_tags` over the three shapes an existing field can
  have, and the set union that both fields receive (`update_metadata`).
- `Discovery`: the suffix filter and the listing/walk loop of
  `get_image_paths`, as a method proved against a filtering function.
- `Output`: caption path and caption text (`process_image_file`).
- `Pipeline`: one file's processing with its failure points, and the
  `tag_images` loop that accumulates `processed_files`, as a method proved
  against the report and write-log functions.
- `PyStr`, `PyPath`: the Python `str` and `os.path` operations these rely on
  (`strip`, `split`, `join`, `replace`, `lower`, `endswith`, `os.path.join`,
  `basename`, `splitext`).

The outside world (image decoding, inference, the file system, the metadata
tool) is an input: for each image path a `FileEnv` says whether opening
succeeds, what scores inference returns (or that it raised), whether the
caption directory can be made, and whether each write succeeds. Writes are
recorded as `Effect` values.

What the program does, and does not do, around these steps:

- The program has no format sniffing, no rename on a wrong extension, no
  list of skipped files with reasons and no overwrite flag. Existing tags are merged
  as a set union, so order and duplicates are lost.
- Only `os.listdir` (non-recursive mode) raises `FileNotFoundError` for a
  missing folder. `os.walk` (recursive mode) yields nothing for it, so that
  run reports "Process completed." with an empty list.
- A failing caption write or metadata update is caught inside
  `process_image_file`/`update_metadata`; the file is still reported as
  processed. Only a failure to open or preprocess the image, of inference, of
  indexing the scores, or of `os.makedirs` for the caption directory (modes
  "Text File" and "Both") drops a file from the report.
- A list item is kept when it is non-empty and is stripped afterwards, so an
  all-whitespace item becomes the empty tag `""`. A comma-delimited string
  drops such pieces. A field value that is neither a list nor a string (a
  single numeric keyword, say) counts as no tags.
- In "Metadata" mode the caption path (line 121) is computed but never
  used: no caption is written in that mode.
- Separator removal applies to the caption text only. The metadata fields
  receive the selected tags with their underscores.
- The suffix test has no dot, so `xpng` qualifies. In non-recursive mode,
  directory entries that are folders are listed too. A folder whose name
  passes the test then fails to open and is dropped from the report.

## Model

| member | source | states |
|---|---|---|
| `PyStr.Strip` | wdv3tagger.py:146-148 | the result is empty iff the input is all whitespace; otherwise it neither starts nor ends with whitespace |
| `PyStr.StripIsInfix` | wdv3tagger.py:146-148 | `strip` removes an all-whitespace prefix and an all-whitespace suffix and nothing else |
| `PyStr.StripIdempotent` | wdv3tagger.py:146-148 | stripping twice is stripping once |
| `PyStr.Split` | wdv3tagger.py:148 | `split(",")` gives at least one piece, and no piece contains a comma |
| `PyStr.JoinSplit` | wdv3tagger.py:148 | joining the pieces of `s.split(d)` with `d` gives `s` back |
| `PyStr.SplitJoin` | wdv3tagger.py:148 | splitting a join of separator-free pieces gives the pieces back |
| `PyStr.Replace` | wdv3tagger.py:126 | same length; every occurrence of the old character becomes the new one and every other character stays |
| `PyStr.ReplaceRemoves` | wdv3tagger.py:126 | after `replace("_", " ")` no underscore is left |
| `PyStr.ReplaceJoin` | wdv3tagger.py:124-126 | replacing in the joined string equals joining the replaced tags, when the separator has no `_` |
| `Labels.IndicesWhere` | wdv3tagger.py:58-60 | `np.where(category == code)[0]`: strictly ascending row indices, exactly the rows with that code |
| `Labels.PartitionSpec` | wdv3tagger.py:56-61 | codes 9, 0, 4 give the rating, general and character lists; the lists are disjoint, ascending and in range; a row with any other code is in none |
| `Selection.Kept` | wdv3tagger.py:93-94 | the thresholded comprehension yields at most one name per index, each a label name |
| `Selection.KeptAppend` | wdv3tagger.py:93-94 | indices are visited in list order and each decided alone: filtering a concatenation concatenates the filtered parts |
| `Selection.KeptMember` | wdv3tagger.py:93-94 | a name is kept iff some listed index carries it with a score `>=` the threshold (inclusive) |
| `Selection.KeptAll` | wdv3tagger.py:93-94 | when every listed score meets the threshold, all names come out in list order |
| `Selection.KeptNone` | wdv3tagger.py:93-94 | when no listed score meets the threshold, nothing comes out |
| `Selection.KeptMonotone` | wdv3tagger.py:93-94 | raising a threshold can only drop names |
| `Selection.SelectTags` | wdv3tagger.py:88-103 | every output tag is a label name; with rating tags hidden the output is no longer than the character and general lists together; shown, it is at least as long as the rating list and holds the name of every rating index |
| `Selection.SelectTagsLayout` | wdv3tagger.py:93-101 | output = character++general if `character_tags_first` else general++character, then the rating names unless hidden; length is the sum of the three parts; each group uses only its own threshold |
| `Selection.SelectTagsMember` | wdv3tagger.py:93-101 | a tag is output iff it is a character name at or above the character threshold, a general name at or above the general threshold, or, unless hidden, a rating name |
| `Selection.HiddenRatingNeverEmitted` | wdv3tagger.py:97 | with `hide_rating_tags`, a name that is no character or general name is never output, whatever the thresholds |
| `Selection.CharacterThresholdAboveAll` | wdv3tagger.py:93-100 | with rating tags hidden, a character threshold above every character score leaves only the general tags |
| `Selection.CharacterThresholdBoundary` | wdv3tagger.py:93 | a character score equal to the threshold is kept, whether rating tags are shown or hidden and in either tag order |
| `Selection.PartitionSelectable` | wdv3tagger.py:56-97 | with a score per table row, selection over the partitioned table never indexes out of range |
| `Padding.Place` | wdv3tagger.py:32-36 | canvas edge = max(w, h); offsets are non-negative and the image fits; the right/bottom share is the left/top share or one more; the longer side gets no padding |
| `Padding.SquareUnpadded` | wdv3tagger.py:32-36 | a square image is pasted at the origin of a canvas of its own size |
| `Metadata.NormalizeItems` | wdv3tagger.py:146 | the list branch yields stripped strings, at most one per item |
| `Metadata.NormalizePieces` | wdv3tagger.py:148 | the string branch yields non-empty stripped pieces |
| `Metadata.Normalize` | wdv3tagger.py:144-149 | every element is stripped; for a string, no element is empty or contains a comma; any other value yields `[]` |
| `Metadata.NormalizeItemsMember` | wdv3tagger.py:146 | a list yields exactly the stripped forms of its non-empty items |
| `Metadata.NormalizePiecesMember` | wdv3tagger.py:148 | a string yields exactly the non-empty stripped forms of its comma-separated pieces |
| `Metadata.NormalizeItemsClean` | wdv3tagger.py:146 | a list of clean tags normalises to itself |
| `Metadata.NormalizeJoined` | wdv3tagger.py:124-148 | clean comma-free tags joined with `", "` normalise back to the same list |
| `Metadata.MergedTagsSpec` | wdv3tagger.py:154 | the merged collection is exactly the union of normalised IPTC, normalised XMP and the new tags |
| `Metadata.MergedTagsSymmetric` | wdv3tagger.py:154 | the two existing fields play symmetric parts |
| `Metadata.MergeStable` | wdv3tagger.py:144-160 | when the tool reads the written fields back as lists, merging the same tags again changes nothing, provided all merged tags are clean |
| `Metadata.SingleKeywordReadBack` | wdv3tagger.py:147-148 | a field read back as one plain string holding a clean comma-free keyword normalises to that keyword alone |
| `Metadata.UpdatedFields` | wdv3tagger.py:151-160 | exactly the two fields are written, both with the identical collection, which contains every new tag |
| `PyPath.Basename` | wdv3tagger.py:193 | the base name is the longest `/`-free tail of the path: the character before it is `/` unless it is the whole path |
| `PyPath.BasenameOfJoin` | wdv3tagger.py:193 | a yielded path's base name is the listed file name |
| `PyPath.Stem` | wdv3tagger.py:119 | `splitext(...)[0]` is a prefix of the base name |
| `PyPath.StemOfDotted` | wdv3tagger.py:119 | `s.e` with a dot-free `e` and a stem that is not only dots has stem `s` |
| `PyPath.StemNoDot` | wdv3tagger.py:119 | a name without a dot is its own stem (`xpng` gives `xpng.txt`) |
| `PyPath.StemOfDotOnly` | wdv3tagger.py:119 | a name whose part before the last dot is only dots (`.png`, `..jpg`) has no extension: its stem is the whole name |
| `Discovery.ImageSuffixSpec` | wdv3tagger.py:177 | a lower-cased name ends with one of the six suffixes iff its last three characters are `png`/`jpg`/`bmp`/`gif` or its last four are `jpeg`/`webp` |
| `Discovery.IsImageNameSpec` | wdv3tagger.py:173 | a name qualifies iff its last three characters, lower-cased, are `png`/`jpg`/`bmp`/`gif` or its last four are `jpeg`/`webp` |
| `Discovery.IsImageNameCaseBlind` | wdv3tagger.py:173 | lower-casing a name first does not change the verdict |
| `Discovery.DotlessNameAccepted` | wdv3tagger.py:177 | `xpng` qualifies: the suffixes have no leading dot |
| `Discovery.UpperCaseNameAccepted` | wdv3tagger.py:177 | `Photo.JPEG` qualifies |
| `Discovery.InnerSuffixRejected` | wdv3tagger.py:177 | `png.txt` does not qualify |
| `Discovery.CandidatesIn` | wdv3tagger.py:176-178 | at most one candidate per listed name |
| `Discovery.CandidatesInMember` | wdv3tagger.py:176-178 | a listed file is yielded iff its name passes the suffix test |
| `Discovery.WalkCandidatesMember` | wdv3tagger.py:170-174 | in recursive mode a file is yielded iff some walked directory lists it and its name passes |
| `Discovery.CandidatesInAppend` | wdv3tagger.py:176-178 | the filter keeps listing order |
| `Discovery.FilterListing` | wdv3tagger.py:176-178 | the loop over one listing yields exactly the filtered listing |
| `Discovery.ImagePaths` | wdv3tagger.py:169-178 | the generator yields the filtered walk in recursive mode and the filtered listing otherwise |
| `Output.CaptionPathMirrors` | wdv3tagger.py:116-119 | in "Text File"/"Both" mode the caption is `./captions/<subdirs>/<stem>.txt` |
| `Output.CaptionPathFlat` | wdv3tagger.py:120-121 | in "Metadata" mode the caption path is `./captions/<stem>.txt`, whatever the subdirectory; this path is computed but never written, since the write at lines 128-134 happens only in "Text File" and "Both" modes |
| `Output.CaptionPathSharedByStem` | wdv3tagger.py:119 | two images of one directory that differ only in extension share one caption file |
| `Output.LeadingDotCaption` | wdv3tagger.py:116-119 | in "Text File" and "Both" modes an image named `.<e>` (dot-free `e`, such as `.png`) keeps its whole name in its caption, `./captions/<subdirs>/.<e>.txt` |
| `Output.CaptionTextRemovesSeparator` | wdv3tagger.py:124-126 | with separator removal the text is the join of the per-tag replacements and holds no `_` |
| `Output.CaptionTextReadsBack` | wdv3tagger.py:124 | without separator removal, a caption of clean comma-free tags normalises back to the tag list |
| `Pipeline.ProcessFileFinishes` | wdv3tagger.py:182-194 | a file finishes iff it opens, inference returns scores covering every character and general index, every rating index names a label when rating tags are shown, and (outside "Metadata" mode) its caption directory is made |
| `Pipeline.ProcessFileWrites` | wdv3tagger.py:114-137 | a finished file's tags are the selection for its scores; it writes the caption (caption path, caption text of those tags) iff the mode asks for a caption and the write succeeds; it writes both tag fields with `UpdatedFields` of the existing tags when the mode asks for metadata and the tool reads and writes; no other write, at most two |
| `Pipeline.ProcessFileWriteContents` | wdv3tagger.py:124-160 | the caption holds no `_` when removal is asked; the tag fields are exactly the two keys, with one collection holding every unstripped selected tag |
| `Pipeline.NamesWhere` | wdv3tagger.py:180-193 | no more reported names than files seen |
| `Pipeline.NamesWhereSplit` | wdv3tagger.py:180-195 | two complementary outcomes split the files between them |
| `Pipeline.NamesWhereAppend` | wdv3tagger.py:180-193 | the names of two stretches of files are those of the first followed by those of the second |
| `Pipeline.NamesWhereSkip` | wdv3tagger.py:180-195 | a file that does not pass leaves the names of the others as they are |
| `Pipeline.NamesWhereMember` | wdv3tagger.py:193 | a name comes out iff some file with that base name passes |
| `Pipeline.ProcessedPlusFailed` | wdv3tagger.py:180-195 | every discovered file is either reported or failed |
| `Pipeline.ProcessedAppend` | wdv3tagger.py:180-195 | the report over two stretches of files is the concatenation of their reports: a file never affects how later files are handled |
| `Pipeline.SkipFailing` | wdv3tagger.py:194-195 | a file that raises is dropped from the report and nothing else is |
| `Pipeline.GatheredAppend` | wdv3tagger.py:180-195 | the contributions of two stretches of files are those of the first followed by those of the second |
| `Pipeline.GatheredSkip` | wdv3tagger.py:180-195 | a file that contributes nothing leaves the others' contributions as they are |
| `Pipeline.WritesAppend` | wdv3tagger.py:180-195 | the write log of two stretches of files is the first's followed by the second's |
| `Pipeline.SkipFailingWrites` | wdv3tagger.py:183-195 | a file that raises writes nothing (every failure point comes before the first write), and the other files' writes are unchanged |
| `Pipeline.ProcessedMember` | wdv3tagger.py:193 | a name is reported iff some discovered file with that base name finished |
| `Pipeline.ReportedName` | wdv3tagger.py:193 | the reported name of a walked file is the file's own name |
| `Pipeline.VisitFile` | wdv3tagger.py:180-195 | one loop pass appends the file's base name and its writes exactly when the file finishes, and nothing when it raises |
| `Pipeline.ProcessAll` | wdv3tagger.py:180-195 | the loop leaves `processed_files` equal to the names of the finished files and the write log equal to their writes, in discovery order |
| `Pipeline.TagImages` | wdv3tagger.py:105-201 | empty folder argument: "Please provide a directory"; missing folder in non-recursive mode: "does not exist"; otherwise "Process completed." with the newline-joined names of the finished files and the writes of the finished files, in discovery order |

## Left out

- The Gradio interface and its launch (wdv3tagger.py:203-224): user interface only.
- Downloading the model and label table and reading the CSV with pandas (wdv3tagger.py:19-22, 54-55): network and a foreign library. The table is an input sequence of (name, category) rows.
- GPU detection, the ONNX Runtime session and `model.run` (wdv3tagger.py:63-85, 185): a foreign inference engine. Its result for a file is `FileEnv.scores`.
- Alpha compositing, bicubic resizing, float32 conversion and the channel swap in `prepare_image` (wdv3tagger.py:27-29, 39-44): image library and floating point. Only the padding arithmetic is modelled, and "opens" covers the whole of `Image.open` and `prepare_image`.
- ExifTool, file writes, `os.makedirs`, `os.listdir`/`os.walk` and `print` (wdv3tagger.py:108, 118, 130-134, 141-166, 171-178): I/O. Listings are inputs, failures are `FileEnv` flags, writes are `Effect` values.
- Failures before the loop: a raising `os.makedirs(output_path)` or a failed model load propagate out of `tag_images` and are not modelled. So does any `os.listdir` error other than `FileNotFoundError` in non-recursive mode (a folder path that is not a directory gives `NotADirectoryError`, an unreadable one `PermissionError`); `Folder` has no case for these. In recursive mode `os.walk` swallows such errors and the run completes with nothing, which `Missing` with `recursive` covers.
- The order of `list(all_tags)`: Python's set iteration order is unspecified, so the fields are modelled as sets.
- Selection.Selectable: demands that every character and general index name a label, while the comprehension reads `names[i]` only for the indices it keeps. For data with a character index past the names whose score is below the threshold, the model raises where the program does not. Data from `Partition` always satisfies the stricter condition (`PartitionSelectable`), so `TagImages` is unaffected.
- PyStr.Lower: maps only the ASCII letters. Python's full Unicode lower-casing is not modelled. It does not change the suffix test for the six ASCII suffixes.
- Metadata.NormalizeItems: list items are modelled as strings. Non-string items (numbers) and their `str()` form are not modelled.
- Output.RelDir: `os.path.relpath` is modelled only for paths the walk produces (the folder joined with non-empty, `/`-free components). POSIX path rules are assumed.
- The order of `os.walk` and `os.listdir` is an input. The model makes no claim about it.

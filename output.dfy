/** Where and how one image's tags are written as a caption
    (`process_image_file` in wdv3tagger.py): the caption path and the
    caption text. */
module Output {
  import opened PyStr
  import opened PyPath
  import opened Discovery
  import Metadata

  /** The fixed root under which captions are written. */
  const OutputPath: string := "./captions/"

  /** The three choices of the "Output to" setting. */
  datatype OutputMode = TextFileMode | BothMode | MetadataMode

  predicate WritesCaption(mode: OutputMode) { mode == TextFileMode || mode == BothMode }
  predicate WritesMetadata(mode: OutputMode) { mode == MetadataMode || mode == BothMode }

  /** `os.path.dirname(os.path.relpath(image_path, image_folder))` for a path
      the walk produced: the candidate's directory components joined by `/`. */
  function RelDir(c: Candidate): string
  {
    Join(c.subdir, "/")
  }

  /** `caption_file_path`: mirrored below `OutputPath` unless the mode is
      "Metadata", where it is flat; the image's stem plus `.txt`. */
  function CaptionPath(folder: string, mode: OutputMode, c: Candidate): string
  {
    var name := Stem(Basename(ImagePath(folder, c))) + ".txt";
    if mode != MetadataMode then PathJoin(PathJoin(OutputPath, RelDir(c)), name)
    else PathJoin(OutputPath, name)
  }

  /** `", ".join(final_tags)`, with every `_` turned into a space when the
      separator is to be removed. */
  function CaptionText(tags: seq<string>, removeSeparator: bool): string
  {
    var text := Join(tags, ", ");
    if removeSeparator then Replace(text, '_', ' ') else text
  }

  /** A path component as the walk produces it: non-empty, without `/`. */
  predicate IsComponent(s: string) { s != "" && '/' !in s }

  predicate Components(xs: seq<string>)
  {
    forall k :: 0 <= k < |xs| ==> IsComponent(xs[k])
  }

  /** Joining components gives a relative path that neither starts nor ends
      with `/`. */
  lemma {:induction false} JoinComponents(xs: seq<string>)
    requires |xs| > 0 && Components(xs)
    ensures var j := Join(xs, "/"); j != "" && j[0] != '/' && j[|j| - 1] != '/'
    decreases |xs|
  {
    if |xs| > 1 {
      JoinComponents(xs[1..]);
      var j := Join(xs, "/");
      assert j == xs[0] + "/" + Join(xs[1..], "/");
      assert j[0] == xs[0][0];
    }
  }

  /** Concatenation regrouped, kept apart so that the step is proved without
      the path definitions in view. */
  lemma AppendAssoc(a: string, b: string, d: string)
    ensures a + (b + d) == a + b + d
  {
  }

  lemma MirrorJoin(rel: string, name: string)
    requires name != "" && name[0] != '/'
    requires rel == "" || (rel[0] != '/' && rel[|rel| - 1] != '/')
    ensures PathJoin(PathJoin(OutputPath, rel), name) ==
            OutputPath + (if rel == "" then "" else rel + "/") + name
  {
    if rel != "" {
      var dir := OutputPath + rel;
      assert PathJoin(OutputPath, rel) == dir;
      assert dir[|dir| - 1] == rel[|rel| - 1];
    }
  }

  /** The caption file name of a walked file is its stem plus `.txt`. */
  lemma CaptionName(folder: string, c: Candidate)
    requires IsComponent(c.file)
    ensures Stem(Basename(ImagePath(folder, c))) == Stem(c.file)
    ensures var name := Stem(c.file) + ".txt"; name != "" && name[0] != '/'
  {
    BasenameOfJoin(WalkRoot(folder, c.subdir), c.file);
    var name := Stem(c.file) + ".txt";
    if Stem(c.file) != "" { assert name[0] == c.file[0]; }
  }

  /** In "Text File" and "Both" mode the caption mirrors the image's
      directory below `OutputPath`: `./captions/<subdirs>/<stem>.txt`. */
  lemma CaptionPathMirrors(folder: string, mode: OutputMode, c: Candidate)
    requires mode != MetadataMode
    requires IsComponent(c.file) && Components(c.subdir)
    ensures CaptionPath(folder, mode, c) ==
      OutputPath + (if c.subdir == [] then "" else RelDir(c) + "/") + Stem(c.file) + ".txt"
  {
    var name := Stem(c.file) + ".txt";
    var rel := RelDir(c);
    assert name != "" && name[0] != '/' &&
           CaptionPath(folder, mode, c) == PathJoin(PathJoin(OutputPath, rel), name) by {
      CaptionName(folder, c);
    }
    assert (rel == "") == (c.subdir == []) &&
           (rel == "" || (rel[0] != '/' && rel[|rel| - 1] != '/')) by {
      if c.subdir != [] { JoinComponents(c.subdir); }
    }
    MirrorJoin(rel, name);
    var prefix := OutputPath + (if c.subdir == [] then "" else rel + "/");
    AppendAssoc(prefix, Stem(c.file), ".txt");
  }

  /** In "Metadata" mode the caption path is flat: the image's directory does
      not enter it. */
  lemma CaptionPathFlat(folder: string, c: Candidate)
    requires IsComponent(c.file)
    ensures CaptionPath(folder, MetadataMode, c) == OutputPath + Stem(c.file) + ".txt"
  {
    var name := Stem(c.file) + ".txt";
    assert name != "" && name[0] != '/' &&
           CaptionPath(folder, MetadataMode, c) == PathJoin(OutputPath, name) by {
      CaptionName(folder, c);
    }
    AppendAssoc(OutputPath, Stem(c.file), ".txt");
  }

  /** Images that differ only in their extension share a caption file. */
  lemma CaptionPathSharedByStem(folder: string, mode: OutputMode, sub: seq<string>,
                                s: string, e1: string, e2: string)
    requires Components(sub) && IsComponent(s) && !AllDots(s)
    requires IsComponent(e1) && IsComponent(e2) && '.' !in e1 && '.' !in e2
    ensures CaptionPath(folder, mode, Candidate(sub, s + "." + e1)) ==
            CaptionPath(folder, mode, Candidate(sub, s + "." + e2))
  {
    StemOfDotted(s, e1);
    StemOfDotted(s, e2);
    assert IsComponent(s + "." + e1) by { assert s + "." + e1 == s + ("." + e1); }
    assert IsComponent(s + "." + e2) by { assert s + "." + e2 == s + ("." + e2); }
    if mode == MetadataMode {
      CaptionPathFlat(folder, Candidate(sub, s + "." + e1));
      CaptionPathFlat(folder, Candidate(sub, s + "." + e2));
    } else {
      CaptionPathMirrors(folder, mode, Candidate(sub, s + "." + e1));
      CaptionPathMirrors(folder, mode, Candidate(sub, s + "." + e2));
    }
  }

  lemma DotName(e: string)
    requires '.' !in e && '/' !in e
    ensures IsComponent("." + e) && Stem("." + e) == "." + e
  {
    StemOfDotOnly("", e);
    assert "" + "." + e == "." + e;
    assert ("." + e)[0] == '.';
  }

  /** A name whose only dot leads it (`.png`) has no extension, so in the
      modes that write captions its caption keeps the whole name:
      `./captions/<subdirs>/.png.txt`. */
  lemma LeadingDotCaption(folder: string, mode: OutputMode, c: Candidate, e: string)
    requires mode != MetadataMode && Components(c.subdir)
    requires '.' !in e && '/' !in e && c.file == "." + e
    ensures CaptionPath(folder, mode, c) ==
      OutputPath + (if c.subdir == [] then "" else RelDir(c) + "/") + c.file + ".txt"
  {
    DotName(e);
    CaptionPathMirrors(folder, mode, c);
  }

  /** Removing the separator acts on every tag alone and leaves no `_`. */
  lemma CaptionTextRemovesSeparator(tags: seq<string>)
    ensures CaptionText(tags, true) == Join(ReplaceEach(tags, '_', ' '), ", ")
    ensures '_' !in CaptionText(tags, true)
  {
    ReplaceJoin(tags, ", ", '_', ' ');
    ReplaceRemoves(Join(tags, ", "), '_', ' ');
  }

  /** Without separator removal, a caption of clean comma-free tags reads
      back, as a delimited string, as the same tag list. */
  lemma CaptionTextReadsBack(tags: seq<string>)
    requires Metadata.Clean(tags)
    requires forall k :: 0 <= k < |tags| ==> ',' !in tags[k]
    ensures Metadata.Normalize(Metadata.Raw(CaptionText(tags, false))) == tags
  {
    Metadata.NormalizeJoined(tags);
  }
}

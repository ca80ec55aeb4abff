/** The batch run (`tag_images` in wdv3tagger.py): every candidate file is
    carried through open, inference, selection and output on its own, and a
    failing file is left out of the report without stopping the run. What the
    outside world does for a file (decoding, inference, the file system, the
    metadata tool) is an input, `FileEnv`, looked up by the file's path. */
module Pipeline {
  import opened PyStr
  import opened PyPath
  import opened Labels
  import opened Selection
  import opened Metadata
  import opened Discovery
  import opened Output

  datatype Option<T> = None | Some(value: T)

  /** The settings of one run. */
  datatype Config = Config(
    recursive: bool,
    characterTagsFirst: bool,
    generalThresh: real,
    characterThresh: real,
    hideRatingTags: bool,
    removeSeparator: bool,
    outputTo: OutputMode)

  /** How the outside world behaves for one image path. */
  datatype FileEnv = FileEnv(
    opens: bool,                                     // `Image.open` and `prepare_image` succeed
    scores: Option<seq<real>>,                       // what `model.run` returns; None: it raised
    captionDirMade: bool,                            // `os.makedirs(caption_dir)` succeeds
    captionWritten: bool,                            // opening and writing the caption succeed
    existingTags: Option<map<string, ExistingValue>>, // `get_tags`; None: the tool failed
    tagsWritten: bool)                               // `set_tags` succeeds

  /** A write the run performs. */
  datatype Effect =
    | CaptionFile(path: string, text: string)
    | TagFields(path: string, fields: map<string, set<string>>)

  /** How one file ends: an exception reached the loop, or it finished with
      the tags selected for it and the writes performed for it. */
  datatype FileResult = Raised | Finished(tags: seq<string>, effects: seq<Effect>)

  /** The folder being scanned: missing, or its own listing (`os.listdir`)
      and the steps of a walk below it (`os.walk`). */
  datatype Folder = Missing | Present(listing: seq<string>, walk: seq<WalkEntry>)

  const NoFolderMessage: string := "Error: Please provide a directory."
  const MissingFolderMessage: string := "Error: The specified directory does not exist."
  const CompletedMessage: string := "Process completed."

  /** The body of the loop for one file. Failures of the caption write and of
      the metadata tool are caught inside and only lose that write; a failure
      to open, infer, index the scores or make the caption directory raises. */
  function ProcessFile(folder: string, c: Candidate, cfg: Config, labels: LabelData,
                       env: FileEnv): FileResult
  {
    if !env.opens || env.scores.None? then Raised
    else if !Selectable(labels, env.scores.value, cfg.hideRatingTags) then Raised
    else
      var tags := SelectTags(env.scores.value, labels, cfg.characterThresh, cfg.generalThresh,
                             cfg.hideRatingTags, cfg.characterTagsFirst);
      if cfg.outputTo != MetadataMode && !env.captionDirMade then Raised
      else
        var path := ImagePath(folder, c);
        var caption :=
          if WritesCaption(cfg.outputTo) && env.captionWritten
          then [CaptionFile(CaptionPath(folder, cfg.outputTo, c), CaptionText(tags, cfg.removeSeparator))]
          else [];
        var fields :=
          if WritesMetadata(cfg.outputTo) && env.existingTags.Some? && env.tagsWritten
          then [TagFields(path, UpdatedFields(env.existingTags.value, tags))]
          else [];
        Finished(tags, caption + fields)
  }

  /** When a file finishes: it opens, inference returns scores covering every
      character and general index, and, outside "Metadata" mode, its caption
      directory can be made. Write failures do not make a file fail. */
  lemma ProcessFileFinishes(folder: string, c: Candidate, cfg: Config, labels: LabelData, env: FileEnv)
    ensures ProcessFile(folder, c, cfg, labels, env).Finished? <==>
      env.opens && env.scores.Some? && Selectable(labels, env.scores.value, cfg.hideRatingTags) &&
      (cfg.outputTo == MetadataMode || env.captionDirMade)
  {
  }

  /** What a finished file writes. Its tags are the selection for its
      scores. It writes the caption, at the caption path with the caption
      text, exactly when the mode asks for a caption and the write succeeds;
      it writes the merged tag fields exactly when the mode asks for metadata
      and the tool reads and writes the image; and it writes nothing else. */
  lemma ProcessFileWrites(folder: string, c: Candidate, cfg: Config, labels: LabelData, env: FileEnv)
    requires ProcessFile(folder, c, cfg, labels, env).Finished?
    ensures env.scores.Some? && Selectable(labels, env.scores.value, cfg.hideRatingTags)
    ensures var r := ProcessFile(folder, c, cfg, labels, env);
      var caption := CaptionFile(CaptionPath(folder, cfg.outputTo, c),
                                 CaptionText(r.tags, cfg.removeSeparator));
      r.tags == SelectTags(env.scores.value, labels, cfg.characterThresh, cfg.generalThresh,
                           cfg.hideRatingTags, cfg.characterTagsFirst) &&
      (caption in r.effects <==> WritesCaption(cfg.outputTo) && env.captionWritten) &&
      (WritesMetadata(cfg.outputTo) && env.existingTags.Some? && env.tagsWritten ==>
         TagFields(ImagePath(folder, c), UpdatedFields(env.existingTags.value, r.tags)) in r.effects) &&
      (forall e :: e in r.effects && e.CaptionFile? ==> e == caption) &&
      (forall e :: e in r.effects && e.TagFields? ==>
         WritesMetadata(cfg.outputTo) && env.existingTags.Some? && env.tagsWritten &&
         e == TagFields(ImagePath(folder, c), UpdatedFields(env.existingTags.value, r.tags))) &&
      |r.effects| <= 2
  {
  }

  /** The content of those writes: the caption has no `_` when separator
      removal is asked, while the tag fields receive the selected tags
      unstripped, the same collection in both fields. */
  lemma ProcessFileWriteContents(folder: string, c: Candidate, cfg: Config, labels: LabelData,
                                 env: FileEnv)
    requires ProcessFile(folder, c, cfg, labels, env).Finished?
    ensures var r := ProcessFile(folder, c, cfg, labels, env);
      (forall e :: e in r.effects && e.CaptionFile? ==>
         WritesCaption(cfg.outputTo) && (cfg.removeSeparator ==> '_' !in e.text)) &&
      (forall e :: e in r.effects && e.TagFields? ==>
         e.fields.Keys == {IptcKeywords, XmpSubject} &&
         e.fields[IptcKeywords] == e.fields[XmpSubject] &&
         forall t :: t in r.tags ==> t in e.fields[IptcKeywords])
  {
    var r := ProcessFile(folder, c, cfg, labels, env);
    ProcessFileWrites(folder, c, cfg, labels, env);
    if cfg.removeSeparator {
      CaptionTextRemovesSeparator(r.tags);
    }
  }

  /** The result of one file of a run, looked up in the environment by path. */
  function Outcome(folder: string, c: Candidate, cfg: Config, labels: LabelData,
                   env: string -> FileEnv): FileResult
  {
    ProcessFile(folder, c, cfg, labels, env(ImagePath(folder, c)))
  }

  /** Whether a file of the run finishes, and whether it raises. */
  function Finishes(folder: string, cfg: Config, labels: LabelData, env: string -> FileEnv):
    Candidate -> bool
  {
    c => Outcome(folder, c, cfg, labels, env).Finished?
  }

  function Raises(folder: string, cfg: Config, labels: LabelData, env: string -> FileEnv):
    Candidate -> bool
  {
    c => Outcome(folder, c, cfg, labels, env).Raised?
  }

  /** The base names of the files of `cs` that pass `keep`, in order. */
  function NamesWhere(folder: string, cs: seq<Candidate>, keep: Candidate -> bool): (r: seq<string>)
    ensures |r| <= |cs|
    decreases |cs|
  {
    if |cs| == 0 then []
    else
      var n := |cs| - 1;
      NamesWhere(folder, cs[..n], keep) +
      (if keep(cs[n]) then [Basename(ImagePath(folder, cs[n]))] else [])
  }

  /** `processed_files` after the loop has seen `cs`: the base names of the
      files that finished, in discovery order. */
  function Processed(folder: string, cs: seq<Candidate>, cfg: Config, labels: LabelData,
                     env: string -> FileEnv): seq<string>
  {
    NamesWhere(folder, cs, Finishes(folder, cfg, labels, env))
  }

  /** The base names of the files that raised, in discovery order. */
  function Failed(folder: string, cs: seq<Candidate>, cfg: Config, labels: LabelData,
                  env: string -> FileEnv): seq<string>
  {
    NamesWhere(folder, cs, Raises(folder, cfg, labels, env))
  }

  /** The writes a file of the run contributes: its own when it finishes,
      none when it raises. */
  function Emitted(folder: string, cfg: Config, labels: LabelData, env: string -> FileEnv):
    Candidate -> seq<Effect>
  {
    c => var r := Outcome(folder, c, cfg, labels, env); if r.Finished? then r.effects else []
  }

  /** The contributions of the files of `cs`, in order. */
  function Gathered(cs: seq<Candidate>, each: Candidate -> seq<Effect>): seq<Effect>
    decreases |cs|
  {
    if |cs| == 0 then [] else Gathered(cs[..|cs| - 1], each) + each(cs[|cs| - 1])
  }

  /** The writes performed while the loop has seen `cs`, in order. */
  function Writes(folder: string, cs: seq<Candidate>, cfg: Config, labels: LabelData,
                  env: string -> FileEnv): seq<Effect>
  {
    Gathered(cs, Emitted(folder, cfg, labels, env))
  }

  lemma GatheredSnoc(cs: seq<Candidate>, c: Candidate, each: Candidate -> seq<Effect>)
    ensures Gathered(cs + [c], each) == Gathered(cs, each) + each(c)
  {
    assert (cs + [c])[..|cs|] == cs;
  }

  /** The contributions of two stretches of files are those of the first
      followed by those of the second. */
  lemma {:induction false} GatheredAppend(a: seq<Candidate>, b: seq<Candidate>,
                                          each: Candidate -> seq<Effect>)
    ensures Gathered(a + b, each) == Gathered(a, each) + Gathered(b, each)
    decreases |b|
  {
    if |b| == 0 {
      assert a + b == a;
    } else {
      var n := |b| - 1;
      var init := b[..n];
      assert b == init + [b[n]];
      assert a + b == (a + init) + [b[n]];
      GatheredAppend(a, init, each);
      GatheredSnoc(a + init, b[n], each);
      GatheredSnoc(init, b[n], each);
    }
  }

  /** A file that contributes nothing leaves the contributions of the others
      as they are. */
  lemma GatheredSkip(a: seq<Candidate>, c: Candidate, b: seq<Candidate>,
                     each: Candidate -> seq<Effect>)
    requires each(c) == []
    ensures Gathered(a + [c] + b, each) == Gathered(a + b, each)
  {
    GatheredAppend(a + [c], b, each);
    GatheredSnoc(a, c, each);
    GatheredAppend(a, b, each);
  }

  lemma WritesSnoc(folder: string, cs: seq<Candidate>, c: Candidate, cfg: Config,
                   labels: LabelData, env: string -> FileEnv)
    ensures var r := Outcome(folder, c, cfg, labels, env);
      Writes(folder, cs + [c], cfg, labels, env) ==
      Writes(folder, cs, cfg, labels, env) + (if r.Finished? then r.effects else [])
  {
    GatheredSnoc(cs, c, Emitted(folder, cfg, labels, env));
  }

  /** The write log of two stretches of files is that of the first followed
      by that of the second. */
  lemma WritesAppend(folder: string, a: seq<Candidate>, b: seq<Candidate>,
                     cfg: Config, labels: LabelData, env: string -> FileEnv)
    ensures Writes(folder, a + b, cfg, labels, env) ==
            Writes(folder, a, cfg, labels, env) + Writes(folder, b, cfg, labels, env)
  {
    GatheredAppend(a, b, Emitted(folder, cfg, labels, env));
  }

  /** A file that raises writes nothing (every failure point comes before
      the first write), and the writes of the other files are unchanged. */
  lemma SkipFailingWrites(folder: string, a: seq<Candidate>, c: Candidate, b: seq<Candidate>,
                          cfg: Config, labels: LabelData, env: string -> FileEnv)
    requires Outcome(folder, c, cfg, labels, env).Raised?
    ensures Writes(folder, a + [c] + b, cfg, labels, env) == Writes(folder, a + b, cfg, labels, env)
  {
    GatheredSkip(a, c, b, Emitted(folder, cfg, labels, env));
  }

  /** Two complementary tests split the files between them. */
  lemma {:induction false} NamesWhereSplit(folder: string, cs: seq<Candidate>,
                                           keep: Candidate -> bool, drop: Candidate -> bool)
    requires forall c :: drop(c) == !keep(c)
    ensures |NamesWhere(folder, cs, keep)| + |NamesWhere(folder, cs, drop)| == |cs|
    decreases |cs|
  {
    if |cs| > 0 {
      NamesWhereSplit(folder, cs[..|cs| - 1], keep, drop);
    }
  }

  /** Every discovered file is either processed or failed, never both. */
  lemma ProcessedPlusFailed(folder: string, cs: seq<Candidate>, cfg: Config,
                            labels: LabelData, env: string -> FileEnv)
    ensures |Processed(folder, cs, cfg, labels, env)| + |Failed(folder, cs, cfg, labels, env)| == |cs|
  {
    NamesWhereSplit(folder, cs, Finishes(folder, cfg, labels, env), Raises(folder, cfg, labels, env));
  }

  lemma NamesWhereSnoc(folder: string, cs: seq<Candidate>, c: Candidate, keep: Candidate -> bool)
    ensures NamesWhere(folder, cs + [c], keep) ==
            NamesWhere(folder, cs, keep) + (if keep(c) then [Basename(ImagePath(folder, c))] else [])
  {
    assert (cs + [c])[..|cs|] == cs;
  }

  /** The names of two stretches of files are those of the first followed by
      those of the second. */
  lemma {:induction false} NamesWhereAppend(folder: string, a: seq<Candidate>, b: seq<Candidate>,
                                            keep: Candidate -> bool)
    ensures NamesWhere(folder, a + b, keep) == NamesWhere(folder, a, keep) + NamesWhere(folder, b, keep)
    decreases |b|
  {
    if |b| == 0 {
      assert a + b == a;
    } else {
      var n := |b| - 1;
      var init := b[..n];
      assert b == init + [b[n]];
      assert a + b == (a + init) + [b[n]];
      NamesWhereAppend(folder, a, init, keep);
      NamesWhereSnoc(folder, a + init, b[n], keep);
      NamesWhereSnoc(folder, init, b[n], keep);
    }
  }

  /** Failure isolation: the report for two stretches of files is the report
      for the first followed by that for the second, so what a file does never
      changes how later files are handled. */
  lemma ProcessedAppend(folder: string, a: seq<Candidate>, b: seq<Candidate>,
                        cfg: Config, labels: LabelData, env: string -> FileEnv)
    ensures Processed(folder, a + b, cfg, labels, env) ==
            Processed(folder, a, cfg, labels, env) + Processed(folder, b, cfg, labels, env)
  {
    NamesWhereAppend(folder, a, b, Finishes(folder, cfg, labels, env));
  }

  /** A file that does not pass leaves the names of the others unchanged. */
  lemma NamesWhereSkip(folder: string, a: seq<Candidate>, c: Candidate, b: seq<Candidate>,
                       keep: Candidate -> bool)
    requires !keep(c)
    ensures NamesWhere(folder, a + [c] + b, keep) == NamesWhere(folder, a + b, keep)
  {
    NamesWhereAppend(folder, a + [c], b, keep);
    NamesWhereSnoc(folder, a, c, keep);
    NamesWhereAppend(folder, a, b, keep);
  }

  /** A file that raises is dropped from the report and nothing else is. */
  lemma SkipFailing(folder: string, a: seq<Candidate>, c: Candidate, b: seq<Candidate>,
                    cfg: Config, labels: LabelData, env: string -> FileEnv)
    requires Outcome(folder, c, cfg, labels, env).Raised?
    ensures Processed(folder, a + [c] + b, cfg, labels, env) ==
            Processed(folder, a + b, cfg, labels, env)
  {
    NamesWhereSkip(folder, a, c, b, Finishes(folder, cfg, labels, env));
  }

  /** A name comes out iff some file of `cs` with that base name passes. */
  lemma {:induction false} NamesWhereMember(folder: string, cs: seq<Candidate>,
                                            keep: Candidate -> bool, name: string)
    ensures name in NamesWhere(folder, cs, keep) <==>
      exists c :: c in cs && keep(c) && Basename(ImagePath(folder, c)) == name
    decreases |cs|
  {
    if |cs| > 0 {
      var n := |cs| - 1;
      var init := cs[..n];
      assert cs == init + [cs[n]];
      NamesWhereMember(folder, init, keep, name);
      NamesWhereSnoc(folder, init, cs[n], keep);
      assert forall c :: c in cs <==> c in init || c == cs[n];
    }
  }

  /** A name is reported iff some discovered file with that base name
      finished. */
  lemma ProcessedMember(folder: string, cs: seq<Candidate>, cfg: Config,
                        labels: LabelData, env: string -> FileEnv, name: string)
    ensures name in Processed(folder, cs, cfg, labels, env) <==>
      exists c :: c in cs && Outcome(folder, c, cfg, labels, env).Finished? &&
                  Basename(ImagePath(folder, c)) == name
  {
    NamesWhereMember(folder, cs, Finishes(folder, cfg, labels, env), name);
  }

  /** The reported name of a walked file is the file's own name. */
  lemma ReportedName(folder: string, c: Candidate)
    requires IsComponent(c.file)
    ensures Basename(ImagePath(folder, c)) == c.file
  {
    BasenameOfJoin(WalkRoot(folder, c.subdir), c.file);
  }

  /** The files the loop visits: `os.listdir` of a missing folder raises, but
      `os.walk` of one yields nothing. */
  function Discovered(dir: Folder, recursive: bool): seq<Candidate>
  {
    if dir.Missing? then [] else Candidates(recursive, dir.listing, dir.walk)
  }

  /** The run is aborted only when no folder is given or when the folder is
      missing and the listing is not recursive. */
  predicate Aborts(folder: string, dir: Folder, recursive: bool)
  {
    folder == "" || (dir.Missing? && !recursive)
  }

  /** One pass of the loop body: the file is processed inside the `try`, and
      only when it finishes are its name and writes appended. */
  method VisitFile(folder: string, c: Candidate, cfg: Config, labels: LabelData,
                   env: string -> FileEnv, processedFiles: seq<string>, writes: seq<Effect>)
    returns (processedFiles': seq<string>, writes': seq<Effect>)
    ensures var r := Outcome(folder, c, cfg, labels, env);
      processedFiles' == processedFiles +
        (if Finishes(folder, cfg, labels, env)(c) then [Basename(ImagePath(folder, c))] else []) &&
      writes' == writes + (if r.Finished? then r.effects else [])
  {
    var path := ImagePath(folder, c);
    var r := ProcessFile(folder, c, cfg, labels, env(path));
    processedFiles', writes' := processedFiles, writes;
    if r.Finished? {
      writes' := writes' + r.effects;
      processedFiles' := processedFiles' + [Basename(path)];
    }
  }

  /** The loop of `tag_images` over the discovered files: each file is
      processed on its own, and only a finished file is appended to
      `processed_files` and has its writes kept. */
  method ProcessAll(folder: string, cs: seq<Candidate>, cfg: Config, labels: LabelData,
                    env: string -> FileEnv)
    returns (processedFiles: seq<string>, writes: seq<Effect>)
    ensures processedFiles == Processed(folder, cs, cfg, labels, env)
    ensures writes == Writes(folder, cs, cfg, labels, env)
  {
    processedFiles := [];
    writes := [];
    var i := 0;
    while i < |cs|
      invariant 0 <= i <= |cs|
      invariant processedFiles == Processed(folder, cs[..i], cfg, labels, env)
      invariant writes == Writes(folder, cs[..i], cfg, labels, env)
    {
      processedFiles, writes := VisitFile(folder, cs[i], cfg, labels, env, processedFiles, writes);
      assert cs[..i + 1] == cs[..i] + [cs[i]];
      NamesWhereSnoc(folder, cs[..i], cs[i], Finishes(folder, cfg, labels, env));
      WritesSnoc(folder, cs[..i], cs[i], cfg, labels, env);
      i := i + 1;
    }
    assert cs[..i] == cs;
  }

  /** `tag_images`: the status message, the newline-joined report of
      processed files, and the writes performed. */
  method TagImages(folder: string, dir: Folder, cfg: Config, table: seq<Label>,
                   env: string -> FileEnv)
    returns (status: string, report: string, writes: seq<Effect>)
    ensures folder == "" ==> status == NoFolderMessage && report == "" && writes == []
    ensures folder != "" && dir.Missing? && !cfg.recursive ==>
      status == MissingFolderMessage && report == "" && writes == []
    ensures !Aborts(folder, dir, cfg.recursive) ==>
      var labels := Partition(table);
      var cs := Discovered(dir, cfg.recursive);
      status == CompletedMessage &&
      report == Join(Processed(folder, cs, cfg, labels, env), "\n") &&
      writes == Writes(folder, cs, cfg, labels, env)
  {
    if folder == "" {
      return NoFolderMessage, "", [];
    }
    var labels := Partition(table);
    if dir.Missing? && !cfg.recursive {
      return MissingFolderMessage, "", [];
    }
    var cs: seq<Candidate> := [];
    if dir.Present? {
      cs := ImagePaths(cfg.recursive, dir.listing, dir.walk);
    }
    var processedFiles;
    processedFiles, writes := ProcessAll(folder, cs, cfg, labels, env);
    status := CompletedMessage;
    report := Join(processedFiles, "\n");
  }
}

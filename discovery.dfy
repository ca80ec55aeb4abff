/** Which files of the scanned folder are tagged (`get_image_paths` in
    wdv3tagger.py). */
module Discovery {
  import opened PyStr
  import opened PyPath

  /** The suffixes a lower-cased file name must end with. They carry no
      leading dot, so `xpng` qualifies as well as `x.png`. */
  const ImageSuffixes: seq<string> := ["png", "jpg", "jpeg", "bmp", "gif", "webp"]

  /** `s.endswith(suffixes)` for a tuple of suffixes. */
  predicate EndsWithAny(s: string, suffixes: seq<string>)
  {
    exists k :: 0 <= k < |suffixes| && EndsWith(s, suffixes[k])
  }

  /** `file.lower().endswith(('png', 'jpg', 'jpeg', 'bmp', 'gif', 'webp'))`. */
  predicate IsImageName(file: string)
  {
    EndsWithAny(Lower(file), ImageSuffixes)
  }

  lemma LowerSuffix(s: string, n: nat)
    requires n <= |s|
    ensures Lower(s)[|s| - n..] == Lower(s[|s| - n..])
  {
  }

  /** The suffix test on an already lower-cased name, spelled out. */
  predicate ShortSuffix(l: string)
  {
    |l| >= 3 && l[|l| - 3..] in {"png", "jpg", "bmp", "gif"}
  }

  predicate LongSuffix(l: string)
  {
    |l| >= 4 && l[|l| - 4..] in {"jpeg", "webp"}
  }

  lemma SuffixListed(l: string, k: int)
    requires 0 <= k < |ImageSuffixes| && EndsWith(l, ImageSuffixes[k])
    ensures ShortSuffix(l) || LongSuffix(l)
  {
    if k == 0 { assert l[|l| - 3..] == "png"; }
    else if k == 1 { assert l[|l| - 3..] == "jpg"; }
    else if k == 2 { assert l[|l| - 4..] == "jpeg"; }
    else if k == 3 { assert l[|l| - 3..] == "bmp"; }
    else if k == 4 { assert l[|l| - 3..] == "gif"; }
    else { assert l[|l| - 4..] == "webp"; }
  }

  lemma ShortSuffixListed(l: string)
    requires ShortSuffix(l)
    ensures EndsWithAny(l, ImageSuffixes)
  {
    var t := l[|l| - 3..];
    if t == "png" { assert EndsWith(l, ImageSuffixes[0]); }
    else if t == "jpg" { assert EndsWith(l, ImageSuffixes[1]); }
    else if t == "bmp" { assert EndsWith(l, ImageSuffixes[3]); }
    else { assert EndsWith(l, ImageSuffixes[4]); }
  }

  lemma LongSuffixListed(l: string)
    requires LongSuffix(l)
    ensures EndsWithAny(l, ImageSuffixes)
  {
    if l[|l| - 4..] == "jpeg" { assert EndsWith(l, ImageSuffixes[2]); }
    else { assert EndsWith(l, ImageSuffixes[5]); }
  }

  /** The suffix test is the spelled-out test on the lower-cased name. */
  lemma ImageSuffixSpec(l: string)
    ensures EndsWithAny(l, ImageSuffixes) <==> ShortSuffix(l) || LongSuffix(l)
  {
    if EndsWithAny(l, ImageSuffixes) {
      var k :| 0 <= k < |ImageSuffixes| && EndsWith(l, ImageSuffixes[k]);
      SuffixListed(l, k);
    }
    if ShortSuffix(l) { ShortSuffixListed(l); }
    if LongSuffix(l) { LongSuffixListed(l); }
  }

  /** The test looks at the last three or four characters only, case-blind:
      a name qualifies iff its last three, lower-cased, are one of `png`, `jpg`,
      `bmp`, `gif`, or its last four are `jpeg` or `webp`. */
  lemma IsImageNameSpec(file: string)
    ensures IsImageName(file) <==>
      (|file| >= 3 && Lower(file[|file| - 3..]) in {"png", "jpg", "bmp", "gif"}) ||
      (|file| >= 4 && Lower(file[|file| - 4..]) in {"jpeg", "webp"})
  {
    ImageSuffixSpec(Lower(file));
    ShortSuffixLower(file);
    LongSuffixLower(file);
  }

  lemma ShortSuffixLower(file: string)
    ensures ShortSuffix(Lower(file)) <==>
      |file| >= 3 && Lower(file[|file| - 3..]) in {"png", "jpg", "bmp", "gif"}
  {
    if |file| >= 3 {
      LowerSuffix(file, 3);
      var t := Lower(file[|file| - 3..]);
      assert Lower(file)[|file| - 3..] == t;
    }
  }

  lemma LongSuffixLower(file: string)
    ensures LongSuffix(Lower(file)) <==>
      |file| >= 4 && Lower(file[|file| - 4..]) in {"jpeg", "webp"}
  {
    if |file| >= 4 {
      LowerSuffix(file, 4);
      var t := Lower(file[|file| - 4..]);
      assert Lower(file)[|file| - 4..] == t;
    }
  }

  /** Lower-casing a name first does not change the verdict. */
  lemma IsImageNameCaseBlind(file: string)
    ensures IsImageName(Lower(file)) == IsImageName(file)
  {
    LowerIdempotent(file);
  }

  /** The suffix test needs no dot: `xpng` is taken for an image. */
  lemma DotlessNameAccepted()
    ensures IsImageName("xpng")
  {
    var l := Lower("xpng");
    assert l == "xpng";
    assert EndsWith(l, ImageSuffixes[0]);
  }

  /** The suffix test ignores case. */
  lemma UpperCaseNameAccepted()
    ensures IsImageName("Photo.JPEG")
  {
    var l := Lower("Photo.JPEG");
    assert LowerChar('J') == 'j' && LowerChar('P') == 'p';
    assert LowerChar('E') == 'e' && LowerChar('G') == 'g';
    assert l[6] == 'j' && l[7] == 'p' && l[8] == 'e' && l[9] == 'g';
    assert l[6..] == "jpeg";
    assert EndsWith(l, ImageSuffixes[2]);
  }

  /** Only the end of the name counts: `png.txt` is not an image. */
  lemma InnerSuffixRejected()
    ensures !IsImageName("png.txt")
  {
    IsImageNameSpec("png.txt");
    assert "png.txt"[4..] == "txt" && "png.txt"[3..] == ".txt";
    assert Lower("txt") == "txt";
    assert Lower(".txt") == ".txt";
  }

  /** One step of `os.walk`: a directory, given by its path components below
      the scanned folder, and the names of the files directly in it. */
  datatype WalkEntry = WalkEntry(subdir: seq<string>, files: seq<string>)

  /** A yielded file: the components of its directory below the scanned
      folder, and its name. */
  datatype Candidate = Candidate(subdir: seq<string>, file: string)

  /** The walk root `os.walk` reports for a directory: the scanned folder
      joined with each component in turn. */
  function WalkRoot(folder: string, subdir: seq<string>): string
    decreases |subdir|
  {
    if |subdir| == 0 then folder
    else PathJoin(WalkRoot(folder, subdir[..|subdir| - 1]), subdir[|subdir| - 1])
  }

  /** The path the generator yields for a candidate: `os.path.join(root, file)`. */
  function ImagePath(folder: string, c: Candidate): string
  {
    PathJoin(WalkRoot(folder, c.subdir), c.file)
  }

  /** One listed file as the filter yields it: itself if it passes the suffix
      test, nothing otherwise. */
  function Pick(subdir: seq<string>, file: string): seq<Candidate>
  {
    if IsImageName(file) then [Candidate(subdir, file)] else []
  }

  /** The image files of one directory, in listing order. */
  function CandidatesIn(subdir: seq<string>, files: seq<string>): (r: seq<Candidate>)
    ensures |r| <= |files|
    decreases |files|
  {
    if |files| == 0 then []
    else
      CandidatesIn(subdir, files[..|files| - 1]) + Pick(subdir, files[|files| - 1])
  }

  /** The image files of a whole walk, directory after directory. */
  function WalkCandidates(walk: seq<WalkEntry>): seq<Candidate>
    decreases |walk|
  {
    if |walk| == 0 then []
    else WalkCandidates(walk[..|walk| - 1]) +
         CandidatesIn(walk[|walk| - 1].subdir, walk[|walk| - 1].files)
  }

  /** What the generator yields: in recursive mode the image files of every
      walked directory, otherwise those of the folder's own listing. */
  function Candidates(recursive: bool, listing: seq<string>, walk: seq<WalkEntry>): seq<Candidate>
  {
    if recursive then WalkCandidates(walk) else CandidatesIn([], listing)
  }

  /** A file of a directory is yielded iff its name passes the suffix test. */
  lemma {:induction false} CandidatesInMember(subdir: seq<string>, files: seq<string>, c: Candidate)
    ensures c in CandidatesIn(subdir, files) <==>
            c.subdir == subdir && c.file in files && IsImageName(c.file)
    decreases |files|
  {
    if |files| > 0 {
      var n := |files| - 1;
      CandidatesInMember(subdir, files[..n], c);
      assert files == files[..n] + [files[n]];
    }
  }

  /** Over the whole walk, a file is yielded iff it is listed in some walked
      directory and its name passes the suffix test. */
  lemma {:induction false} WalkCandidatesMember(walk: seq<WalkEntry>, c: Candidate)
    ensures c in WalkCandidates(walk) <==>
      exists e :: e in walk && e.subdir == c.subdir && c.file in e.files && IsImageName(c.file)
    decreases |walk|
  {
    if |walk| > 0 {
      var n := |walk| - 1;
      WalkCandidatesMember(walk[..n], c);
      CandidatesInMember(walk[n].subdir, walk[n].files, c);
      assert walk == walk[..n] + [walk[n]];
      assert forall e :: e in walk <==> e in walk[..n] || e == walk[n];
    }
  }

  lemma CandidatesInSnoc(subdir: seq<string>, files: seq<string>, f: string)
    ensures CandidatesIn(subdir, files + [f]) == CandidatesIn(subdir, files) + Pick(subdir, f)
  {
    assert (files + [f])[..|files|] == files;
  }

  /** The filter keeps the listing order: the image files of a concatenated
      listing are those of the first part followed by those of the second. */
  lemma {:induction false} CandidatesInAppend(subdir: seq<string>, a: seq<string>, b: seq<string>)
    ensures CandidatesIn(subdir, a + b) == CandidatesIn(subdir, a) + CandidatesIn(subdir, b)
    decreases |b|
  {
    if |b| == 0 {
      assert a + b == a;
    } else {
      var n := |b| - 1;
      var init := b[..n];
      assert b == init + [b[n]];
      assert a + b == (a + init) + [b[n]];
      CandidatesInAppend(subdir, a, init);
      CandidatesInSnoc(subdir, a + init, b[n]);
      CandidatesInSnoc(subdir, init, b[n]);
    }
  }

  /** The files of one listing that pass the suffix test, in listing order. */
  method FilterListing(subdir: seq<string>, files: seq<string>) returns (cs: seq<Candidate>)
    ensures cs == CandidatesIn(subdir, files)
  {
    cs := [];
    var j := 0;
    while j < |files|
      invariant 0 <= j <= |files|
      invariant cs == CandidatesIn(subdir, files[..j])
    {
      var file := files[j];
      if IsImageName(file) {
        cs := cs + [Candidate(subdir, file)];
      }
      assert files[..j + 1][..j] == files[..j];
      j := j + 1;
    }
    assert files[..j] == files;
  }

  /** The generator, as the loop that builds the list it yields. */
  method ImagePaths(recursive: bool, listing: seq<string>, walk: seq<WalkEntry>)
    returns (paths: seq<Candidate>)
    ensures paths == Candidates(recursive, listing, walk)
  {
    if recursive {
      paths := [];
      var i := 0;
      while i < |walk|
        invariant 0 <= i <= |walk|
        invariant paths == WalkCandidates(walk[..i])
      {
        var found := FilterListing(walk[i].subdir, walk[i].files);
        paths := paths + found;
        assert walk[..i + 1][..i] == walk[..i];
        i := i + 1;
      }
      assert walk[..i] == walk;
    } else {
      paths := FilterListing([], listing);
    }
  }
}

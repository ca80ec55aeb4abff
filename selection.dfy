/** Threshold-based tag selection (`process_predictions_with_thresholds` in
    wdv3tagger.py). Scores are only compared with `>=`, so they are reals. */
module Selection {
  import opened Labels

  /** Every index of `idx` names a label and has a score. */
  predicate Indexable(idx: seq<nat>, names: seq<string>, scores: seq<real>)
  {
    forall k :: 0 <= k < |idx| ==> idx[k] < |names| && idx[k] < |scores|
  }

  /** When selection runs without raising `IndexError`: every character and
      general index into both the names and the scores and, unless rating
      tags are hidden (then their list is never built), every rating index
      into the names (rating tags never look at a score). The comprehensions
      read a name only for an index they keep, so this is stricter than the
      program for a name index past the table whose score is below the
      threshold; label data built by `Partition` meets it whenever there is
      a score per row (`PartitionSelectable`). */
  predicate Selectable(labels: LabelData, scores: seq<real>, hideRatingTags: bool)
  {
    Indexable(labels.character, labels.names, scores) &&
    Indexable(labels.general, labels.names, scores) &&
    (!hideRatingTags ==> forall k :: 0 <= k < |labels.rating| ==> labels.rating[k] < |labels.names|)
  }

  /** `[names[i] for i in idx if scores[i] >= thresh]`. */
  function Kept(names: seq<string>, idx: seq<nat>, scores: seq<real>, thresh: real): (r: seq<string>)
    requires Indexable(idx, names, scores)
    ensures |r| <= |idx|
    ensures forall k :: 0 <= k < |r| ==> r[k] in names
    decreases |idx|
  {
    if |idx| == 0 then []
    else
      (if scores[idx[0]] >= thresh then [names[idx[0]]] else []) +
      Kept(names, idx[1..], scores, thresh)
  }

  /** `[names[i] for i in idx]`. */
  function NamesAt(names: seq<string>, idx: seq<nat>): (r: seq<string>)
    requires forall k :: 0 <= k < |idx| ==> idx[k] < |names|
    ensures |r| == |idx|
    ensures forall k :: 0 <= k < |idx| ==> r[k] == names[idx[k]]
  {
    seq(|idx|, k requires 0 <= k < |idx| => names[idx[k]])
  }

  /** The selection of one image's tags. */
  function SelectTags(scores: seq<real>, labels: LabelData,
                      characterThresh: real, generalThresh: real,
                      hideRatingTags: bool, characterTagsFirst: bool): (r: seq<string>)
    requires Selectable(labels, scores, hideRatingTags)
    ensures forall k :: 0 <= k < |r| ==> r[k] in labels.names
    ensures hideRatingTags ==> |r| <= |labels.character| + |labels.general|
    ensures !hideRatingTags ==> |r| >= |labels.rating|
    ensures !hideRatingTags ==>
      forall k :: 0 <= k < |labels.rating| ==> labels.names[labels.rating[k]] in r
  {
    var characterTags := Kept(labels.names, labels.character, scores, characterThresh);
    var generalTags := Kept(labels.names, labels.general, scores, generalThresh);
    var ratingTags := if hideRatingTags then [] else NamesAt(labels.names, labels.rating);
    (if characterTagsFirst then characterTags + generalTags else generalTags + characterTags)
      + ratingTags
  }

  /** Filtering a concatenation is concatenating the filtered parts: indices are
      visited in list order and each is decided on its own. */
  lemma {:induction false} KeptAppend(names: seq<string>, a: seq<nat>, b: seq<nat>,
                                      scores: seq<real>, thresh: real)
    requires Indexable(a, names, scores) && Indexable(b, names, scores)
    ensures Indexable(a + b, names, scores)
    ensures Kept(names, a + b, scores, thresh) ==
            Kept(names, a, scores, thresh) + Kept(names, b, scores, thresh)
    decreases |a|
  {
    if |a| > 0 {
      assert (a + b)[1..] == a[1..] + b;
      KeptAppend(names, a[1..], b, scores, thresh);
    } else {
      assert a + b == b;
    }
  }

  /** A name is selected iff some index in the list carries it with a score
      at or above the threshold (the comparison is inclusive). */
  lemma {:induction false} KeptMember(names: seq<string>, idx: seq<nat>, scores: seq<real>,
                                      thresh: real, t: string)
    requires Indexable(idx, names, scores)
    ensures t in Kept(names, idx, scores, thresh) <==>
            exists k :: 0 <= k < |idx| && scores[idx[k]] >= thresh && names[idx[k]] == t
    decreases |idx|
  {
    if |idx| > 0 {
      KeptMember(names, idx[1..], scores, thresh, t);
      if exists k :: 0 <= k < |idx| && scores[idx[k]] >= thresh && names[idx[k]] == t {
        var k :| 0 <= k < |idx| && scores[idx[k]] >= thresh && names[idx[k]] == t;
        if k > 0 {
          assert idx[1..][k - 1] == idx[k];
        }
      }
      if exists k :: 0 <= k < |idx| - 1 && scores[idx[1..][k]] >= thresh && names[idx[1..][k]] == t {
        var k :| 0 <= k < |idx| - 1 && scores[idx[1..][k]] >= thresh && names[idx[1..][k]] == t;
        assert idx[k + 1] == idx[1..][k];
      }
    }
  }

  /** When every index meets the threshold, all names come out, in list order. */
  lemma {:induction false} KeptAll(names: seq<string>, idx: seq<nat>, scores: seq<real>, thresh: real)
    requires Indexable(idx, names, scores)
    requires forall k :: 0 <= k < |idx| ==> scores[idx[k]] >= thresh
    ensures Kept(names, idx, scores, thresh) == NamesAt(names, idx)
    decreases |idx|
  {
    if |idx| > 0 {
      KeptAll(names, idx[1..], scores, thresh);
      assert NamesAt(names, idx) == [names[idx[0]]] + NamesAt(names, idx[1..]);
    }
  }

  /** When no index meets the threshold, nothing comes out. */
  lemma {:induction false} KeptNone(names: seq<string>, idx: seq<nat>, scores: seq<real>, thresh: real)
    requires Indexable(idx, names, scores)
    requires forall k :: 0 <= k < |idx| ==> scores[idx[k]] < thresh
    ensures Kept(names, idx, scores, thresh) == []
    decreases |idx|
  {
    if |idx| > 0 {
      KeptNone(names, idx[1..], scores, thresh);
    }
  }

  /** Raising the threshold can only drop names. */
  lemma KeptMonotone(names: seq<string>, idx: seq<nat>, scores: seq<real>,
                     low: real, high: real, t: string)
    requires Indexable(idx, names, scores)
    requires low <= high
    requires t in Kept(names, idx, scores, high)
    ensures t in Kept(names, idx, scores, low)
  {
    KeptMember(names, idx, scores, high, t);
    KeptMember(names, idx, scores, low, t);
  }

  /** The layout of the result: the two thresholded groups in the order the
      flag asks for, then the rating names unless hidden, with nothing else;
      each group is decided by its own threshold only. */
  lemma SelectTagsLayout(scores: seq<real>, labels: LabelData,
                         characterThresh: real, generalThresh: real,
                         hideRatingTags: bool, characterTagsFirst: bool)
    requires Selectable(labels, scores, hideRatingTags)
    ensures var r := SelectTags(scores, labels, characterThresh, generalThresh,
                                hideRatingTags, characterTagsFirst);
      var c := Kept(labels.names, labels.character, scores, characterThresh);
      var g := Kept(labels.names, labels.general, scores, generalThresh);
      var first := if characterTagsFirst then c else g;
      var second := if characterTagsFirst then g else c;
      var nRating := if hideRatingTags then 0 else |labels.rating|;
      |r| == |c| + |g| + nRating &&
      r[..|first|] == first &&
      r[|first|..|c| + |g|] == second &&
      (forall k :: 0 <= k < nRating ==> r[|c| + |g| + k] == labels.names[labels.rating[k]])
  {
  }

  /** Membership: a name is in the result iff it is a character name at or
      above the character threshold, a general name at or above the general
      threshold, or (unless hidden) a rating name. */
  lemma SelectTagsMember(scores: seq<real>, labels: LabelData,
                         characterThresh: real, generalThresh: real,
                         hideRatingTags: bool, characterTagsFirst: bool, t: string)
    requires Selectable(labels, scores, hideRatingTags)
    ensures t in SelectTags(scores, labels, characterThresh, generalThresh,
                            hideRatingTags, characterTagsFirst) <==>
      (exists k :: 0 <= k < |labels.character| &&
         scores[labels.character[k]] >= characterThresh && labels.names[labels.character[k]] == t) ||
      (exists k :: 0 <= k < |labels.general| &&
         scores[labels.general[k]] >= generalThresh && labels.names[labels.general[k]] == t) ||
      (!hideRatingTags &&
         exists k :: 0 <= k < |labels.rating| && labels.names[labels.rating[k]] == t)
  {
    KeptMember(labels.names, labels.character, scores, characterThresh, t);
    KeptMember(labels.names, labels.general, scores, generalThresh, t);
    if !hideRatingTags {
      var rn := NamesAt(labels.names, labels.rating);
      if t in rn {
        var k :| 0 <= k < |rn| && rn[k] == t;
      }
    }
  }

  /** With rating tags hidden, a name that is neither a character nor a
      general label name is never emitted, whatever the thresholds. */
  lemma HiddenRatingNeverEmitted(scores: seq<real>, labels: LabelData,
                                 characterThresh: real, generalThresh: real,
                                 characterTagsFirst: bool, t: string)
    requires Selectable(labels, scores, true)
    requires forall k :: 0 <= k < |labels.character| ==> labels.names[labels.character[k]] != t
    requires forall k :: 0 <= k < |labels.general| ==> labels.names[labels.general[k]] != t
    ensures t !in SelectTags(scores, labels, characterThresh, generalThresh, true, characterTagsFirst)
  {
    SelectTagsMember(scores, labels, characterThresh, generalThresh, true, characterTagsFirst, t);
  }

  /** A character threshold above every character score leaves only the
      general tags (rating tags hidden). */
  lemma CharacterThresholdAboveAll(scores: seq<real>, labels: LabelData,
                                   characterThresh: real, generalThresh: real,
                                   characterTagsFirst: bool)
    requires Selectable(labels, scores, true)
    requires forall k :: 0 <= k < |labels.character| ==> scores[labels.character[k]] < characterThresh
    ensures SelectTags(scores, labels, characterThresh, generalThresh, true, characterTagsFirst) ==
            Kept(labels.names, labels.general, scores, generalThresh)
  {
    KeptNone(labels.names, labels.character, scores, characterThresh);
    var g := Kept(labels.names, labels.general, scores, generalThresh);
    assert g + [] == g && [] + g == g;
  }

  /** A character score equal to the threshold is kept: the comparison is
      inclusive, whatever the order and rating settings. */
  lemma CharacterThresholdBoundary(scores: seq<real>, labels: LabelData,
                                   characterThresh: real, generalThresh: real,
                                   hideRatingTags: bool, characterTagsFirst: bool, k: nat)
    requires Selectable(labels, scores, hideRatingTags)
    requires k < |labels.character| && scores[labels.character[k]] == characterThresh
    ensures labels.names[labels.character[k]] in
            SelectTags(scores, labels, characterThresh, generalThresh, hideRatingTags, characterTagsFirst)
  {
    SelectTagsMember(scores, labels, characterThresh, generalThresh, hideRatingTags, characterTagsFirst,
                     labels.names[labels.character[k]]);
  }

  /** Selection over the label data of a table never raises when there is
      a score for every row. */
  lemma PartitionSelectable(table: seq<Label>, scores: seq<real>, hideRatingTags: bool)
    requires |scores| >= |table|
    ensures Selectable(Partition(table), scores, hideRatingTags)
  {
    PartitionSpec(table);
  }
}

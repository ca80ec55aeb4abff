/** Merging newly selected tags into the tags an image already carries
    (`normalize_tags` and the union in `update_metadata` in wdv3tagger.py). */
module Metadata {
  import opened PyStr

  /** What the metadata tool returns for one tag field: a list of items, a
      single (comma-delimited) string, or anything else, including nothing. */
  datatype ExistingValue = Itemized(items: seq<string>) | Raw(text: string) | Other

  /** The two fields the tagger reads and writes. */
  const IptcKeywords: string := "IPTC:Keywords"
  const XmpSubject: string := "XMP:Subject"

  /** `existing.get(key)`: a field the tool did not report reads as `None`. */
  function FieldValue(existing: map<string, ExistingValue>, key: string): (v: ExistingValue)
    ensures key !in existing ==> v == Other
  {
    if key in existing then existing[key] else Other
  }

  /** `[str(t).strip() for t in tags if t]`: empty items are dropped before
      stripping, so an all-whitespace item becomes `""`. */
  function NormalizeItems(items: seq<string>): (r: seq<string>)
    ensures |r| <= |items|
    ensures forall k :: 0 <= k < |r| ==> Strip(r[k]) == r[k]
    decreases |items|
  {
    if |items| == 0 then []
    else
      var rest := NormalizeItems(items[1..]);
      if items[0] != "" then
        StripIdempotent(items[0]);
        [Strip(items[0])] + rest
      else rest
  }

  /** `[t.strip() for t in pieces if t.strip()]`. */
  function NormalizePieces(pieces: seq<string>): (r: seq<string>)
    ensures |r| <= |pieces|
    ensures forall k :: 0 <= k < |r| ==> r[k] != "" && Strip(r[k]) == r[k]
    decreases |pieces|
  {
    if |pieces| == 0 then []
    else
      var rest := NormalizePieces(pieces[1..]);
      if Strip(pieces[0]) != "" then
        StripIdempotent(pieces[0]);
        [Strip(pieces[0])] + rest
      else rest
  }

  /** `normalize_tags`. */
  function Normalize(v: ExistingValue): (r: seq<string>)
    ensures forall k :: 0 <= k < |r| ==> Strip(r[k]) == r[k]
    ensures v.Raw? ==> forall k :: 0 <= k < |r| ==> r[k] != "" && ',' !in r[k]
    ensures v.Other? ==> r == []
  {
    match v
    case Itemized(items) => NormalizeItems(items)
    case Raw(text) =>
      var r := NormalizePieces(Split(text, ','));
      NoCommaInPieces(Split(text, ','));
      r
    case Other => []
  }

  lemma {:induction false} NoCommaInPieces(pieces: seq<string>)
    requires forall k :: 0 <= k < |pieces| ==> ',' !in pieces[k]
    ensures forall k :: 0 <= k < |NormalizePieces(pieces)| ==> ',' !in NormalizePieces(pieces)[k]
    decreases |pieces|
  {
    if |pieces| > 0 {
      NoCommaInPieces(pieces[1..]);
      StripIsInfix(pieces[0]);
      var s := pieces[0];
      var i := Lead(s);
      var t := Strip(s);
      assert forall c :: c in t ==> c in s by {
        forall c | c in t ensures c in s {
          var j :| 0 <= j < |t| && t[j] == c;
          assert s[i + j] == c;
        }
      }
    }
  }

  /** A delimited string yields exactly its non-blank comma-separated pieces,
      trimmed. */
  lemma {:induction false} NormalizePiecesMember(pieces: seq<string>, t: string)
    ensures t in NormalizePieces(pieces) <==>
            t != "" && exists k :: 0 <= k < |pieces| && Strip(pieces[k]) == t
    decreases |pieces|
  {
    if |pieces| > 0 {
      NormalizePiecesMember(pieces[1..], t);
      if exists k :: 0 <= k < |pieces| && Strip(pieces[k]) == t {
        var k :| 0 <= k < |pieces| && Strip(pieces[k]) == t;
        if k > 0 { assert pieces[1..][k - 1] == pieces[k]; }
      }
      if exists k :: 0 <= k < |pieces| - 1 && Strip(pieces[1..][k]) == t {
        var k :| 0 <= k < |pieces| - 1 && Strip(pieces[1..][k]) == t;
        assert pieces[k + 1] == pieces[1..][k];
      }
    }
  }

  /** A list yields exactly its non-empty items, trimmed. */
  lemma {:induction false} NormalizeItemsMember(items: seq<string>, t: string)
    ensures t in NormalizeItems(items) <==>
            exists k :: 0 <= k < |items| && items[k] != "" && Strip(items[k]) == t
    decreases |items|
  {
    if |items| > 0 {
      NormalizeItemsMember(items[1..], t);
      if exists k :: 0 <= k < |items| && items[k] != "" && Strip(items[k]) == t {
        var k :| 0 <= k < |items| && items[k] != "" && Strip(items[k]) == t;
        if k > 0 { assert items[1..][k - 1] == items[k]; }
      }
      if exists k :: 0 <= k < |items| - 1 && items[1..][k] != "" && Strip(items[1..][k]) == t {
        var k :| 0 <= k < |items| - 1 && items[1..][k] != "" && Strip(items[1..][k]) == t;
        assert items[k + 1] == items[1..][k];
      }
    }
  }

  /** Tags that are already trimmed and non-empty. */
  predicate Clean(tags: seq<string>)
  {
    forall k :: 0 <= k < |tags| ==> tags[k] != "" && Strip(tags[k]) == tags[k]
  }

  /** A list of clean tags normalises to itself. */
  lemma {:induction false} NormalizeItemsClean(items: seq<string>)
    requires Clean(items)
    ensures NormalizeItems(items) == items
    decreases |items|
  {
    if |items| > 0 {
      NormalizeItemsClean(items[1..]);
      assert items == [items[0]] + items[1..];
    }
  }

  /** Clean, comma-free tags joined with `", "` (the caption format) normalise
      back to the same list. */
  lemma NormalizeJoined(tags: seq<string>)
    requires Clean(tags)
    requires forall k :: 0 <= k < |tags| ==> ',' !in tags[k]
    ensures Normalize(Raw(Join(tags, ", "))) == tags
  {
    if |tags| == 0 {
      assert Split("", ',') == [""];
      assert Strip("") == "";
    } else {
      var pieces := Padded(tags);
      JoinPadded(tags);
      SplitJoin(pieces, ',');
      PaddedNormalize(tags);
    }
  }

  /** The pieces that splitting `Join(tags, ", ")` at `,` yields: every tag
      but the first keeps the space that followed its comma. */
  function Padded(tags: seq<string>): (r: seq<string>)
    ensures |r| == |tags|
    decreases |tags|
  {
    if |tags| <= 1 then tags
    else [tags[0]] + PaddedTail(tags[1..])
  }

  function PaddedTail(tags: seq<string>): (r: seq<string>)
    ensures |r| == |tags|
    ensures forall k :: 0 <= k < |tags| ==> r[k] == " " + tags[k]
  {
    seq(|tags|, k requires 0 <= k < |tags| => " " + tags[k])
  }

  lemma {:induction false} JoinPadded(tags: seq<string>)
    requires |tags| >= 1
    requires forall k :: 0 <= k < |tags| ==> ',' !in tags[k]
    ensures Join(tags, ", ") == Join(Padded(tags), ",")
    ensures forall k :: 0 <= k < |Padded(tags)| ==> ',' !in Padded(tags)[k]
    decreases |tags|
  {
    if |tags| > 1 {
      JoinPadded(tags[1..]);
      var p := Padded(tags);
      assert p[1..] == PaddedTail(tags[1..]);
      JoinTail(tags[1..]);
      assert Join(p, ",") == p[0] + "," + Join(p[1..], ",");
    }
  }

  lemma {:induction false} JoinTail(tags: seq<string>)
    requires |tags| >= 1
    ensures " " + Join(tags, ", ") == Join(PaddedTail(tags), ",")
    decreases |tags|
  {
    if |tags| > 1 {
      JoinTail(tags[1..]);
      assert PaddedTail(tags)[1..] == PaddedTail(tags[1..]);
      assert Join(PaddedTail(tags), ",") ==
        (" " + tags[0]) + "," + Join(PaddedTail(tags[1..]), ",");
    }
  }

  lemma StripSpaced(t: string)
    requires t != "" && Strip(t) == t
    ensures Strip(" " + t) == t
  {
    assert !IsSpace(t[0]) && !IsSpace(t[|t| - 1]);
    var s := " " + t;
    assert s[1..] == t;
    assert Lead(s) == 1 + Lead(t);
    assert Lead(t) == 0;
    assert s[1..] == t;
    assert Trail(t) == 0;
  }

  lemma {:induction false} PaddedNormalize(tags: seq<string>)
    requires |tags| >= 1 && Clean(tags)
    ensures NormalizePieces(Padded(tags)) == tags
  {
    var p := Padded(tags);
    if |tags| > 1 {
      PaddedTailNormalize(tags[1..]);
      assert p[1..] == PaddedTail(tags[1..]);
      assert tags == [tags[0]] + tags[1..];
    }
  }

  lemma {:induction false} PaddedTailNormalize(tags: seq<string>)
    requires Clean(tags)
    ensures NormalizePieces(PaddedTail(tags)) == tags
    decreases |tags|
  {
    if |tags| > 0 {
      var p := PaddedTail(tags);
      assert Strip(p[0]) == tags[0] by {
        assert p[0] == " " + tags[0];
        StripSpaced(tags[0]);
      }
      assert NormalizePieces(p[1..]) == tags[1..] by {
        assert p[1..] == PaddedTail(tags[1..]);
        PaddedTailNormalize(tags[1..]);
      }
      assert NormalizePieces(p) == [Strip(p[0])] + NormalizePieces(p[1..]);
      assert tags == [tags[0]] + tags[1..];
    }
  }

  /** `set(iptc_list + xmp_list).union(set(final_tags))`. */
  function MergedTags(iptc: ExistingValue, xmp: ExistingValue, finalTags: seq<string>): (r: set<string>)
  {
    set t | t in Normalize(iptc) + Normalize(xmp) + finalTags
  }

  /** The merged collection is the union of both normalised fields and the
      new tags: every new tag is kept and nothing else is added. */
  lemma MergedTagsSpec(iptc: ExistingValue, xmp: ExistingValue, finalTags: seq<string>, t: string)
    ensures t in MergedTags(iptc, xmp, finalTags) <==>
            t in Normalize(iptc) || t in Normalize(xmp) || t in finalTags
  {
  }

  /** The two fields play symmetric parts. */
  lemma MergedTagsSymmetric(iptc: ExistingValue, xmp: ExistingValue, finalTags: seq<string>)
    ensures MergedTags(iptc, xmp, finalTags) == MergedTags(xmp, iptc, finalTags)
  {
  }

  /** Writing the merged tags back to both fields and merging the same new
      tags again changes nothing, when every merged tag is clean. */
  lemma MergeStable(iptc: ExistingValue, xmp: ExistingValue, finalTags: seq<string>, written: seq<string>)
    requires Clean(written)
    requires forall t :: t in written <==> t in MergedTags(iptc, xmp, finalTags)
    ensures MergedTags(Itemized(written), Itemized(written), finalTags) == MergedTags(iptc, xmp, finalTags)
  {
    NormalizeItemsClean(written);
  }

  /** The tool reports a field holding one keyword as a plain string. A clean
      keyword without a comma reads back as itself; re-merging is then stable
      as in `MergeStable`. */
  lemma SingleKeywordReadBack(t: string)
    requires t != "" && Strip(t) == t && ',' !in t
    ensures Normalize(Raw(t)) == [t]
  {
    NormalizeJoined([t]);
    assert Join([t], ", ") == t;
  }

  /** The tag fields written for one image. */
  function UpdatedFields(existing: map<string, ExistingValue>, finalTags: seq<string>): (w: map<string, set<string>>)
    ensures w.Keys == {IptcKeywords, XmpSubject}
    ensures w[IptcKeywords] == w[XmpSubject]
    ensures forall t :: t in finalTags ==> t in w[IptcKeywords]
  {
    var all := MergedTags(FieldValue(existing, IptcKeywords), FieldValue(existing, XmpSubject), finalTags);
    map[IptcKeywords := all, XmpSubject := all]
  }
}

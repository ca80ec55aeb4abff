/** The label table of the classifier and its split into the three tag
    categories (`LabelData` and `load_model_and_tags` in wdv3tagger.py). */
module Labels {

  /** One row of the label table: a tag name and its category code. */
  datatype Label = Label(name: string, category: int)

  /** Category codes of the table. */
  const RatingCode: int := 9
  const GeneralCode: int := 0
  const CharacterCode: int := 4

  /** The label names and, per category, the ascending list of row indices. */
  datatype LabelData = LabelData(
    names: seq<string>,
    rating: seq<nat>,
    general: seq<nat>,
    character: seq<nat>)

  predicate Increasing(xs: seq<nat>)
  {
    forall a, b :: 0 <= a < b < |xs| ==> xs[a] < xs[b]
  }

  /** `np.where(category == code)[0]`: the indices of the rows with that
      code, ascending. */
  function IndicesWhere(table: seq<Label>, code: int): (r: seq<nat>)
    ensures Increasing(r)
    ensures forall k :: 0 <= k < |r| ==> r[k] < |table|
    ensures forall i :: 0 <= i < |table| ==> (i in r <==> table[i].category == code)
    decreases |table|
  {
    if |table| == 0 then []
    else
      var n := |table| - 1;
      var front := IndicesWhere(table[..n], code);
      assert forall i :: 0 <= i < n ==> table[..n][i] == table[i];
      front + (if table[n].category == code then [n] else [])
  }

  /** `df["name"].tolist()`. */
  function Names(table: seq<Label>): (r: seq<string>)
    ensures |r| == |table|
    ensures forall i :: 0 <= i < |table| ==> r[i] == table[i].name
  {
    seq(|table|, i requires 0 <= i < |table| => table[i].name)
  }

  /** The `LabelData` built from the table. */
  function Partition(table: seq<Label>): (d: LabelData)
  {
    LabelData(Names(table),
      IndicesWhere(table, RatingCode),
      IndicesWhere(table, GeneralCode),
      IndicesWhere(table, CharacterCode))
  }

  /** Every index of every category names a row. */
  predicate InRange(d: LabelData, n: nat)
  {
    (forall k :: 0 <= k < |d.rating| ==> d.rating[k] < n) &&
    (forall k :: 0 <= k < |d.general| ==> d.general[k] < n) &&
    (forall k :: 0 <= k < |d.character| ==> d.character[k] < n)
  }

  /** What the partition promises: names are aligned with the rows, every
      category list is ascending, holds exactly the rows with its code, and no
      row is in two categories; a row with any other code is in none. */
  lemma PartitionSpec(table: seq<Label>)
    ensures var d := Partition(table);
      |d.names| == |table| && InRange(d, |table|) &&
      Increasing(d.rating) && Increasing(d.general) && Increasing(d.character) &&
      (forall i :: 0 <= i < |table| ==> d.names[i] == table[i].name) &&
      (forall i :: 0 <= i < |table| ==>
        (i in d.rating <==> table[i].category == 9) &&
        (i in d.general <==> table[i].category == 0) &&
        (i in d.character <==> table[i].category == 4)) &&
      (forall i :: 0 <= i < |table| ==>
        !(i in d.rating && i in d.general) &&
        !(i in d.rating && i in d.character) &&
        !(i in d.general && i in d.character)) &&
      (forall i :: 0 <= i < |table| && table[i].category !in {9, 0, 4} ==>
        i !in d.rating && i !in d.general && i !in d.character)
  {
  }
}

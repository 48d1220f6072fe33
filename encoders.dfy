/**
 * The two categorical encoders: the developer column is filled, its rare
 * values are pooled into one bucket, and it is one-hot encoded; the rating
 * column is filled and one-hot encoded.
 */
module Encoders {

  import opened Frame

  /** Developers occurring fewer times than this are pooled. */
  const DEV_RARE_LIMIT: nat := 20

  const UNKNOWN: string := "Unknown"
  const OTHER: string := "Other"

  const DEV_PREFIX: string := "Dev"
  const RATING_PREFIX: string := "Rating"

  /**
   * `replace(rare_devs, "Other")` where `rare_devs` are the values that
   * `value_counts()` reports fewer than `DEV_RARE_LIMIT` times. NaN is not
   * counted by `value_counts()` and so stays NaN.
   */
  function RareToOther(cells: seq<Cell>): (r: seq<Cell>)
    ensures |r| == |cells|
    ensures forall i :: 0 <= i < |cells| ==> r[i] == cells[i] || r[i] == Str(OTHER)
    ensures forall i :: 0 <= i < |cells| && cells[i].Missing? ==> r[i] == cells[i]
  {
    seq(|cells|, i requires 0 <= i < |cells| =>
      if !cells[i].Missing? && Count(cells, cells[i]) < DEV_RARE_LIMIT then Str(OTHER) else cells[i])
  }

  /** Two columns that hold `v` at the same rows count `v` equally often. */
  lemma {:induction false} CountSameMatches(a: seq<Cell>, b: seq<Cell>, v: Cell)
    requires |a| == |b|
    requires forall i :: 0 <= i < |a| ==> (a[i] == v <==> b[i] == v)
    ensures Count(a, v) == Count(b, v)
  {
    if a != [] {
      CountSameMatches(a[1..], b[1..], v);
    }
  }

  /**
   * A value other than "Other" that occurs at least `DEV_RARE_LIMIT` times
   * is kept at exactly the rows that held it, so its count is unchanged.
   */
  lemma FrequentValueKept(cells: seq<Cell>, v: Cell)
    requires v != Str(OTHER) && Count(cells, v) >= DEV_RARE_LIMIT
    ensures forall i :: 0 <= i < |cells| ==> (RareToOther(cells)[i] == v <==> cells[i] == v)
    ensures Count(RareToOther(cells), v) == Count(cells, v)
  {
    var r := RareToOther(cells);
    forall i | 0 <= i < |cells|
      ensures r[i] == v <==> cells[i] == v
    {
      if cells[i] == v {
        assert v in cells;
      }
    }
    CountSameMatches(r, cells, v);
  }

  /** A present value occurring fewer than `DEV_RARE_LIMIT` times disappears, unless it is "Other". */
  lemma RareValueGone(cells: seq<Cell>, v: Cell)
    requires !v.Missing? && v != Str(OTHER) && Count(cells, v) < DEV_RARE_LIMIT
    ensures v !in RareToOther(cells)
  {
  }

  /**
   * After pooling, every value other than "Other" and NaN occurs at least
   * `DEV_RARE_LIMIT` times.
   */
  lemma PooledValuesFrequent(cells: seq<Cell>, i: nat)
    requires i < |cells|
    requires RareToOther(cells)[i] != Str(OTHER) && !RareToOther(cells)[i].Missing?
    ensures Count(RareToOther(cells), RareToOther(cells)[i]) >= DEV_RARE_LIMIT
  {
    var v := RareToOther(cells)[i];
    assert v == cells[i];
    FrequentValueKept(cells, v);
  }

  /** The "Other" bucket itself is not pooled again and may stay below the limit. */
  lemma OtherBucketMayBeRare()
    ensures RareToOther([Str("Capcom")]) == [Str(OTHER)]
    ensures Count(RareToOther([Str("Capcom")]), Str(OTHER)) < DEV_RARE_LIMIT
  {
    assert Count([Str("Capcom")], Str("Capcom")) == 1;
  }

  /** `name` is a dummy column made with `prefix`. */
  predicate HasDummyPrefix(prefix: string, name: Label)
  {
    name.Dummy? && name.prefix == prefix
  }

  /** The distinct text values of a column (`get_dummies` skips NaN). */
  function Vocabulary(cells: seq<Cell>): (vocab: set<string>)
    ensures forall v :: v in vocab <==> Str(v) in cells
  {
    set i | 0 <= i < |cells| && cells[i].Str? :: cells[i].s
  }

  /** The dummy columns `get_dummies` adds for the values `vocab`. */
  function DummyColumns(prefix: string, vocab: set<string>): (names: set<Label>)
    ensures forall n :: n in names <==> HasDummyPrefix(prefix, n) && n.value in vocab
  {
    set v | v in vocab :: Dummy(prefix, v)
  }

  /** The dummy cells of one row whose column value is `cell`. */
  function Dummies(cell: Cell, prefix: string, vocab: set<string>): (d: map<Label, Cell>)
    ensures d.Keys == DummyColumns(prefix, vocab)
    ensures forall v :: v in vocab ==> d[Dummy(prefix, v)] == Bool(cell == Str(v))
  {
    map v | v in vocab :: Dummy(prefix, v) := Bool(cell == Str(v))
  }

  /** One row of `get_dummies`: column `col` replaced by its dummy cells. */
  function OneHotRow(row: Row, col: Label, prefix: string, vocab: set<string>): (r: Row)
    requires col in row
    ensures forall k :: k in r <==> (k in row && k != col) || (HasDummyPrefix(prefix, k) && k.value in vocab)
    ensures forall v :: v in vocab ==> Dummy(prefix, v) in r && r[Dummy(prefix, v)] == Bool(row[col] == Str(v))
    ensures forall k :: k in row && k != col && !HasDummyPrefix(prefix, k) ==> r[k] == row[k]
  {
    (row - {col}) + Dummies(row[col], prefix, vocab)
  }

  /**
   * `pd.get_dummies(df, columns=[col], prefix=prefix)`: column `col` is
   * replaced by one boolean column per distinct value of the column, true
   * exactly at the rows holding that value; all other columns are kept.
   */
  function OneHot(t: Table, col: Label, prefix: string): (r: Table)
    requires HasColumn(t, col)
    ensures |r| == |t|
    ensures forall i :: 0 <= i < |t| ==> r[i] == OneHotRow(t[i], col, prefix, Vocabulary(Column(t, col)))
  {
    var vocab := Vocabulary(Column(t, col));
    seq(|t|, i requires 0 <= i < |t| => OneHotRow(t[i], col, prefix, vocab))
  }

  /** A row holding the text `row[col]` has exactly one true dummy: that value's. */
  lemma OneTrueDummy(row: Row, col: Label, prefix: string, vocab: set<string>)
    requires col in row && row[col].Str? && row[col].s in vocab
    ensures var r := OneHotRow(row, col, prefix, vocab);
            r[Dummy(prefix, row[col].s)] == Bool(true) &&
            forall v :: v in vocab && v != row[col].s ==> r[Dummy(prefix, v)] == Bool(false)
  {
  }

  /**
   * In a column without NaN, each row has exactly one true dummy: the one
   * named after the row's own value.
   */
  lemma ExactlyOneDummy(t: Table, col: Label, prefix: string, i: nat)
    requires HasColumn(t, col) && TextColumn(t, col) && i < |t| && !t[i][col].Missing?
    ensures var r, vocab := OneHot(t, col, prefix), Vocabulary(Column(t, col));
            t[i][col].s in vocab &&
            r[i][Dummy(prefix, t[i][col].s)] == Bool(true) &&
            forall v :: v in vocab && v != t[i][col].s ==> r[i][Dummy(prefix, v)] == Bool(false)
  {
    var vocab := Vocabulary(Column(t, col));
    assert Column(t, col)[i] == t[i][col];
    OneTrueDummy(t[i], col, prefix, vocab);
  }

  /** A row whose value is NaN gets no true dummy. */
  lemma MissingGetsNoDummy(t: Table, col: Label, prefix: string, i: nat)
    requires HasColumn(t, col) && i < |t| && t[i][col].Missing?
    ensures forall v :: v in Vocabulary(Column(t, col)) ==> OneHot(t, col, prefix)[i][Dummy(prefix, v)] == Bool(false)
  {
  }

  /** The developer labels: NaN filled with "Unknown", then rare developers pooled. */
  function DeveloperLabels(t: Table): (labels: seq<Cell>)
    requires HasColumn(t, Developer)
    ensures |labels| == |t|
    ensures forall i :: 0 <= i < |t| ==> !labels[i].Missing?
  {
    RareToOther(Fill(Column(t, Developer), UNKNOWN))
  }

  /** The developer stage: fill, pool, then one-hot encode with prefix "Dev". */
  function EncodeDeveloper(t: Table): (r: Table)
    requires HasColumn(t, Developer)
    ensures |r| == |t|
    ensures forall i :: 0 <= i < |t| ==>
              r[i] == OneHotRow(t[i][Developer := DeveloperLabels(t)[i]], Developer, DEV_PREFIX, Vocabulary(DeveloperLabels(t)))
  {
    // The fill and the pooling only read the column, so they are applied as one update.
    var pooled := SetColumn(t, Developer, DeveloperLabels(t));
    assert Column(pooled, Developer) == DeveloperLabels(t);
    OneHot(pooled, Developer, DEV_PREFIX)
  }

  /**
   * Each row of the developer stage has exactly one true "Dev_" dummy; its
   * value is "Unknown" for a missing developer that is not pooled, "Other"
   * for a pooled one, and the developer itself otherwise, and it is either
   * "Other" or a value that occurs at least `DEV_RARE_LIMIT` times.
   */
  lemma DeveloperDummy(t: Table, i: nat)
    requires HasColumn(t, Developer) && TextColumn(t, Developer) && i < |t|
    ensures var labels := DeveloperLabels(t);
            var r, vocab := EncodeDeveloper(t), Vocabulary(labels);
            labels[i].Str? && labels[i].s in vocab &&
            r[i][Dummy(DEV_PREFIX, labels[i].s)] == Bool(true) &&
            (forall v :: v in vocab && v != labels[i].s ==> r[i][Dummy(DEV_PREFIX, v)] == Bool(false)) &&
            (labels[i].s == OTHER || Count(labels, labels[i]) >= DEV_RARE_LIMIT) &&
            (t[i][Developer].Missing? ==> labels[i] == Str(UNKNOWN) || labels[i] == Str(OTHER)) &&
            (t[i][Developer].Str? ==> labels[i] == t[i][Developer] || labels[i] == Str(OTHER))
  {
    var filled := Fill(Column(t, Developer), UNKNOWN);
    var labels := DeveloperLabels(t);
    assert labels[i] == filled[i] || labels[i] == Str(OTHER);
    assert labels[i].Str?;
    if labels[i] != Str(OTHER) {
      PooledValuesFrequent(filled, i);
    }
  }

  /** The rating stage: fill NaN with "Unknown", then one-hot encode with prefix "Rating". */
  function EncodeRating(t: Table): (r: Table)
    requires HasColumn(t, Rating)
    ensures |r| == |t|
    ensures forall i :: 0 <= i < |t| ==>
              r[i] == OneHotRow(t[i][Rating := Fill(Column(t, Rating), UNKNOWN)[i]], Rating, RATING_PREFIX,
                                Vocabulary(Fill(Column(t, Rating), UNKNOWN)))
  {
    var filled := SetColumn(t, Rating, Fill(Column(t, Rating), UNKNOWN));
    assert Column(filled, Rating) == Fill(Column(t, Rating), UNKNOWN);
    OneHot(filled, Rating, RATING_PREFIX)
  }

  /**
   * Each row of the rating stage has exactly one true "Rating_" dummy: the
   * row's rating, or "Unknown" when the rating is missing.
   */
  lemma RatingDummy(t: Table, i: nat)
    requires HasColumn(t, Rating) && TextColumn(t, Rating) && i < |t|
    ensures var own := if t[i][Rating].Missing? then UNKNOWN else t[i][Rating].s;
            var r, vocab := EncodeRating(t), Vocabulary(Fill(Column(t, Rating), UNKNOWN));
            own in vocab &&
            r[i][Dummy(RATING_PREFIX, own)] == Bool(true) &&
            forall v :: v in vocab && v != own ==> r[i][Dummy(RATING_PREFIX, v)] == Bool(false)
  {
    var filled := Fill(Column(t, Rating), UNKNOWN);
    var own := if t[i][Rating].Missing? then UNKNOWN else t[i][Rating].s;
    assert filled[i] == Str(own);
    OneTrueDummy(t[i][Rating := filled[i]], Rating, RATING_PREFIX, Vocabulary(filled));
  }
}

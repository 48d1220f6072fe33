/**
 * The data frame that the cleaning script mutates: an ordered sequence of
 * rows, each row a map from column name to cell. A column that a row's map
 * does not hold is a column the frame does not have.
 */
module Frame {

  datatype Option<T> = None | Some(value: T)

  /**
   * One cell of the frame. `Missing` stands for pandas' NaN and `pd.NA`;
   * `Num` is a float value; `Int` is an integer value (the 0/1 missingness
   * flags made with `astype(int)`); `Str` is a text value; `Bool` is the
   * value of a one-hot dummy column.
   */
  datatype Cell = Missing | Num(x: real) | Int(i: int) | Str(s: string) | Bool(b: bool)

  type Row = map<Label, Cell>
  type Table = seq<Row>

  /**
   * A column label. The columns the script names have labels of their own;
   * `Dummy(prefix, value)` is the column `get_dummies` makes for `value`; an
   * `Extra` label is any other column of the input file (the sales columns).
   */
  datatype Label =
    // columns of the input file that the script reads or writes
    | Name | Platform | Year | Genre | Publisher | CriticScore | CriticCount
    | UserScore | UserCount | Developer | Rating
    // columns the script derives
    | YearMissing | CriticMissing | WeightedCritic | UserMissing | WeightedUser
    | Dummy(prefix: string, value: string)
    | Extra(text: string)

  /** The header text of a column. */
  function Text(l: Label): string
  {
    match l
    case Name => "Name"
    case Platform => "Platform"
    case Year => "Year_of_Release"
    case Genre => "Genre"
    case Publisher => "Publisher"
    case CriticScore => "Critic_Score"
    case CriticCount => "Critic_Count"
    case UserScore => "User_Score"
    case UserCount => "User_Count"
    case Developer => "Developer"
    case Rating => "Rating"
    case YearMissing => "Year_Missing"
    case CriticMissing => "Critic_Missing"
    case WeightedCritic => "Weighted_Critic"
    case UserMissing => "User_Missing"
    case WeightedUser => "Weighted_User"
    case Dummy(prefix, value) => prefix + "_" + value
    case Extra(text) => text
  }

  /**
   * `get_dummies` names each dummy column `prefix_value`, so two values
   * under one prefix never share a column name.
   */
  lemma {:induction false} DummyTextInjective(p: string, v: string, w: string)
    requires Text(Dummy(p, v)) == Text(Dummy(p, w))
    ensures v == w
  {
    var a, b := p + "_" + v, p + "_" + w;
    assert a[|p| + 1..] == v;
    assert b[|p| + 1..] == w;
  }

  /** Every row has column `col` (indexing a column the frame lacks raises `KeyError`). */
  predicate HasColumn(t: Table, col: Label)
  {
    forall i :: 0 <= i < |t| ==> col in t[i]
  }

  /** Column `col` has a float dtype: each cell is a number or NaN. */
  predicate NumericColumn(t: Table, col: Label)
    requires HasColumn(t, col)
  {
    forall i :: 0 <= i < |t| ==> t[i][col].Missing? || t[i][col].Num?
  }

  /** Column `col` has an object dtype holding strings: each cell is a string or NaN. */
  predicate TextColumn(t: Table, col: Label)
    requires HasColumn(t, col)
  {
    forall i :: 0 <= i < |t| ==> t[i][col].Missing? || t[i][col].Str?
  }

  /** The 0/1 integer that `isna(...).astype(int)` stores for a row. */
  function Flag(b: bool): (c: Cell)
    ensures c.Int? && (c.i == 1 <==> b) && (c.i == 0 <==> !b)
  {
    Int(if b then 1 else 0)
  }

  /** A float result of pandas arithmetic: a number, or NaN. */
  function AsCell(v: Option<real>): (c: Cell)
    ensures c.Missing? <==> v.None?
    ensures v.Some? ==> c == Num(v.value)
  {
    match v
    case None => Missing
    case Some(x) => Num(x)
  }

  /** `df[col]`: the cells of one column, top to bottom. */
  function Column(t: Table, col: Label): (c: seq<Cell>)
    requires HasColumn(t, col)
    ensures |c| == |t|
    ensures forall i :: 0 <= i < |t| ==> c[i] == t[i][col]
  {
    seq(|t|, i requires 0 <= i < |t| => t[i][col])
  }

  /** `df[col] = values`: add or overwrite one column, row by row. */
  function SetColumn(t: Table, col: Label, values: seq<Cell>): (r: Table)
    requires |values| == |t|
    ensures |r| == |t|
    ensures forall i :: 0 <= i < |t| ==> r[i] == t[i][col := values[i]]
    ensures forall i :: 0 <= i < |t| ==> r[i].Keys == t[i].Keys + {col} && r[i][col] == values[i]
    ensures forall i, k :: 0 <= i < |t| && k in t[i] && k != col ==> r[i][k] == t[i][k]
  {
    seq(|t|, i requires 0 <= i < |t| => t[i][col := values[i]])
  }

  /** `df.drop(columns=cols)`: remove the named columns, all of which must exist. */
  function DropColumns(t: Table, cols: set<Label>): (r: Table)
    requires forall c :: c in cols ==> HasColumn(t, c)
    ensures |r| == |t|
    ensures forall i :: 0 <= i < |t| ==> r[i].Keys == t[i].Keys - cols
    ensures forall i, k :: 0 <= i < |t| && k in t[i] && k !in cols ==> r[i][k] == t[i][k]
  {
    seq(|t|, i requires 0 <= i < |t| => t[i] - cols)
  }

  /** `series.fillna(fill)`: the cells with NaN replaced by the text `fill`. */
  function Fill(cells: seq<Cell>, fill: string): (c: seq<Cell>)
    ensures |c| == |cells|
    ensures forall i :: 0 <= i < |cells| ==> !c[i].Missing?
    ensures forall i :: 0 <= i < |cells| && !cells[i].Missing? ==> c[i] == cells[i]
    ensures forall i :: 0 <= i < |cells| && cells[i].Missing? ==> c[i] == Str(fill)
  {
    seq(|cells|, i requires 0 <= i < |cells| => if cells[i].Missing? then Str(fill) else cells[i])
  }

  /** The numbers of a float column in order, NaN skipped (what `skipna` aggregations see). */
  function Numbers(cells: seq<Cell>): (xs: seq<real>)
    ensures |xs| <= |cells|
    ensures forall x :: x in xs <==> Num(x) in cells
    // each number occurs as often as its cell does
    ensures forall x :: multiset(xs)[x] == multiset(cells)[Num(x)]
  {
    if cells == [] then []
    else
      assert cells == [cells[0]] + cells[1..];
      (if cells[0].Num? then [cells[0].x] else []) + Numbers(cells[1..])
  }

  /** `value_counts()[v]`: how many cells equal `v`. */
  function Count(cells: seq<Cell>, v: Cell): (n: nat)
    ensures n <= |cells|
    ensures n > 0 <==> v in cells
  {
    if cells == [] then 0
    else
      assert cells == [cells[0]] + cells[1..];
      (if cells[0] == v then 1 else 0) + Count(cells[1..], v)
  }

  /** `Count` is the multiplicity of the value in the column: every equal cell is counted, once. */
  lemma {:induction false} CountIsMultiplicity(cells: seq<Cell>, v: Cell)
    ensures Count(cells, v) == multiset(cells)[v]
  {
    if cells != [] {
      assert cells == [cells[0]] + cells[1..];
      CountIsMultiplicity(cells[1..], v);
    }
  }
}

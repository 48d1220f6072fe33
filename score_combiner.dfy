/**
 * The two score combiners. Each fuses a quality score and a review count
 * into one feature, score × count / (largest present count), records in a
 * flag whether either source was missing, forces the feature of flagged
 * rows to 0, and drops the two source columns.
 */
module ScoreCombiner {

  import opened Frame
  import opened Stats

  /** The user-score sentinel that stands for "to be determined". */
  const TBD: string := "tbd"

  /** Factor that brings a 0-10 user score onto the 0-100 critic scale. */
  const USER_SCALE: real := 10.0

  /** The columns the critic combiner reads or writes. */
  const CRITIC_COLUMNS: set<Label> := {CriticScore, CriticCount, CriticMissing, WeightedCritic}

  /** The columns the user combiner reads or writes. */
  const USER_COLUMNS: set<Label> := {UserScore, UserCount, UserMissing, WeightedUser}

  /** `df[col].max()`, NaN skipped: the largest present value, or NaN when there is none. */
  function ColumnMax(t: Table, col: Label): (m: Option<real>)
    requires HasColumn(t, col)
    ensures m.None? <==> forall i :: 0 <= i < |t| ==> !t[i][col].Num?
    ensures m.Some? ==> exists i :: 0 <= i < |t| && t[i][col] == Num(m.value)
    ensures m.Some? ==> forall i :: 0 <= i < |t| && t[i][col].Num? ==> t[i][col].x <= m.value
  {
    var c := Column(t, col);
    var xs := Numbers(c);
    assert forall i :: 0 <= i < |t| && t[i][col].Num? ==> t[i][col].x in xs by {
      forall i | 0 <= i < |t| && t[i][col].Num?
        ensures t[i][col].x in xs
      {
        assert Num(t[i][col].x) == c[i];
      }
    }
    var m := MaxOf(xs);
    assert m.Some? ==> Num(m.value) in c;
    m
  }

  /** `df[col].max()` reads only the column: frames with the same column have the same max. */
  lemma SameColumnSameMax(a: Table, b: Table, col: Label)
    requires HasColumn(a, col) && HasColumn(b, col) && |a| == |b|
    requires forall i :: 0 <= i < |a| ==> a[i][col] == b[i][col]
    ensures ColumnMax(a, col) == ColumnMax(b, col)
  {
    assert Column(a, col) == Column(b, col);
  }

  /**
   * `score * count / divisor` for one row, with IEEE NaN as `Missing`: NaN
   * when a factor or the divisor is NaN, and when the divisor is 0 (every
   * present count is then at most 0, so with the non-negative counts of the
   * data the division is 0/0).
   */
  function Quotient(score: Cell, count: Cell, divisor: Option<real>): (q: Cell)
    ensures q.Missing? || q.Num?
    ensures q.Num? <==> score.Num? && count.Num? && divisor.Some? && divisor.value != 0.0
    ensures q.Num? ==> q.x == Share(score.x, count.x, divisor.value)
  {
    if score.Num? && count.Num? && divisor.Some? && divisor.value != 0.0 then
      Num(Share(score.x, count.x, divisor.value))
    else
      Missing
  }

  /** The weighted feature of one row: score × count scaled by the largest count. */
  function Share(score: real, count: real, max: real): real
    requires max != 0.0
  {
    score * count / max
  }

  /** A row whose critic score and critic count are both present. */
  predicate CriticPresent(row: Row)
    requires CriticScore in row && CriticCount in row
  {
    !row[CriticScore].Missing? && !row[CriticCount].Missing?
  }

  /**
   * Lines 77-87 on one row, in their order: the flag, the quotient by the
   * largest critic count `maxCount`, the override of flagged rows by 0, and
   * the drop of the two sources.
   */
  function CriticRow(row: Row, maxCount: Option<real>): (r: Row)
    requires CriticScore in row && CriticCount in row
    ensures r.Keys == row.Keys - {CriticScore, CriticCount} + {CriticMissing, WeightedCritic}
    ensures r[CriticMissing] == Flag(!CriticPresent(row))
    ensures !CriticPresent(row) ==> r[WeightedCritic] == Num(0.0)
    ensures CriticPresent(row) ==>
              r[WeightedCritic] == Quotient(row[CriticScore], row[CriticCount], maxCount)
    ensures forall k :: k in row && k !in CRITIC_COLUMNS ==> r[k] == row[k]
  {
    var flag := Flag(!CriticPresent(row));
    var weighted := Quotient(row[CriticScore], row[CriticCount], maxCount);
    var feature := if flag == Int(1) then Num(0.0) else weighted;
    row[CriticMissing := flag][WeightedCritic := feature] - {CriticScore, CriticCount}
  }

  /**
   * The critic combiner. There is no guard on the divisor: when the largest
   * critic count is 0, an unflagged row divides by zero and its feature is
   * NaN; rows flagged as missing are still forced to 0.
   */
  function CombineCritic(t: Table): (r: Table)
    requires HasColumn(t, CriticScore) && HasColumn(t, CriticCount)
    requires NumericColumn(t, CriticScore) && NumericColumn(t, CriticCount)
    ensures |r| == |t|
    ensures forall i :: 0 <= i < |t| ==>
              r[i].Keys == t[i].Keys - {CriticScore, CriticCount} + {CriticMissing, WeightedCritic}
    // The flag is 1 exactly when the score or the count is missing.
    ensures forall i :: 0 <= i < |t| ==> r[i][CriticMissing] == Flag(!CriticPresent(t[i]))
    // Every flagged row has a feature of exactly 0.
    ensures forall i :: 0 <= i < |t| && !CriticPresent(t[i]) ==> r[i][WeightedCritic] == Num(0.0)
    // Every unflagged row has score × count / max, the max being over present
    // counts; it is NaN when that max is 0.
    ensures forall i :: 0 <= i < |t| && CriticPresent(t[i]) ==>
              var m := ColumnMax(t, CriticCount);
              m.Some? && t[i][CriticCount].x <= m.value &&
              r[i][WeightedCritic] ==
                (if m.value == 0.0 then Missing
                 else Num(Share(t[i][CriticScore].x, t[i][CriticCount].x, m.value)))
    // Every other column is untouched.
    ensures forall i, k :: 0 <= i < |t| && k in t[i] && k !in CRITIC_COLUMNS ==> r[i][k] == t[i][k]
  {
    var maxCount := ColumnMax(t, CriticCount);
    seq(|t|, i requires 0 <= i < |t| => CriticRow(t[i], maxCount))
  }

  /**
   * `pd.to_numeric(cell, errors='coerce')`: numbers stay, integers and
   * booleans become floats, a string becomes what `parse` makes of it (NaN
   * when it does not parse).
   */
  function ToNumeric(c: Cell, parse: string -> Option<real>): (n: Cell)
    ensures n.Missing? || n.Num?
    ensures c.Missing? ==> n.Missing?
    ensures c.Num? ==> n == c
  {
    match c
    case Missing => Missing
    case Num(x) => Num(x)
    case Int(i) => Num(i as real)
    case Bool(b) => Num(if b then 1.0 else 0.0)
    case Str(s) => AsCell(parse(s))
  }

  /**
   * The cleaned user score of line 92: the sentinel `'tbd'` becomes NA before
   * the coercion, whatever `parse` would make of it, and a number is
   * rescaled ×10.
   */
  function CleanUserScore(c: Cell, parse: string -> Option<real>): (n: Cell)
    ensures n.Missing? || n.Num?
    ensures c == Str(TBD) ==> n.Missing?
    ensures c != Str(TBD) ==>
              (n.Missing? <==> ToNumeric(c, parse).Missing?) &&
              (n.Num? ==> n.x == USER_SCALE * ToNumeric(c, parse).x)
  {
    var v := ToNumeric(if c == Str(TBD) then Missing else c, parse);
    if v.Num? then Num(v.x * USER_SCALE) else Missing
  }

  /** Lines 92-93 on one row: the cleaned user score and the coerced user count. */
  function CleanUserRow(row: Row, parse: string -> Option<real>): (r: Row)
    requires UserScore in row && UserCount in row
    ensures r.Keys == row.Keys
    ensures r[UserScore] == CleanUserScore(row[UserScore], parse)
    ensures r[UserCount] == ToNumeric(row[UserCount], parse)
    ensures forall k :: k in row && k != UserScore && k != UserCount ==> r[k] == row[k]
  {
    row[UserScore := CleanUserScore(row[UserScore], parse)][UserCount := ToNumeric(row[UserCount], parse)]
  }

  /** The frame after lines 92 and 93, the state the rest of the stage reads. */
  function CleanUserColumns(t: Table, parse: string -> Option<real>): (c: Table)
    requires HasColumn(t, UserScore) && HasColumn(t, UserCount)
    ensures |c| == |t|
    ensures HasColumn(c, UserScore) && HasColumn(c, UserCount)
    ensures NumericColumn(c, UserScore) && NumericColumn(c, UserCount)
    ensures forall i :: 0 <= i < |t| ==> c[i] == CleanUserRow(t[i], parse)
  {
    seq(|t|, i requires 0 <= i < |t| => CleanUserRow(t[i], parse))
  }

  /** The divisor of line 99 is absent or zero: the guard of line 100 fires. */
  predicate GuardFires(m: Option<real>)
  {
    m.None? || m.value == 0.0
  }

  /**
   * Lines 96-107 on one cleaned row: the flag, then either 0.0 (guard) or
   * the quotient by `maxCount` with flagged rows overridden by 0.0, then the
   * drop of the two sources.
   */
  function UserRow(row: Row, maxCount: Option<real>): (r: Row)
    requires UserScore in row && UserCount in row
    ensures r.Keys == row.Keys - {UserScore, UserCount} + {UserMissing, WeightedUser}
    ensures r[UserMissing] == Flag(row[UserScore].Missing? || row[UserCount].Missing?)
    ensures GuardFires(maxCount) || r[UserMissing] == Int(1) ==> r[WeightedUser] == Num(0.0)
    ensures !GuardFires(maxCount) && r[UserMissing] == Int(0) ==>
              r[WeightedUser] == Quotient(row[UserScore], row[UserCount], maxCount)
    ensures forall k :: k in row && k !in USER_COLUMNS ==> r[k] == row[k]
  {
    var flag := Flag(row[UserScore].Missing? || row[UserCount].Missing?);
    var feature :=
      if GuardFires(maxCount) then Num(0.0)
      else
        var weighted := Quotient(row[UserScore], row[UserCount], maxCount);
        if flag == Int(1) then Num(0.0) else weighted;
    row[UserMissing := flag][WeightedUser := feature] - {UserScore, UserCount}
  }

  /**
   * The user combiner. The guard makes every feature 0.0 when no count is
   * present or the largest count is 0; otherwise it is the critic formula
   * over the cleaned columns.
   */
  function CombineUser(t: Table, parse: string -> Option<real>): (r: Table)
    requires HasColumn(t, UserScore) && HasColumn(t, UserCount)
    ensures |r| == |t|
    ensures forall i :: 0 <= i < |t| ==>
              r[i].Keys == t[i].Keys - {UserScore, UserCount} + {UserMissing, WeightedUser}
    // The flag is taken after the cleaning: 1 exactly when the cleaned score or count is missing.
    ensures forall i :: 0 <= i < |t| ==>
              r[i][UserMissing] ==
                Flag(CleanUserScore(t[i][UserScore], parse).Missing? ||
                     ToNumeric(t[i][UserCount], parse).Missing?)
    // Every other column is untouched.
    ensures forall i, k :: 0 <= i < |t| && k in t[i] && k !in USER_COLUMNS ==> r[i][k] == t[i][k]
  {
    var cleaned := CleanUserColumns(t, parse);
    var maxCount := ColumnMax(cleaned, UserCount);
    seq(|t|, i requires 0 <= i < |t| => UserRow(cleaned[i], maxCount))
  }

  /**
   * The divisor of line 99 reads only the user counts: frames with the same
   * user counts have the same max of the cleaned counts.
   */
  lemma SameUserCountsSameMax(a: Table, b: Table, parse: string -> Option<real>)
    requires HasColumn(a, UserScore) && HasColumn(a, UserCount)
    requires HasColumn(b, UserScore) && HasColumn(b, UserCount) && |a| == |b|
    requires forall i :: 0 <= i < |a| ==> a[i][UserCount] == b[i][UserCount]
    ensures ColumnMax(CleanUserColumns(a, parse), UserCount) == ColumnMax(CleanUserColumns(b, parse), UserCount)
  {
    var ca, cb := CleanUserColumns(a, parse), CleanUserColumns(b, parse);
    forall i | 0 <= i < |a|
      ensures ca[i][UserCount] == cb[i][UserCount]
    {
      assert ca[i] == CleanUserRow(a[i], parse) && cb[i] == CleanUserRow(b[i], parse);
    }
    SameColumnSameMax(ca, cb, UserCount);
  }

  /**
   * The user feature of one row: always a number (no NaN can come out of
   * this stage); 0.0 for every row when the guard fires; 0.0 for a flagged
   * row; and past the guard, cleaned score × cleaned count / max for an
   * unflagged row, the max being taken over the cleaned counts.
   */
  lemma UserFeature(t: Table, parse: string -> Option<real>, i: nat)
    requires HasColumn(t, UserScore) && HasColumn(t, UserCount) && i < |t|
    ensures CombineUser(t, parse)[i][WeightedUser].Num?
    ensures GuardFires(ColumnMax(CleanUserColumns(t, parse), UserCount)) ==>
              CombineUser(t, parse)[i][WeightedUser] == Num(0.0)
    ensures CombineUser(t, parse)[i][UserMissing] == Int(1) ==>
              CombineUser(t, parse)[i][WeightedUser] == Num(0.0)
    ensures CombineUser(t, parse)[i][UserMissing] == Int(0) ==>
              var s, c := CleanUserScore(t[i][UserScore], parse), ToNumeric(t[i][UserCount], parse);
              var m := ColumnMax(CleanUserColumns(t, parse), UserCount);
              s.Num? && c.Num? && m.Some? && c.x <= m.value &&
              CombineUser(t, parse)[i][WeightedUser] ==
                (if m.value == 0.0 then Num(0.0) else Num(Share(s.x, c.x, m.value)))
  {
    var cleaned := CleanUserColumns(t, parse);
    var m := ColumnMax(cleaned, UserCount);
    assert cleaned[i] == CleanUserRow(t[i], parse);
    assert CombineUser(t, parse)[i] == UserRow(cleaned[i], m);
    if cleaned[i][UserCount].Num? {
      assert cleaned[i][UserCount].x <= m.value;
    }
  }

  /** With no present user count at all, every user feature is 0.0 and nothing is divided. */
  lemma NoUserCounts(t: Table, parse: string -> Option<real>)
    requires HasColumn(t, UserScore) && HasColumn(t, UserCount)
    requires forall i :: 0 <= i < |t| ==> ToNumeric(t[i][UserCount], parse).Missing?
    ensures forall i :: 0 <= i < |t| ==> CombineUser(t, parse)[i][WeightedUser] == Num(0.0)
  {
    var cleaned := CleanUserColumns(t, parse);
    assert ColumnMax(cleaned, UserCount).None?;
    forall i | 0 <= i < |t|
      ensures CombineUser(t, parse)[i][WeightedUser] == Num(0.0)
    {
      UserFeature(t, parse, i);
    }
  }

  /** A `'tbd'` user score makes the row flagged with a feature of 0, whatever its count. */
  lemma TbdUserScore(t: Table, parse: string -> Option<real>, i: nat)
    requires HasColumn(t, UserScore) && HasColumn(t, UserCount) && i < |t|
    requires t[i][UserScore] == Str(TBD)
    ensures CombineUser(t, parse)[i][UserMissing] == Int(1)
    ensures CombineUser(t, parse)[i][WeightedUser] == Num(0.0)
  {
  }

  /** With 0 <= count <= max and 0 < max, score × count / max lies between 0 and score. */
  lemma ScaledByShare(score: real, count: real, max: real)
    requires 0.0 <= score && 0.0 <= count <= max && 0.0 < max
    ensures 0.0 <= Share(score, count, max) <= score
  {
    assert score * count <= score * max;
    assert score * count / max <= score * max / max;
  }

  /**
   * On a 0-100 critic score and a non-negative count, the critic feature is
   * NaN exactly when the row is unflagged and the largest count is 0, and is
   * within 0-100 otherwise.
   */
  lemma CriticFeatureInRange(t: Table, i: nat)
    requires HasColumn(t, CriticScore) && HasColumn(t, CriticCount)
    requires NumericColumn(t, CriticScore) && NumericColumn(t, CriticCount)
    requires i < |t|
    requires t[i][CriticScore].Num? ==> 0.0 <= t[i][CriticScore].x <= 100.0
    requires t[i][CriticCount].Num? ==> 0.0 <= t[i][CriticCount].x
    ensures var w := CombineCritic(t)[i][WeightedCritic];
            w.Missing? <==> CriticPresent(t[i]) && ColumnMax(t, CriticCount) == Some(0.0)
    ensures var w := CombineCritic(t)[i][WeightedCritic];
            w.Num? ==> 0.0 <= w.x <= 100.0
  {
    if CriticPresent(t[i]) && ColumnMax(t, CriticCount).value != 0.0 {
      ScaledByShare(t[i][CriticScore].x, t[i][CriticCount].x, ColumnMax(t, CriticCount).value);
    }
  }

  /**
   * A user score whose cleaned value is within 0-100 (a 0-10 score before
   * the ×10 rescale) and a non-negative count give a user feature within 0-100.
   */
  lemma UserFeatureInRange(t: Table, parse: string -> Option<real>, i: nat)
    requires HasColumn(t, UserScore) && HasColumn(t, UserCount) && i < |t|
    requires var s := CleanUserScore(t[i][UserScore], parse); s.Num? ==> 0.0 <= s.x <= 100.0
    requires var c := ToNumeric(t[i][UserCount], parse); c.Num? ==> 0.0 <= c.x
    ensures var w := CombineUser(t, parse)[i][WeightedUser];
            w.Num? && 0.0 <= w.x <= 100.0
  {
    UserFeature(t, parse, i);
    var m := ColumnMax(CleanUserColumns(t, parse), UserCount);
    if CombineUser(t, parse)[i][UserMissing] == Int(0) && m.value != 0.0 {
      ScaledByShare(CleanUserScore(t[i][UserScore], parse).x, ToNumeric(t[i][UserCount], parse).x, m.value);
    }
  }
}

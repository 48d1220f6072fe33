/**
 * The release-year imputer: record which rows lacked a release year, then
 * fill each missing year from the median year of the row's platform, or
 * from the median year of the whole frame when the platform is not a key
 * of the per-platform median table.
 */
module YearImputer {

  import opened Frame
  import opened Stats

  /** `df['Year_of_Release'].isna().astype(int)`: the missingness flags. */
  function YearFlags(t: Table): (flags: seq<Cell>)
    requires HasColumn(t, Year)
    ensures |flags| == |t|
    ensures forall i :: 0 <= i < |t| ==> (flags[i] == Int(1) <==> t[i][Year].Missing?)
    ensures forall i :: 0 <= i < |t| ==> (flags[i] == Int(0) <==> !t[i][Year].Missing?)
  {
    seq(|t|, i requires 0 <= i < |t| => Flag(t[i][Year].Missing?))
  }

  /** The present release years of the whole frame, in row order. */
  function PresentYears(t: Table): (ys: seq<real>)
    requires HasColumn(t, Year)
    ensures forall y :: y in ys <==> exists i :: 0 <= i < |t| && t[i][Year] == Num(y)
    // each year occurs as often as it does in the column
    ensures forall y :: multiset(ys)[y] == multiset(Column(t, Year))[Num(y)]
  {
    var c := Column(t, Year);
    assert forall y :: Num(y) in c <==> exists i :: 0 <= i < |t| && t[i][Year] == Num(y);
    Numbers(c)
  }

  /** The (platform, year) pair of every row, in row order. */
  function PlatformYearPairs(t: Table): (pairs: seq<(Cell, Cell)>)
    requires HasColumn(t, Year) && HasColumn(t, Platform)
    ensures |pairs| == |t|
    ensures forall i :: 0 <= i < |t| ==> pairs[i] == (t[i][Platform], t[i][Year])
  {
    seq(|t|, i requires 0 <= i < |t| => (t[i][Platform], t[i][Year]))
  }

  /** The present years of the pairs on platform `p`, in order. */
  function YearsOn(pairs: seq<(Cell, Cell)>, p: Cell): (ys: seq<real>)
    ensures |ys| <= |pairs|
    // each year occurs once per pair (p, year)
    ensures forall y :: multiset(ys)[y] == multiset(pairs)[(p, Num(y))]
  {
    if pairs == [] then []
    else
      assert pairs == [pairs[0]] + pairs[1..];
      (if pairs[0].0 == p && pairs[0].1.Num? then [pairs[0].1.x] else []) + YearsOn(pairs[1..], p)
  }

  /** The present release years of the rows whose platform is `p`, in row order. */
  function PlatformYears(t: Table, p: Cell): (ys: seq<real>)
    requires HasColumn(t, Year) && HasColumn(t, Platform)
    ensures |ys| <= |t|
    ensures forall y :: y in ys <==> exists i :: 0 <= i < |t| && t[i][Platform] == p && t[i][Year] == Num(y)
    // each year occurs once per row on `p` that holds it
    ensures forall y :: multiset(ys)[y] == multiset(PlatformYearPairs(t))[(p, Num(y))]
  {
    var pairs := PlatformYearPairs(t);
    var ys := YearsOn(pairs, p);
    assert forall y :: y in ys <==> (p, Num(y)) in pairs by {
      forall y ensures y in ys <==> (p, Num(y)) in pairs {
        assert y in ys <==> y in multiset(ys);
        assert (p, Num(y)) in pairs <==> (p, Num(y)) in multiset(pairs);
      }
    }
    ys
  }

  /** The keys of `df.groupby('Platform')`: the platforms that are present in some row. */
  function PlatformKeys(t: Table): (keys: set<Cell>)
    requires HasColumn(t, Platform)
    ensures forall p :: p in keys <==> !p.Missing? && exists i :: 0 <= i < |t| && t[i][Platform] == p
  {
    set i | 0 <= i < |t| && !t[i][Platform].Missing? :: t[i][Platform]
  }

  /**
   * `df.groupby('Platform')['Year_of_Release'].median()`: one entry per
   * platform key; the entry is NaN when none of that platform's years is present.
   */
  function PlatformMedians(t: Table): (medians: map<Cell, Option<real>>)
    requires HasColumn(t, Year) && HasColumn(t, Platform)
    ensures medians.Keys == PlatformKeys(t)
    ensures forall p :: p in medians ==> medians[p] == MedianOf(PlatformYears(t, p))
  {
    map p | p in PlatformKeys(t) :: MedianOf(PlatformYears(t, p))
  }

  /**
   * `impute_year(row)`: a present year is kept; a missing one takes the
   * median-table entry of the row's platform when the platform is a key of
   * the table (even when that entry is NaN), and `overall` otherwise.
   */
  function ImputeYear(row: Row, medians: map<Cell, Option<real>>, overall: Option<real>): (y: Cell)
    requires Year in row && Platform in row
    ensures !row[Year].Missing? ==> y == row[Year]
    ensures row[Year].Missing? && row[Platform] in medians ==> y == AsCell(medians[row[Platform]])
    ensures row[Year].Missing? && row[Platform] !in medians ==> y == AsCell(overall)
  {
    if row[Year].Missing? then
      AsCell(if row[Platform] in medians then medians[row[Platform]] else overall)
    else
      row[Year]
  }

  /**
   * How row `out`, the `i`-th row of the result, got its year from the
   * frame `t`: a missing year on a platform key takes that platform's
   * median, NaN included; any other missing year (a missing platform among
   * them) takes the overall median. Hence a year is still missing afterwards
   * exactly when it was missing and it took a NaN: its platform is a key
   * without any present year, or the frame has no present year at all.
   */
  ghost predicate YearImputed(t: Table, i: nat, out: Row)
    requires HasColumn(t, Year) && HasColumn(t, Platform) && i < |t| && Year in out
  {
    (t[i][Year].Missing? && t[i][Platform] in PlatformKeys(t) ==>
       out[Year] == AsCell(MedianOf(PlatformYears(t, t[i][Platform])))) &&
    (t[i][Year].Missing? && t[i][Platform] !in PlatformKeys(t) ==>
       out[Year] == AsCell(MedianOf(PresentYears(t)))) &&
    (out[Year].Missing? <==>
       t[i][Year].Missing? &&
       (if t[i][Platform] in PlatformKeys(t) then |PlatformYears(t, t[i][Platform])| == 0
        else |PresentYears(t)| == 0))
  }

  /**
   * The two column assignments of the stage: the flag column is added
   * first, then every row's year is replaced by `impute_year(row)`. The
   * medians are taken over the years as they stood before the fill; the
   * flag column does not touch them.
   */
  method ImputeReleaseYear(t: Table) returns (r: Table)
    requires HasColumn(t, Year) && HasColumn(t, Platform)
    ensures |r| == |t|
    ensures forall i :: 0 <= i < |t| ==> r[i].Keys == t[i].Keys + {YearMissing}
    // Flag-before-impute: the flag records the year as it was in the input.
    ensures forall i :: 0 <= i < |t| ==> r[i][YearMissing] == Flag(t[i][Year].Missing?)
    // A present year is kept exactly.
    ensures forall i :: 0 <= i < |t| && !t[i][Year].Missing? ==> r[i][Year] == t[i][Year]
    // How each missing year is filled.
    ensures forall i :: 0 <= i < |t| ==> YearImputed(t, i, r[i])
    // Every other column is untouched.
    ensures forall i, k :: 0 <= i < |t| && k in t[i] && k != Year && k != YearMissing ==> r[i][k] == t[i][k]
  {
    var flagged := SetColumn(t, YearMissing, YearFlags(t));
    var medians := PlatformMedians(t);
    var overall := MedianOf(PresentYears(t));
    r := SetColumn(flagged, Year, seq(|t|, i requires 0 <= i < |t| => ImputeYear(flagged[i], medians, overall)));
    ImputedRows(t, flagged, r);
  }

  /** Rows whose year is `impute_year` of a row with the same year and platform are imputed as promised. */
  lemma ImputedRows(t: Table, flagged: Table, r: Table)
    requires HasColumn(t, Year) && HasColumn(t, Platform)
    requires |flagged| == |t| && |r| == |t|
    requires forall i :: 0 <= i < |t| ==>
               Year in flagged[i] && Platform in flagged[i] &&
               flagged[i][Year] == t[i][Year] && flagged[i][Platform] == t[i][Platform]
    requires forall i :: 0 <= i < |t| ==>
               Year in r[i] && r[i][Year] == ImputeYear(flagged[i], PlatformMedians(t), MedianOf(PresentYears(t)))
    ensures forall i :: 0 <= i < |t| ==> YearImputed(t, i, r[i])
  {
    forall i | 0 <= i < |t|
      ensures YearImputed(t, i, r[i])
    {
      var p := t[i][Platform];
      if p in PlatformKeys(t) {
        assert p in PlatformMedians(t);
      }
    }
  }

  /**
   * An imputed platform median lies within the range of the years present
   * on that platform.
   */
  lemma ImputedWithinPlatformRange(t: Table, i: nat, out: Row)
    requires HasColumn(t, Year) && HasColumn(t, Platform) && i < |t| && Year in out
    requires YearImputed(t, i, out)
    requires t[i][Year].Missing? && t[i][Platform] in PlatformKeys(t)
    requires |PlatformYears(t, t[i][Platform])| > 0
    ensures var ys := PlatformYears(t, t[i][Platform]);
            out[Year].Num? && Min(ys) <= out[Year].x <= Max(ys)
  {
    MedianBetween(PlatformYears(t, t[i][Platform]));
  }

  /**
   * An imputed overall median lies within the range of the years present
   * in the frame.
   */
  lemma ImputedWithinOverallRange(t: Table, i: nat, out: Row)
    requires HasColumn(t, Year) && HasColumn(t, Platform) && i < |t| && Year in out
    requires YearImputed(t, i, out)
    requires t[i][Year].Missing? && t[i][Platform] !in PlatformKeys(t)
    requires |PresentYears(t)| > 0
    ensures var ys := PresentYears(t);
            out[Year].Num? && Min(ys) <= out[Year].x <= Max(ys)
  {
    MedianBetween(PresentYears(t));
  }

  /**
   * A missing year on a platform with exactly one present year takes that
   * year.
   */
  lemma SoleYearOfPlatform(t: Table, i: nat, out: Row, y: real)
    requires HasColumn(t, Year) && HasColumn(t, Platform) && i < |t| && Year in out
    requires YearImputed(t, i, out)
    requires t[i][Year].Missing? && !t[i][Platform].Missing?
    requires PlatformYears(t, t[i][Platform]) == [y]
    ensures out[Year] == Num(y)
  {
    MedianSingleton(y);
  }

  /**
   * Reordering the rows does not change a platform's median: it depends
   * only on how many rows hold each (platform, year) pair.
   */
  lemma PlatformMedianReordered(a: Table, b: Table, p: Cell)
    requires HasColumn(a, Year) && HasColumn(a, Platform) && HasColumn(b, Year) && HasColumn(b, Platform)
    requires multiset(PlatformYearPairs(a)) == multiset(PlatformYearPairs(b))
    ensures MedianOf(PlatformYears(a, p)) == MedianOf(PlatformYears(b, p))
  {
    var ya, yb := PlatformYears(a, p), PlatformYears(b, p);
    assert forall y :: multiset(ya)[y] == multiset(yb)[y];
    assert multiset(ya) == multiset(yb);
    if ya != [] {
      MedianPermutation(ya, yb);
    }
  }

  /** Two frames with the same year and platform columns have the same platform years. */
  lemma SamePlatformYears(a: Table, b: Table, p: Cell)
    requires HasColumn(a, Year) && HasColumn(a, Platform) && HasColumn(b, Year) && HasColumn(b, Platform)
    requires |a| == |b|
    requires forall i :: 0 <= i < |a| ==> a[i][Year] == b[i][Year] && a[i][Platform] == b[i][Platform]
    ensures PlatformYears(a, p) == PlatformYears(b, p)
  {
    assert PlatformYearPairs(a) == PlatformYearPairs(b);
  }

  /**
   * The imputation reads only the year and platform columns: a row imputed
   * from one frame is imputed from any frame with the same two columns.
   */
  lemma ImputationReadsYearAndPlatform(a: Table, b: Table, r: Table)
    requires HasColumn(a, Year) && HasColumn(a, Platform) && HasColumn(b, Year) && HasColumn(b, Platform)
    requires |a| == |b| == |r|
    requires forall i :: 0 <= i < |a| ==> a[i][Year] == b[i][Year] && a[i][Platform] == b[i][Platform]
    requires forall i :: 0 <= i < |a| ==> Year in r[i] && YearImputed(a, i, r[i])
    ensures forall i :: 0 <= i < |b| ==> YearImputed(b, i, r[i])
  {
    assert Column(a, Year) == Column(b, Year);
    assert PresentYears(a) == PresentYears(b);
    forall p
      ensures p in PlatformKeys(a) <==> p in PlatformKeys(b)
    {
      if p in PlatformKeys(a) {
        var i :| 0 <= i < |a| && a[i][Platform] == p;
        assert b[i][Platform] == p;
      }
      if p in PlatformKeys(b) {
        var i :| 0 <= i < |b| && b[i][Platform] == p;
        assert a[i][Platform] == p;
      }
    }
    forall i | 0 <= i < |b|
      ensures YearImputed(b, i, r[i])
    {
      assert YearImputed(a, i, r[i]);
      SamePlatformYears(a, b, a[i][Platform]);
    }
  }
}

/**
 * The cleaning script as a whole: one frame `df`, replaced stage by stage
 * in the order the script runs them.
 */
module Preprocessing {

  import opened Frame
  import opened YearImputer
  import opened RowFilter
  import opened ScoreCombiner
  import opened Encoders

  /** The columns whose missing values remove a row. */
  const REQUIRED: set<Label> := {Genre, Publisher}

  /** The input columns the script consumes and the columns it derives. */
  const CONSUMED: set<Label> :=
    {Name, Year, YearMissing, Developer, Rating} + CRITIC_COLUMNS + USER_COLUMNS

  /** The input columns the script drops. */
  const DROPPED: set<Label> :=
    {Name, CriticScore, CriticCount, UserScore, UserCount, Developer, Rating}

  /** The columns the script writes: the year, the three flags and the two features. */
  const WRITTEN: set<Label> :=
    {Year, YearMissing, CriticMissing, WeightedCritic, UserMissing, WeightedUser}

  /**
   * The input the script indexes: every column it names exists, the year
   * and critic columns are float columns and the developer and rating
   * columns are text columns.
   */
  predicate InputSchema(t: Table)
  {
    HasColumn(t, Name) && HasColumn(t, Platform) && HasColumn(t, Year) &&
    HasColumn(t, Genre) && HasColumn(t, Publisher) &&
    HasColumn(t, CriticScore) && HasColumn(t, CriticCount) &&
    HasColumn(t, UserScore) && HasColumn(t, UserCount) &&
    HasColumn(t, Developer) && HasColumn(t, Rating) &&
    NumericColumn(t, Year) && NumericColumn(t, CriticScore) && NumericColumn(t, CriticCount) &&
    TextColumn(t, Developer) && TextColumn(t, Rating)
  }

  /** One input row has every column the script names. */
  predicate InputRow(row: Row)
  {
    Name in row && Platform in row && Year in row && Genre in row && Publisher in row &&
    CriticScore in row && CriticCount in row && UserScore in row && UserCount in row &&
    Developer in row && Rating in row
  }

  /** The cells of column `col` at the positions `idx`, in that order. */
  function Pick(t: Table, col: Label, idx: seq<nat>): (c: seq<Cell>)
    requires HasColumn(t, col)
    requires forall k :: 0 <= k < |idx| ==> idx[k] < |t|
    ensures |c| == |idx|
    ensures forall k :: 0 <= k < |idx| ==> c[k] == t[idx[k]][col]
  {
    seq(|idx|, k requires 0 <= k < |idx| => t[idx[k]][col])
  }

  /**
   * The input rows at the positions line 69 keeps, in order: the rows whose
   * genre and publisher are both present, with every column they had.
   */
  function KeptRows(raw: Table): (kept: Table)
    requires InputSchema(raw)
    ensures |kept| == |KeptIndices(raw, REQUIRED)|
    ensures forall j :: 0 <= j < |kept| ==> kept[j] == raw[KeptIndices(raw, REQUIRED)[j]]
    ensures HasColumn(kept, CriticCount) && HasColumn(kept, UserScore) && HasColumn(kept, UserCount)
  {
    var idx := KeptIndices(raw, REQUIRED);
    assert forall j :: 0 <= j < |idx| ==> idx[j] in idx;
    seq(|idx|, j requires 0 <= j < |idx| => raw[idx[j]])
  }

  /** The developer labels line 121 one-hot encodes: the kept developers, filled and pooled. */
  function KeptDeveloperLabels(raw: Table): seq<Cell>
    requires InputSchema(raw)
  {
    RareToOther(Fill(Pick(raw, Developer, KeptIndices(raw, REQUIRED)), UNKNOWN))
  }

  /** The ratings line 134 one-hot encodes: the kept ratings, filled. */
  function KeptRatings(raw: Table): seq<Cell>
    requires InputSchema(raw)
  {
    Fill(Pick(raw, Rating, KeptIndices(raw, REQUIRED)), UNKNOWN)
  }

  /** The keys of `out` are those of `row` without `removed`, plus `added`. */
  ghost predicate KeysAfter(row: Row, out: Row, removed: set<Label>, added: set<Label>)
  {
    forall k :: k in out <==> ((k in row && k !in removed) || k in added)
  }

  /** Every column of `row` outside `touched` is in `out`, unchanged. */
  ghost predicate KeepsOutside(row: Row, out: Row, touched: set<Label>)
  {
    forall k :: k in row && k !in touched ==> k in out && out[k] == row[k]
  }

  /**
   * `out` replaces column `col` of `row` by dummy columns with prefix
   * `prefix`: every column of `out` is a column of `row` other than `col` or
   * the dummy of a value in `vocab`, and every other column of `row` that is
   * not such a dummy is kept.
   */
  ghost predicate Replaced(row: Row, out: Row, col: Label, prefix: string, vocab: set<string>)
  {
    (forall k :: k in out ==> (k in row && k != col) || (HasDummyPrefix(prefix, k) && k.value in vocab)) &&
    forall k :: k in row && k != col && !HasDummyPrefix(prefix, k) ==> k in out && out[k] == row[k]
  }

  /** The year flag of `out` records the year of `row`, and a present year is kept. */
  ghost predicate YearRecorded(row: Row, out: Row)
    requires Year in row
  {
    YearMissing in out && out[YearMissing] == Flag(row[Year].Missing?) &&
    Year in out && (!row[Year].Missing? ==> out[Year] == row[Year])
  }

  /**
   * The critic flag of `out` records the critic score and count of `row`; a
   * flagged feature is 0, an unflagged one is score × count / `max` (NaN
   * when `max` is 0).
   */
  ghost predicate CriticRecorded(row: Row, out: Row, max: Option<real>)
    requires CriticScore in row && CriticCount in row
  {
    CriticMissing in out && out[CriticMissing] == Flag(!CriticPresent(row)) &&
    WeightedCritic in out &&
    out[WeightedCritic] ==
      (if CriticPresent(row) then Quotient(row[CriticScore], row[CriticCount], max) else Num(0.0))
  }

  /**
   * The user flag of `out` records the cleaned user score and count of
   * `row`; the feature is a number: 0 when the guard on `max` fires or the
   * row is flagged, otherwise cleaned score × cleaned count / `max`. A 'tbd'
   * score is flagged and gets 0.
   */
  ghost predicate UserRecorded(row: Row, out: Row, parse: string -> Option<real>, max: Option<real>)
    requires UserScore in row && UserCount in row
  {
    var s, c := CleanUserScore(row[UserScore], parse), ToNumeric(row[UserCount], parse);
    UserMissing in out && out[UserMissing] == Flag(s.Missing? || c.Missing?) &&
    WeightedUser in out && out[WeightedUser].Num? &&
    out[WeightedUser] == (if GuardFires(max) || s.Missing? || c.Missing? then Num(0.0) else Quotient(s, c, max)) &&
    (row[UserScore] == Str(TBD) ==> out[UserMissing] == Int(1) && out[WeightedUser] == Num(0.0))
  }

  /** Lines 47 to 64 on one row: the name is gone, the year is flagged, a present year is kept. */
  ghost predicate YearFlagged(row: Row, out: Row)
    requires Year in row
  {
    KeysAfter(row, out, {Name}, {YearMissing}) &&
    KeepsOutside(row, out, {Name, Year, YearMissing}) &&
    YearRecorded(row, out)
  }

  /**
   * Lines 77 to 107 on one row: the critic and user sources are replaced by
   * their flags and features, with `criticMax` and `userMax` the divisors of
   * lines 82 and 99.
   */
  ghost predicate Scored(row: Row, out: Row, parse: string -> Option<real>, criticMax: Option<real>, userMax: Option<real>)
    requires CriticScore in row && CriticCount in row && UserScore in row && UserCount in row
  {
    KeysAfter(row, out, {CriticScore, CriticCount, UserScore, UserCount},
              {CriticMissing, WeightedCritic, UserMissing, WeightedUser}) &&
    KeepsOutside(row, out, CRITIC_COLUMNS + USER_COLUMNS) &&
    CriticRecorded(row, out, criticMax) && UserRecorded(row, out, parse, userMax)
  }

  /**
   * Lines 115 to 134 on one row, the columns: every column left is a column
   * of `row` other than the developer and the rating, or the dummy of a
   * developer label in `devVocab` or of a rating in `ratingVocab`.
   */
  ghost predicate EncodedKeys(row: Row, out: Row, devVocab: set<string>, ratingVocab: set<string>)
  {
    forall k :: k in out ==>
      (k in row && k != Developer && k != Rating) ||
      (HasDummyPrefix(DEV_PREFIX, k) && k.value in devVocab) ||
      (HasDummyPrefix(RATING_PREFIX, k) && k.value in ratingVocab)
  }

  /**
   * Lines 115 to 134 on one row, the values: every column of `row` other
   * than the developer, the rating and the dummy columns stays.
   */
  ghost predicate EncodedKeeps(row: Row, out: Row)
  {
    forall k :: k in row && k != Developer && k != Rating &&
                !HasDummyPrefix(DEV_PREFIX, k) && !HasDummyPrefix(RATING_PREFIX, k) ==>
      k in out && out[k] == row[k]
  }

  /** Lines 115 to 134 on one row: the developer and the rating are replaced by their dummies. */
  ghost predicate Encoded(row: Row, out: Row, devVocab: set<string>, ratingVocab: set<string>)
  {
    EncodedKeys(row, out, devVocab, ratingVocab) && EncodedKeeps(row, out)
  }

  /**
   * Replacing the developer and then the rating by their dummies encodes a
   * row, and the rating stage keeps the developer dummies.
   */
  lemma EncodeRow(row: Row, mid: Row, out: Row, vocab: set<string>, ratingVocab: set<string>, own: Cell)
    requires Replaced(row, mid, Developer, DEV_PREFIX, vocab) && Replaced(mid, out, Rating, RATING_PREFIX, ratingVocab)
    requires DummiesAt(mid, DEV_PREFIX, vocab, own)
    ensures Encoded(row, out, vocab, ratingVocab) && DummiesAt(out, DEV_PREFIX, vocab, own)
  {
  }

  /**
   * The columns of an output row: the columns of its input row that the
   * script does not drop, the columns it writes, and the dummies of the
   * developer labels in `devVocab` and of the ratings in `ratingVocab`.
   */
  ghost predicate OutputKeys(row: Row, out: Row, devVocab: set<string>, ratingVocab: set<string>)
  {
    forall k :: k in out ==>
      (k in row && k !in DROPPED) || k in WRITTEN ||
      (HasDummyPrefix(DEV_PREFIX, k) && k.value in devVocab) ||
      (HasDummyPrefix(RATING_PREFIX, k) && k.value in ratingVocab)
  }

  /**
   * What the script makes of one kept input row `row`, given the divisors
   * of the two features and the two vocabularies: the consumed columns are
   * gone and no column but those of `OutputKeys` appears; the flags record
   * the input; the features are the quotients by the divisors, or 0 where
   * flagged; and every other column passes through unless a dummy column
   * takes its name.
   */
  ghost predicate CleanedRow(row: Row, out: Row, parse: string -> Option<real>,
                             criticMax: Option<real>, userMax: Option<real>,
                             devVocab: set<string>, ratingVocab: set<string>)
    requires InputRow(row)
  {
    OutputKeys(row, out, devVocab, ratingVocab) &&
    // the consumed input columns are gone
    Name !in out && Developer !in out && Rating !in out &&
    CriticScore !in out && CriticCount !in out && UserScore !in out && UserCount !in out &&
    // the row had a genre and a publisher, and they are kept
    !row[Genre].Missing? && !row[Publisher].Missing? &&
    Genre in out && out[Genre] == row[Genre] && Publisher in out && out[Publisher] == row[Publisher] &&
    // the flags record the input, and the features are the quotients or 0
    YearRecorded(row, out) && CriticRecorded(row, out, criticMax) && UserRecorded(row, out, parse, userMax) &&
    // every other column passes through
    forall k :: k in row && k !in CONSUMED && !HasDummyPrefix(DEV_PREFIX, k) && !HasDummyPrefix(RATING_PREFIX, k) ==>
      k in out && out[k] == row[k]
  }

  /**
   * Lines 47 to 64 on every row: the name is dropped from `raw` giving
   * `dropped`, then the year of `dropped` is flagged and imputed giving `t`.
   */
  lemma YearSection(raw: Table, dropped: Table, t: Table)
    requires InputSchema(raw)
    requires |dropped| == |raw| && forall i :: 0 <= i < |raw| ==> dropped[i].Keys == raw[i].Keys - {Name}
    requires forall i, k :: 0 <= i < |raw| && k in raw[i] && k !in {Name} ==> dropped[i][k] == raw[i][k]
    requires |t| == |dropped| && forall i :: 0 <= i < |dropped| ==> t[i].Keys == dropped[i].Keys + {YearMissing}
    requires forall i :: 0 <= i < |dropped| ==> t[i][YearMissing] == Flag(dropped[i][Year].Missing?)
    requires forall i :: 0 <= i < |dropped| && !dropped[i][Year].Missing? ==> t[i][Year] == dropped[i][Year]
    requires forall i, k :: 0 <= i < |dropped| && k in dropped[i] && k != Year && k != YearMissing ==> t[i][k] == dropped[i][k]
    requires forall i :: 0 <= i < |dropped| ==> YearImputed(dropped, i, t[i])
    ensures forall i :: 0 <= i < |raw| ==> YearFlagged(raw[i], t[i])
    ensures forall i :: 0 <= i < |raw| ==> Year in t[i] && YearImputed(raw, i, t[i])
  {
    ImputedFromInput(raw, dropped, t);
    forall i | 0 <= i < |raw|
      ensures YearFlagged(raw[i], t[i])
    {
      assert Year in raw[i] && dropped[i][Year] == raw[i][Year];
      assert t[i].Keys == raw[i].Keys - {Name} + {YearMissing};
    }
  }

  /**
   * Dropping the name leaves the year and platform columns, so the years
   * imputed after line 47 are those imputed from the input itself.
   */
  lemma ImputedFromInput(raw: Table, dropped: Table, t: Table)
    requires InputSchema(raw)
    requires |dropped| == |raw| && forall i :: 0 <= i < |raw| ==> dropped[i].Keys == raw[i].Keys - {Name}
    requires forall i, k :: 0 <= i < |raw| && k in raw[i] && k !in {Name} ==> dropped[i][k] == raw[i][k]
    requires |t| == |dropped| && forall i :: 0 <= i < |dropped| ==> t[i].Keys == dropped[i].Keys + {YearMissing}
    requires forall i :: 0 <= i < |dropped| ==> YearImputed(dropped, i, t[i])
    ensures forall i :: 0 <= i < |raw| ==> Year in t[i] && YearImputed(raw, i, t[i])
  {
    ImputationReadsYearAndPlatform(dropped, raw, t);
  }

  /** Lines 77 to 87 for one row: the critic flag and feature replace the score and the count. */
  lemma CriticStep(t: Table, j: nat)
    requires HasColumn(t, CriticScore) && HasColumn(t, CriticCount)
    requires NumericColumn(t, CriticScore) && NumericColumn(t, CriticCount) && j < |t|
    ensures var c := CombineCritic(t);
            |c| == |t| &&
            KeysAfter(t[j], c[j], {CriticScore, CriticCount}, {CriticMissing, WeightedCritic}) &&
            KeepsOutside(t[j], c[j], CRITIC_COLUMNS) && CriticRecorded(t[j], c[j], ColumnMax(t, CriticCount))
  {
  }

  /** Lines 92 to 107 for one row: the user flag and feature replace the score and the count. */
  lemma UserStep(t: Table, parse: string -> Option<real>, j: nat)
    requires HasColumn(t, UserScore) && HasColumn(t, UserCount) && j < |t|
    ensures var u := CombineUser(t, parse);
            |u| == |t| &&
            KeysAfter(t[j], u[j], {UserScore, UserCount}, {UserMissing, WeightedUser}) &&
            KeepsOutside(t[j], u[j], USER_COLUMNS) &&
            UserRecorded(t[j], u[j], parse, ColumnMax(CleanUserColumns(t, parse), UserCount))
  {
    UserFeature(t, parse, j);
    if t[j][UserScore] == Str(TBD) {
      TbdUserScore(t, parse, j);
    }
  }

  /** The critic step followed by the user step make one scored row. */
  lemma ScoreRow(row: Row, critic: Row, out: Row, parse: string -> Option<real>,
                  criticMax: Option<real>, userMax: Option<real>)
    requires CriticScore in row && CriticCount in row && UserScore in row && UserCount in row
    requires KeysAfter(row, critic, {CriticScore, CriticCount}, {CriticMissing, WeightedCritic})
    requires KeepsOutside(row, critic, CRITIC_COLUMNS) && CriticRecorded(row, critic, criticMax)
    requires UserScore in critic && UserCount in critic
    requires KeysAfter(critic, out, {UserScore, UserCount}, {UserMissing, WeightedUser})
    requires KeepsOutside(critic, out, USER_COLUMNS) && UserRecorded(critic, out, parse, userMax)
    ensures Scored(row, out, parse, criticMax, userMax)
  {
    assert critic[UserScore] == row[UserScore] && critic[UserCount] == row[UserCount];
    assert CriticMissing !in USER_COLUMNS && WeightedCritic !in USER_COLUMNS;
  }

  /**
   * Row `row` has, for each value `v` of `vocab`, the dummy column of `v`
   * with prefix `prefix`, true exactly when the row's label is `v`.
   */
  ghost predicate DummiesAt(row: Row, prefix: string, vocab: set<string>, own: Cell)
  {
    forall v :: v in vocab ==> Dummy(prefix, v) in row && row[Dummy(prefix, v)] == Bool(own == Str(v))
  }

  /** Each row `j` of `t` has the dummies of the values of `labels`, true at its own label `labels[j]`. */
  ghost predicate DummiesMatch(t: Table, prefix: string, labels: seq<Cell>)
  {
    |t| == |labels| &&
    forall j :: 0 <= j < |t| ==> DummiesAt(t[j], prefix, Vocabulary(labels), labels[j])
  }

  /** Lines 115 to 126 for one row: the developer is replaced by its dummies. */
  lemma DeveloperRow(t: Table, j: nat)
    requires HasColumn(t, Developer) && j < |t|
    ensures var d, labels := EncodeDeveloper(t), DeveloperLabels(t);
            |d| == |t| && Replaced(t[j], d[j], Developer, DEV_PREFIX, Vocabulary(labels)) &&
            DummiesAt(d[j], DEV_PREFIX, Vocabulary(labels), labels[j])
  {
  }

  /** Lines 115 to 126 row by row. */
  lemma DeveloperStep(t: Table)
    requires HasColumn(t, Developer)
    ensures var d, labels := EncodeDeveloper(t), DeveloperLabels(t);
            |d| == |t| && |labels| == |t| &&
            forall j :: 0 <= j < |t| ==>
              Replaced(t[j], d[j], Developer, DEV_PREFIX, Vocabulary(labels)) &&
              DummiesAt(d[j], DEV_PREFIX, Vocabulary(labels), labels[j])
  {
    forall j | 0 <= j < |t|
      ensures Replaced(t[j], EncodeDeveloper(t)[j], Developer, DEV_PREFIX, Vocabulary(DeveloperLabels(t)))
      ensures DummiesAt(EncodeDeveloper(t)[j], DEV_PREFIX, Vocabulary(DeveloperLabels(t)), DeveloperLabels(t)[j])
    {
      DeveloperRow(t, j);
    }
  }

  /** Lines 132 to 134 for one row: the rating is replaced by its dummies. */
  lemma RatingRow(t: Table, j: nat)
    requires HasColumn(t, Rating) && j < |t|
    ensures var r, ratings := EncodeRating(t), Fill(Column(t, Rating), UNKNOWN);
            |r| == |t| && Replaced(t[j], r[j], Rating, RATING_PREFIX, Vocabulary(ratings)) &&
            DummiesAt(r[j], RATING_PREFIX, Vocabulary(ratings), ratings[j])
  {
  }

  /** Lines 132 to 134 row by row. */
  lemma RatingStep(t: Table)
    requires HasColumn(t, Rating)
    ensures var r, ratings := EncodeRating(t), Fill(Column(t, Rating), UNKNOWN);
            |r| == |t| && |ratings| == |t| &&
            forall j :: 0 <= j < |t| ==>
              Replaced(t[j], r[j], Rating, RATING_PREFIX, Vocabulary(ratings)) &&
              DummiesAt(r[j], RATING_PREFIX, Vocabulary(ratings), ratings[j])
  {
    forall j | 0 <= j < |t|
      ensures Replaced(t[j], EncodeRating(t)[j], Rating, RATING_PREFIX, Vocabulary(Fill(Column(t, Rating), UNKNOWN)))
      ensures DummiesAt(EncodeRating(t)[j], RATING_PREFIX, Vocabulary(Fill(Column(t, Rating), UNKNOWN)), Fill(Column(t, Rating), UNKNOWN)[j])
    {
      RatingRow(t, j);
    }
  }

  /** The two encoders one after the other, on every row. */
  lemma EncodedTable(df: Table, developed: Table, out: Table, labels: seq<Cell>, ratings: seq<Cell>)
    requires |developed| == |df| && |out| == |df| && |labels| == |df| && |ratings| == |df|
    requires forall j :: 0 <= j < |df| ==>
               Replaced(df[j], developed[j], Developer, DEV_PREFIX, Vocabulary(labels)) &&
               DummiesAt(developed[j], DEV_PREFIX, Vocabulary(labels), labels[j])
    requires forall j :: 0 <= j < |df| ==>
               Replaced(developed[j], out[j], Rating, RATING_PREFIX, Vocabulary(ratings)) &&
               DummiesAt(out[j], RATING_PREFIX, Vocabulary(ratings), ratings[j])
    ensures forall j :: 0 <= j < |df| ==> Encoded(df[j], out[j], Vocabulary(labels), Vocabulary(ratings))
    ensures DummiesMatch(out, DEV_PREFIX, labels) && DummiesMatch(out, RATING_PREFIX, ratings)
  {
    forall j | 0 <= j < |df|
      ensures Encoded(df[j], out[j], Vocabulary(labels), Vocabulary(ratings))
      ensures DummiesAt(out[j], DEV_PREFIX, Vocabulary(labels), labels[j])
    {
      EncodeRow(df[j], developed[j], out[j], Vocabulary(labels), Vocabulary(ratings), labels[j]);
    }
  }

  /** Where one column of an output row comes from. */
  lemma KeyOrigin(row: Row, flagged: Row, scored: Row, out: Row, devVocab: set<string>, ratingVocab: set<string>, k: Label)
    requires KeysAfter(row, flagged, {Name}, {YearMissing})
    requires KeysAfter(flagged, scored, {CriticScore, CriticCount, UserScore, UserCount},
                       {CriticMissing, WeightedCritic, UserMissing, WeightedUser})
    requires EncodedKeys(scored, out, devVocab, ratingVocab)
    requires k in out
    ensures (k in row && k !in DROPPED) || k in WRITTEN ||
            (HasDummyPrefix(DEV_PREFIX, k) && k.value in devVocab) ||
            (HasDummyPrefix(RATING_PREFIX, k) && k.value in ratingVocab)
  {
    if k.Dummy? {
      if !(HasDummyPrefix(DEV_PREFIX, k) && k.value in devVocab) && !(HasDummyPrefix(RATING_PREFIX, k) && k.value in ratingVocab) {
        assert k in scored && k in flagged && k in row;
      }
    } else if k !in WRITTEN {
      assert k in scored && k in flagged && k in row;
    }
  }

  /** The three sections drop the consumed columns and add only the written columns and the dummies. */
  lemma ChainGone(row: Row, flagged: Row, scored: Row, out: Row, devVocab: set<string>, ratingVocab: set<string>)
    requires InputRow(row)
    requires KeysAfter(row, flagged, {Name}, {YearMissing})
    requires KeysAfter(flagged, scored, {CriticScore, CriticCount, UserScore, UserCount},
                       {CriticMissing, WeightedCritic, UserMissing, WeightedUser})
    requires EncodedKeys(scored, out, devVocab, ratingVocab)
    ensures OutputKeys(row, out, devVocab, ratingVocab)
    ensures Name !in out && Developer !in out && Rating !in out
    ensures CriticScore !in out && CriticCount !in out && UserScore !in out && UserCount !in out
  {
    forall k | k in out
      ensures (k in row && k !in DROPPED) || k in WRITTEN ||
              (HasDummyPrefix(DEV_PREFIX, k) && k.value in devVocab) ||
              (HasDummyPrefix(RATING_PREFIX, k) && k.value in ratingVocab)
    {
      KeyOrigin(row, flagged, scored, out, devVocab, ratingVocab, k);
    }
    assert Name !in flagged;
    assert Name !in scored;
    assert CriticScore !in scored && CriticCount !in scored && UserScore !in scored && UserCount !in scored;
  }

  /** The later sections keep the year flag and the year. */
  lemma ChainYear(row: Row, flagged: Row, scored: Row, out: Row)
    requires Year in row && YearRecorded(row, flagged)
    requires KeepsOutside(flagged, scored, CRITIC_COLUMNS + USER_COLUMNS)
    requires EncodedKeeps(scored, out)
    ensures YearRecorded(row, out)
  {
  }

  /** The encoding section keeps the critic flag and feature. */
  lemma ChainCritic(row: Row, flagged: Row, scored: Row, out: Row, max: Option<real>)
    requires CriticScore in row && CriticCount in row
    requires KeepsOutside(row, flagged, {Name, Year, YearMissing})
    requires CriticScore in flagged && CriticCount in flagged && CriticRecorded(flagged, scored, max)
    requires EncodedKeeps(scored, out)
    ensures CriticRecorded(row, out, max)
  {
    assert flagged[CriticScore] == row[CriticScore] && flagged[CriticCount] == row[CriticCount];
  }

  /** The encoding section keeps the user flag and feature. */
  lemma ChainUser(row: Row, flagged: Row, scored: Row, out: Row, parse: string -> Option<real>, max: Option<real>)
    requires UserScore in row && UserCount in row
    requires KeepsOutside(row, flagged, {Name, Year, YearMissing})
    requires UserScore in flagged && UserCount in flagged && UserRecorded(flagged, scored, parse, max)
    requires EncodedKeeps(scored, out)
    ensures UserRecorded(row, out, parse, max)
  {
    assert flagged[UserScore] == row[UserScore] && flagged[UserCount] == row[UserCount];
  }

  /** A column no section touches passes through all three. */
  lemma ChainPass(row: Row, flagged: Row, scored: Row, out: Row)
    requires KeepsOutside(row, flagged, {Name, Year, YearMissing})
    requires KeepsOutside(flagged, scored, CRITIC_COLUMNS + USER_COLUMNS)
    requires EncodedKeeps(scored, out)
    ensures forall k :: k in row && k !in CONSUMED && !HasDummyPrefix(DEV_PREFIX, k) && !HasDummyPrefix(RATING_PREFIX, k) ==>
      k in out && out[k] == row[k]
  {
  }

  /** The genre and the publisher pass through all three sections. */
  lemma ChainKept(row: Row, flagged: Row, scored: Row, out: Row)
    requires Genre in row && Publisher in row
    requires KeepsOutside(row, flagged, {Name, Year, YearMissing})
    requires KeepsOutside(flagged, scored, CRITIC_COLUMNS + USER_COLUMNS)
    requires EncodedKeeps(scored, out)
    ensures Genre in out && out[Genre] == row[Genre] && Publisher in out && out[Publisher] == row[Publisher]
  {
  }

  /** The encoding section keeps the imputed year. */
  lemma ChainImputed(t: Table, i: nat, flagged: Row, scored: Row, out: Row)
    requires HasColumn(t, Year) && HasColumn(t, Platform) && i < |t| && Year in flagged
    requires YearImputed(t, i, flagged)
    requires KeepsOutside(flagged, scored, CRITIC_COLUMNS + USER_COLUMNS)
    requires EncodedKeeps(scored, out)
    ensures Year in out && YearImputed(t, i, out)
  {
    assert out[Year] == flagged[Year];
  }

  /** The three sections of the script compose, row by row, into `CleanedRow`. */
  lemma ChainRow(row: Row, flagged: Row, scored: Row, out: Row, parse: string -> Option<real>,
                 criticMax: Option<real>, userMax: Option<real>, devVocab: set<string>, ratingVocab: set<string>)
    requires InputRow(row) && Complete(row, REQUIRED)
    requires YearFlagged(row, flagged)
    requires Scored(flagged, scored, parse, criticMax, userMax)
    requires Encoded(scored, out, devVocab, ratingVocab)
    ensures CleanedRow(row, out, parse, criticMax, userMax, devVocab, ratingVocab)
  {
    ChainGone(row, flagged, scored, out, devVocab, ratingVocab);
    ChainYear(row, flagged, scored, out);
    ChainCritic(row, flagged, scored, out, criticMax);
    ChainUser(row, flagged, scored, out, parse, userMax);
    ChainPass(row, flagged, scored, out);
    ChainKept(row, flagged, scored, out);
  }

  /**
   * Row `j` of `kept` is the flagged form of the `j`-th complete input row,
   * with its year imputed from the whole input.
   */
  ghost predicate FlaggedRows(raw: Table, kept: Table)
    requires InputSchema(raw)
  {
    var idx := KeptIndices(raw, REQUIRED);
    |kept| == |idx| &&
    forall j :: 0 <= j < |kept| ==> YearFlagged(raw[idx[j]], kept[j]) && YearImputed(raw, idx[j], kept[j])
  }

  /**
   * Lines 47 to 64: drop the name, then flag and impute the year. Each row
   * is its input row without the name, flagged, with its year imputed from
   * the whole input.
   */
  method FlagYears(raw: Table) returns (df: Table)
    requires InputSchema(raw)
    ensures |df| == |raw|
    ensures forall i :: 0 <= i < |raw| ==> YearFlagged(raw[i], df[i])
    ensures forall i :: 0 <= i < |raw| ==> Year in df[i] && YearImputed(raw, i, df[i])
  {
    df := DropColumns(raw, {Name});
    ghost var dropped := df;
    assert forall i, k :: 0 <= i < |raw| && k in raw[i] && k !in {Name} ==> dropped[i][k] == raw[i][k];
    df := ImputeReleaseYear(df);
    YearSection(raw, dropped, df);
  }

  /**
   * Lines 47 to 69: drop the name, flag and impute the year, then drop the
   * rows lacking a genre or a publisher. The j-th row left is the input row
   * at the j-th complete position.
   */
  method CleanRows(raw: Table) returns (df: Table)
    requires InputSchema(raw)
    ensures FlaggedRows(raw, df)
  {
    df := FlagYears(raw);
    ghost var imputed := df;
    RequiredKept(raw, imputed);
    df := DropIncomplete(df, REQUIRED);
    FlaggedKept(raw, imputed, df);
  }

  /** The year section leaves the genre and the publisher of every row. */
  lemma RequiredKept(raw: Table, imputed: Table)
    requires InputSchema(raw)
    requires |imputed| == |raw| && forall i :: 0 <= i < |raw| ==> YearFlagged(raw[i], imputed[i])
    ensures HasColumns(imputed, REQUIRED)
    ensures forall i, c :: 0 <= i < |raw| && c in REQUIRED ==> imputed[i][c] == raw[i][c]
  {
    forall i | 0 <= i < |raw|
      ensures REQUIRED <= imputed[i].Keys
      ensures forall c :: c in REQUIRED ==> imputed[i][c] == raw[i][c]
    {
      assert YearFlagged(raw[i], imputed[i]);
    }
  }

  /**
   * Line 69 after lines 47 to 64: the year section leaves the genre and the
   * publisher alone, so the rows kept are those at the complete positions of
   * the input.
   */
  lemma FlaggedKept(raw: Table, imputed: Table, df: Table)
    requires InputSchema(raw)
    requires |imputed| == |raw| && forall i :: 0 <= i < |raw| ==> YearFlagged(raw[i], imputed[i])
    requires forall i :: 0 <= i < |raw| ==> Year in imputed[i] && YearImputed(raw, i, imputed[i])
    requires HasColumns(imputed, REQUIRED)
    requires forall i, c :: 0 <= i < |raw| && c in REQUIRED ==> imputed[i][c] == raw[i][c]
    requires |df| == |KeptIndices(imputed, REQUIRED)|
    requires forall k :: 0 <= k < |df| ==> df[k] == imputed[KeptIndices(imputed, REQUIRED)[k]]
    ensures FlaggedRows(raw, df)
  {
    KeptIndicesAgree(imputed, raw, REQUIRED, 0);
    var idx := KeptIndices(raw, REQUIRED);
    forall j | 0 <= j < |df|
      ensures YearFlagged(raw[idx[j]], df[j]) && YearImputed(raw, idx[j], df[j])
    {
      assert idx[j] in idx;
      assert df[j] == imputed[idx[j]];
    }
  }

  /** The rows left by the first section keep the score and category columns of their input rows. */
  lemma KeptSchema(raw: Table, kept: Table)
    requires InputSchema(raw) && FlaggedRows(raw, kept)
    ensures HasColumn(kept, CriticScore) && HasColumn(kept, CriticCount)
    ensures NumericColumn(kept, CriticScore) && NumericColumn(kept, CriticCount)
    ensures HasColumn(kept, UserScore) && HasColumn(kept, UserCount)
    ensures HasColumn(kept, Developer) && HasColumn(kept, Rating)
    ensures var idx := KeptIndices(raw, REQUIRED);
            forall j :: 0 <= j < |kept| ==>
              kept[j][Developer] == raw[idx[j]][Developer] && kept[j][Rating] == raw[idx[j]][Rating]
  {
    var idx := KeptIndices(raw, REQUIRED);
    forall j | 0 <= j < |kept|
      ensures CriticScore in kept[j] && kept[j][CriticScore] == raw[idx[j]][CriticScore]
      ensures CriticCount in kept[j] && kept[j][CriticCount] == raw[idx[j]][CriticCount]
      ensures UserScore in kept[j] && UserCount in kept[j]
      ensures Developer in kept[j] && kept[j][Developer] == raw[idx[j]][Developer]
      ensures Rating in kept[j] && kept[j][Rating] == raw[idx[j]][Rating]
    {
      assert YearFlagged(raw[idx[j]], kept[j]);
    }
  }

  /** Scoring a row keeps its developer and its rating. */
  lemma ScoredKeepsCategories(row: Row, out: Row)
    requires Developer in row && Rating in row && KeepsOutside(row, out, CRITIC_COLUMNS + USER_COLUMNS)
    ensures Developer in out && out[Developer] == row[Developer] && Rating in out && out[Rating] == row[Rating]
  {
    assert Developer !in CRITIC_COLUMNS + USER_COLUMNS && Rating !in CRITIC_COLUMNS + USER_COLUMNS;
  }

  /** The developer and rating columns reach the encoding section as the kept input rows had them. */
  lemma ScoredCategories(raw: Table, kept: Table, scored: Table)
    requires InputSchema(raw) && |kept| == |KeptIndices(raw, REQUIRED)|
    requires HasColumn(kept, Developer) && HasColumn(kept, Rating)
    requires |scored| == |kept| &&
             forall j :: 0 <= j < |kept| ==> KeepsOutside(kept[j], scored[j], CRITIC_COLUMNS + USER_COLUMNS)
    requires var idx := KeptIndices(raw, REQUIRED);
             forall j :: 0 <= j < |kept| ==>
               kept[j][Developer] == raw[idx[j]][Developer] && kept[j][Rating] == raw[idx[j]][Rating]
    ensures HasColumn(scored, Developer) && HasColumn(scored, Rating)
    ensures Column(scored, Developer) == Pick(raw, Developer, KeptIndices(raw, REQUIRED))
    ensures Column(scored, Rating) == Pick(raw, Rating, KeptIndices(raw, REQUIRED))
  {
    var idx := KeptIndices(raw, REQUIRED);
    forall j | 0 <= j < |scored|
      ensures Developer in scored[j] && scored[j][Developer] == raw[idx[j]][Developer]
      ensures Rating in scored[j] && scored[j][Rating] == raw[idx[j]][Rating]
    {
      ScoredKeepsCategories(kept[j], scored[j]);
    }
    var devs, ratings := Pick(raw, Developer, idx), Pick(raw, Rating, idx);
    assert Column(scored, Developer) == devs by {
      forall j | 0 <= j < |scored| ensures Column(scored, Developer)[j] == devs[j] { }
    }
    assert Column(scored, Rating) == ratings by {
      forall j | 0 <= j < |scored| ensures Column(scored, Rating)[j] == ratings[j] { }
    }
  }

  /**
   * Row `j` of `out` is the cleaned form of the `j`-th complete input row:
   * the feature divisors are the maxima over the kept rows, the dummies are
   * those of the kept developer labels and ratings, and the year is imputed
   * from the whole input.
   */
  ghost predicate CleanedTable(raw: Table, out: Table, parse: string -> Option<real>)
    requires InputSchema(raw)
  {
    var kept := KeptRows(raw);
    |out| == |KeptIndices(raw, REQUIRED)| &&
    CleanedFrom(raw, out, parse, ColumnMax(kept, CriticCount), ColumnMax(CleanUserColumns(kept, parse), UserCount),
                Vocabulary(KeptDeveloperLabels(raw)), Vocabulary(KeptRatings(raw)))
  }

  /**
   * Row `j` of `out` is the cleaned form of the `j`-th complete input row
   * for the given divisors and vocabularies, with its year imputed from the
   * whole input.
   */
  ghost predicate CleanedFrom(raw: Table, out: Table, parse: string -> Option<real>,
                              criticMax: Option<real>, userMax: Option<real>,
                              devVocab: set<string>, ratingVocab: set<string>)
    requires InputSchema(raw)
  {
    var idx := KeptIndices(raw, REQUIRED);
    forall j :: 0 <= j < |out| && j < |idx| ==>
      CleanedRow(raw[idx[j]], out[j], parse, criticMax, userMax, devVocab, ratingVocab) &&
      YearImputed(raw, idx[j], out[j])
  }

  /** The divisors the score section computes on the flagged rows are the maxima over the kept input rows. */
  lemma KeptMaxima(raw: Table, kept: Table, parse: string -> Option<real>)
    requires InputSchema(raw) && FlaggedRows(raw, kept)
    requires HasColumn(kept, CriticCount) && HasColumn(kept, UserScore) && HasColumn(kept, UserCount)
    ensures ColumnMax(kept, CriticCount) == ColumnMax(KeptRows(raw), CriticCount)
    ensures ColumnMax(CleanUserColumns(kept, parse), UserCount) ==
            ColumnMax(CleanUserColumns(KeptRows(raw), parse), UserCount)
  {
    var idx, rows := KeptIndices(raw, REQUIRED), KeptRows(raw);
    forall j | 0 <= j < |kept|
      ensures kept[j][CriticCount] == rows[j][CriticCount] && kept[j][UserCount] == rows[j][UserCount]
    {
      assert YearFlagged(raw[idx[j]], kept[j]);
    }
    SameColumnSameMax(kept, rows, CriticCount);
    SameUserCountsSameMax(kept, rows, parse);
  }

  /** Every output row is the cleaned form of its kept input row, for given divisors and vocabularies. */
  lemma CleanedRows(raw: Table, kept: Table, scored: Table, out: Table, parse: string -> Option<real>,
                    criticMax: Option<real>, userMax: Option<real>, devVocab: set<string>, ratingVocab: set<string>)
    requires InputSchema(raw) && FlaggedRows(raw, kept)
    requires |scored| == |kept| &&
             forall j :: 0 <= j < |kept| ==>
               CriticScore in kept[j] && CriticCount in kept[j] && UserScore in kept[j] && UserCount in kept[j] &&
               Scored(kept[j], scored[j], parse, criticMax, userMax)
    requires |out| == |scored| && forall j :: 0 <= j < |scored| ==> Encoded(scored[j], out[j], devVocab, ratingVocab)
    ensures CleanedFrom(raw, out, parse, criticMax, userMax, devVocab, ratingVocab)
  {
    var idx := KeptIndices(raw, REQUIRED);
    forall j | 0 <= j < |out| && j < |idx|
      ensures CleanedRow(raw[idx[j]], out[j], parse, criticMax, userMax, devVocab, ratingVocab)
      ensures Year in out[j] && YearImputed(raw, idx[j], out[j])
    {
      assert idx[j] in idx;
      assert YearFlagged(raw[idx[j]], kept[j]);
      ChainRow(raw[idx[j]], kept[j], scored[j], out[j], parse, criticMax, userMax, devVocab, ratingVocab);
      ChainImputed(raw, idx[j], kept[j], scored[j], out[j]);
    }
  }

  /** The critic stage leaves the user columns, so the user divisor is the same before and after it. */
  lemma CriticKeepsUserCounts(t: Table, parse: string -> Option<real>)
    requires HasColumn(t, CriticScore) && HasColumn(t, CriticCount)
    requires NumericColumn(t, CriticScore) && NumericColumn(t, CriticCount)
    requires HasColumn(t, UserScore) && HasColumn(t, UserCount)
    ensures var c := CombineCritic(t);
            HasColumn(c, UserScore) && HasColumn(c, UserCount) &&
            ColumnMax(CleanUserColumns(c, parse), UserCount) == ColumnMax(CleanUserColumns(t, parse), UserCount)
  {
    var c := CombineCritic(t);
    forall i | 0 <= i < |t|
      ensures UserScore in c[i] && UserCount in c[i] && c[i][UserCount] == t[i][UserCount]
    {
      assert UserScore !in CRITIC_COLUMNS && UserCount !in CRITIC_COLUMNS;
    }
    SameUserCountsSameMax(c, t, parse);
  }

  /** Lines 77 to 107: build the critic features, then the user features. */
  method ScoreColumns(df: Table, parse: string -> Option<real>) returns (out: Table)
    requires HasColumn(df, CriticScore) && HasColumn(df, CriticCount)
    requires NumericColumn(df, CriticScore) && NumericColumn(df, CriticCount)
    requires HasColumn(df, UserScore) && HasColumn(df, UserCount)
    ensures |out| == |df|
    ensures forall j :: 0 <= j < |df| ==>
              Scored(df[j], out[j], parse, ColumnMax(df, CriticCount), ColumnMax(CleanUserColumns(df, parse), UserCount))
  {
    var critic := CombineCritic(df);
    CriticKeepsUserCounts(df, parse);
    out := CombineUser(critic, parse);
    ghost var criticMax, userMax := ColumnMax(df, CriticCount), ColumnMax(CleanUserColumns(df, parse), UserCount);
    forall j | 0 <= j < |df|
      ensures Scored(df[j], out[j], parse, criticMax, userMax)
    {
      CriticStep(df, j);
      UserStep(critic, parse, j);
      ScoreRow(df[j], critic[j], out[j], parse, criticMax, userMax);
    }
  }

  /** Lines 115 to 134: encode the developer, then the rating. */
  method EncodeCategories(df: Table) returns (out: Table)
    requires HasColumn(df, Developer) && HasColumn(df, Rating)
    ensures |out| == |df|
    ensures forall j :: 0 <= j < |df| ==>
              Encoded(df[j], out[j], Vocabulary(DeveloperLabels(df)), Vocabulary(Fill(Column(df, Rating), UNKNOWN)))
    ensures DummiesMatch(out, DEV_PREFIX, DeveloperLabels(df))
    ensures DummiesMatch(out, RATING_PREFIX, Fill(Column(df, Rating), UNKNOWN))
  {
    ghost var labels, ratings := DeveloperLabels(df), Fill(Column(df, Rating), UNKNOWN);
    var developed := EncodeDeveloper(df);
    DeveloperStep(df);
    assert Column(developed, Rating) == Column(df, Rating);
    assert Fill(Column(developed, Rating), UNKNOWN) == ratings;
    out := EncodeRating(developed);
    RatingStep(developed);
    EncodedTable(df, developed, out, labels, ratings);
  }

  /**
   * The script: drop the name, flag and impute the year, drop the rows
   * lacking a genre or a publisher, build the critic and user features, and
   * encode the developer and the rating. Each output row is the input row
   * at the matching kept position, transformed as each stage promises.
   */
  method Preprocess(raw: Table, parse: string -> Option<real>) returns (df: Table)
    requires InputSchema(raw)
    ensures |df| <= |raw| && CleanedTable(raw, df, parse)
    // One "Dev_" dummy per developer label of the kept rows, true at the rows with that label.
    ensures DummiesMatch(df, DEV_PREFIX, KeptDeveloperLabels(raw))
    // One "Rating_" dummy per rating of the kept rows ("Unknown" for a missing one), true at the rows with it.
    ensures DummiesMatch(df, RATING_PREFIX, KeptRatings(raw))
  {
    df := CleanRows(raw);
    ghost var kept := df;
    KeptSchema(raw, kept);
    KeptMaxima(raw, kept, parse);
    df := ScoreColumns(df, parse);
    ghost var scored := df;
    ScoredCategories(raw, kept, scored);
    df := EncodeCategories(df);
    assert DeveloperLabels(scored) == KeptDeveloperLabels(raw);
    assert Fill(Column(scored, Rating), UNKNOWN) == KeptRatings(raw);
    ghost var criticMax, userMax := ColumnMax(KeptRows(raw), CriticCount), ColumnMax(CleanUserColumns(KeptRows(raw), parse), UserCount);
    ghost var devVocab, ratingVocab := Vocabulary(KeptDeveloperLabels(raw)), Vocabulary(KeptRatings(raw));
    CleanedRows(raw, kept, scored, df, parse, criticMax, userMax, devVocab, ratingVocab);
  }
}

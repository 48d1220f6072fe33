# Video-game sales preprocessing, modelled in Dafny

This project models `preprocessing.py`, the script that turns the video-game
sales table into a numeric feature matrix. The model covers the whole
cleaning pipeline, in the order the script runs it:

1. the name column is dropped;
2. a `Year_Missing` flag records which release years are missing;
3. each missing year is imputed from the median year of its platform, or
   from the median year of the whole frame when the platform is not a key of
   the per-platform median table;
4. rows lacking a genre or a publisher are dropped;
5. the critic score and count become a missingness flag and a weighted
   feature (score × count / largest count);
6. the user score (`'tbd'` treated as missing, rescaled ×10) and user count
   get the same treatment, behind a guard against an absent or zero divisor;
7. the developer is filled with `"Unknown"`, developers seen fewer than 20
   times are pooled into `"Other"`, and the column is one-hot encoded with
   prefix `Dev`;
8. the rating is filled with `"Unknown"` and one-hot encoded with prefix
   `Rating`.

A frame is a sequence of rows and a row is a map from column label to cell
(`Frame`). A cell is missing (pandas' NaN or `pd.NA`), a number, an integer
(the 0/1 flags), a string or a boolean (a dummy column). Numbers are `real`s.

The script body mutates one frame step by step. It is modelled as methods
that reassign `df`:

- `Preprocessing.FlagYears` covers lines 47–64.
- `Preprocessing.CleanRows` covers lines 47–69.
- `ImputeReleaseYear` covers the two column assignments of lines 54–64.
- `Preprocessing.ScoreColumns` covers lines 77–107.
- `Preprocessing.EncodeCategories` covers lines 115–134.
- `Preprocessing.Preprocess` runs them in order.

Each column computation is a pure function: the median, the maximum,
`impute_year`, the quotients, `value_counts`, `replace` and `get_dummies`.

The end-to-end contract is `CleanedTable`. It is stated over the input
alone. Row `j` of the output comes from the `j`-th input row that has a
genre and a publisher (the kept rows). In that row:

- the name, the four score sources, the developer and the rating are gone;
- every other column is an input column, a written flag or feature, or the
  dummy of a kept developer label or kept rating;
- the year, critic and user flags record the input;
- a missing year is imputed from the whole input, as `impute_year` does;
- a flagged feature is 0;
- an unflagged critic feature is score × count / the largest critic count
  of the kept rows, or NaN when that largest count is 0;
- an unflagged user feature is the cleaned score × cleaned count / the
  largest cleaned user count of the kept rows, or 0 when the guard fires;
- every other column passes through unchanged.

The dummy columns match the filled and pooled developer labels and the
filled ratings of the kept input rows.

Several behaviours of the code can leave a missing value at the end, where
the final missing-value report (`preprocessing.py:136-137`) would show it.
The model follows the code in all of them, among them:

- A missing year whose platform is a key of the median table, but whose
  platform has no present year, takes that key's NaN median and stays
  missing. The overall median is used only for a platform that is not a key.
- When the input has no present year at all, the overall median is NaN, so
  a missing year on a platform that is not a key (a missing platform among
  them) stays missing. `YearImputed` states both cases.
- The critic quotient has no guard against a zero divisor. When the largest
  present critic count is 0, every unflagged row gets NaN
  (`CriticFeatureInRange` states exactly when).
- No stage fills the platform column or the other columns of the input file
  (the sales columns), so a NaN there passes through unchanged
  (`ChainPass`).

The overall median of line 61 is an argument evaluated on every call. It is
evaluated while the year column still holds the input years, so the model
computes it once, over the years before imputation.

## Model

| member | source | states |
|---|---|---|
| Frame.Flag | preprocessing.py:54 | `isna().astype(int)`: the integer is 1 exactly when the condition holds and 0 exactly when it does not |
| Frame.SetColumn | preprocessing.py:54 | a column assignment: every row gains or overwrites that one column with its own value; the other columns of every row are unchanged |
| Frame.DropColumns | preprocessing.py:47 | dropping columns keeps the rows and their order; each row loses exactly the named columns and keeps every other cell |
| Frame.Fill | preprocessing.py:115 | `fillna`: no missing cell remains, present cells are unchanged, missing ones become the fill text |
| Frame.DummyTextInjective | preprocessing.py:126 | `get_dummies` names a dummy column prefix, `_`, value; two values under one prefix never get the same column name |
| Frame.Numbers | preprocessing.py:80 | the values a NaN-skipping aggregate sees: exactly the numeric cells of the column, each number as many times as its cell occurs |
| Frame.Count | preprocessing.py:121 | a `value_counts` entry: at most the column length, and positive exactly when the value occurs; its exact value is given by `Frame.CountIsMultiplicity` |
| Frame.CountIsMultiplicity | preprocessing.py:121 | the count of a value is its multiplicity in the column: the number of cells equal to it, which line 122 compares with 20 |
| Stats.Sort | preprocessing.py:56 | the sorted values of the median are a sorted permutation of the input |
| Stats.MedianOf | preprocessing.py:56 | a NaN-skipping median is NaN exactly when no value is present |
| Stats.MaxOf | preprocessing.py:80 | a NaN-skipping max is NaN exactly when no value is present; otherwise it is one of the values and no value exceeds it |
| Stats.SortedUnique | preprocessing.py:56 | two sorted sequences holding the same values are equal |
| Stats.MedianPermutation | preprocessing.py:56 | the median depends only on the multiset of its values, not on their order |
| Stats.MedianBetween | preprocessing.py:56 | a median lies between the smallest and the largest value |
| Stats.MedianSplitsInHalf | preprocessing.py:56 | at least half of the values are at most the median, and at least half are at least it |
| Stats.MedianSingleton | preprocessing.py:56 | the median of one value is that value |
| YearImputer.YearFlags | preprocessing.py:54 | the year flag of a row is 1 exactly when its year is missing and 0 exactly when it is present |
| YearImputer.PresentYears | preprocessing.py:61 | the values of the overall median are exactly the present years of the frame, each as many times as rows hold it |
| YearImputer.PlatformYears | preprocessing.py:56 | the values of a platform's median are exactly the present years of the rows on that platform, each year as many times as rows on that platform hold it |
| YearImputer.YearsOn | preprocessing.py:56 | the years grouped under one platform: each year as many times as the (platform, year) pair occurs |
| YearImputer.PlatformMedianReordered | preprocessing.py:56 | reordering the rows (the same multiset of platform/year pairs) leaves every platform's median unchanged |
| YearImputer.PlatformKeys | preprocessing.py:56 | the group keys are exactly the non-missing platforms that occur in some row |
| YearImputer.PlatformMedians | preprocessing.py:56 | one entry per group key, holding the median of that platform's present years (NaN when there is none) |
| YearImputer.ImputeReleaseYear | preprocessing.py:54-64 | the flag is taken from the years before imputation; a present year is kept; a missing year on a key platform takes that platform's median (even NaN), any other missing year takes the overall median; a year stays missing exactly when the median it took is NaN; nothing else changes |
| YearImputer.ImputeYear | preprocessing.py:59-63 | `impute_year`: a present year is returned unchanged; a missing year on a key of the median table gets that key's median (NaN stays missing); any other missing year gets the overall median |
| YearImputer.ImputedRows | preprocessing.py:59-63 | rows whose year is `impute_year` of the flagged row meet the imputation contract above |
| YearImputer.ImputedWithinPlatformRange | preprocessing.py:56-61 | a year imputed from a platform median lies between that platform's smallest and largest present year |
| YearImputer.ImputedWithinOverallRange | preprocessing.py:61 | a year imputed from the overall median lies between the smallest and largest present year of the frame |
| YearImputer.SoleYearOfPlatform | preprocessing.py:56-61 | a missing year on a platform with exactly one present year takes that year |
| YearImputer.SamePlatformYears | preprocessing.py:56 | a platform's present years depend only on the year and platform columns |
| YearImputer.ImputationReadsYearAndPlatform | preprocessing.py:54-64 | the imputation reads only the year and platform columns: rows imputed from one frame are imputed from any frame with the same two columns |
| RowFilter.KeptIndicesFromComplete | preprocessing.py:69 | from any position on, a position is kept exactly when its row has every named column present |
| RowFilter.KeptIndices | preprocessing.py:69 | the kept positions are strictly increasing, and a position is kept exactly when its row is complete |
| RowFilter.DropIncompleteFromKeeps | preprocessing.py:69 | the rows kept from any position on are the rows at the kept positions, in order |
| RowFilter.DropIncomplete | preprocessing.py:69 | `dropna(subset=...)` keeps exactly the complete rows, in their order and unchanged, and never grows the frame |
| RowFilter.KeptIndicesAgree | preprocessing.py:69 | two frames that agree on the subset columns keep the same positions |
| ScoreCombiner.ColumnMax | preprocessing.py:80 | the NaN-skipping column max is NaN exactly when no number is present; otherwise some row holds it and no row exceeds it |
| ScoreCombiner.SameColumnSameMax | preprocessing.py:80 | `df[col].max()` reads only that column: frames with equal columns have equal maxima |
| ScoreCombiner.SameUserCountsSameMax | preprocessing.py:92-99 | the user divisor reads only the user counts: frames with equal user counts have equal maxima of the cleaned counts |
| ScoreCombiner.Quotient | preprocessing.py:81 | score × count / max is a number exactly when both factors are present and the max is present and non-zero, and is NaN otherwise |
| ScoreCombiner.CriticRow | preprocessing.py:77-87 | one row: the flag is 1 exactly when the score or count is missing; a flagged row gets 0; an unflagged row gets the quotient; the sources are dropped; the other columns are kept |
| ScoreCombiner.CombineCritic | preprocessing.py:77-87 | the critic stage: flag iff a source is missing; flagged rows get 0; unflagged rows get score × count / max over present counts, or NaN when that max is 0; the sources are dropped and nothing else changes |
| ScoreCombiner.ToNumeric | preprocessing.py:93 | `to_numeric(errors='coerce')` keeps numbers and NaN and yields a number or NaN |
| ScoreCombiner.CleanUserScore | preprocessing.py:92 | `'tbd'` becomes missing whatever the parser says; any other cell is coerced, and a number is multiplied by 10 |
| ScoreCombiner.CleanUserRow | preprocessing.py:92-93 | one row's user score is cleaned and its count coerced; nothing else changes |
| ScoreCombiner.CleanUserColumns | preprocessing.py:92-93 | after lines 92–93 both user columns are float columns and every row is cleaned |
| ScoreCombiner.UserRow | preprocessing.py:96-107 | one row: the flag records the cleaned sources; the feature is 0.0 when the guard fires or the row is flagged, and the quotient otherwise; the sources are dropped |
| ScoreCombiner.CombineUser | preprocessing.py:92-107 | the user stage: the flag is taken after cleaning; the sources are dropped and nothing else changes |
| ScoreCombiner.UserFeature | preprocessing.py:99-104 | the user feature is always a number: 0.0 when the guard fires or the row is flagged, otherwise cleaned score × cleaned count / max with the count at most the max |
| ScoreCombiner.NoUserCounts | preprocessing.py:99-101 | with no present user count, every user feature is 0.0 |
| ScoreCombiner.TbdUserScore | preprocessing.py:92-104 | a `'tbd'` user score makes the row flagged with feature 0.0, whatever its count |
| ScoreCombiner.CriticFeatureInRange | preprocessing.py:80-84 | on 0–100 scores and non-negative counts, the critic feature is NaN exactly when the row is unflagged and the largest count is 0, and is within 0–100 otherwise |
| ScoreCombiner.UserFeatureInRange | preprocessing.py:92-104 | on 0–10 user scores and non-negative counts, the user feature is a number within 0–100 |
| Encoders.RareToOther | preprocessing.py:121-123 | pooling keeps each cell or replaces it by `"Other"`, and a NaN cell (which `value_counts` does not count) stays NaN |
| Encoders.FrequentValueKept | preprocessing.py:121-123 | a value other than `"Other"` counted at least 20 times stays at exactly the rows that held it, with the same count |
| Encoders.RareValueGone | preprocessing.py:121-123 | a present value other than `"Other"` counted fewer than 20 times no longer occurs |
| Encoders.PooledValuesFrequent | preprocessing.py:121-123 | after pooling, every present value other than `"Other"` occurs at least 20 times |
| Encoders.OtherBucketMayBeRare | preprocessing.py:123 | the `"Other"` bucket is not pooled again and can hold fewer than 20 rows |
| Encoders.Vocabulary | preprocessing.py:126 | the dummy values are exactly the text values of the column |
| Encoders.DummyColumns | preprocessing.py:126 | the dummy columns are exactly the prefixed names of the vocabulary |
| Encoders.Dummies | preprocessing.py:126 | one boolean per vocabulary value, true exactly when the row's cell is that value |
| Encoders.OneHotRow | preprocessing.py:126 | a `get_dummies` row: the encoded column is gone, one dummy per vocabulary value is present and true exactly at the row's own value, and every other column is kept |
| Encoders.OneHot | preprocessing.py:126 | `get_dummies` keeps the row count and encodes every row over the same vocabulary |
| Encoders.OneTrueDummy | preprocessing.py:126 | a row holding a vocabulary value has that value's dummy true and every other dummy false |
| Encoders.ExactlyOneDummy | preprocessing.py:126 | each row of a column without NaN has exactly one true dummy, named after its own value |
| Encoders.MissingGetsNoDummy | preprocessing.py:126 | a row whose value is NaN has every dummy false |
| Encoders.DeveloperLabels | preprocessing.py:115-123 | after the fill and the pooling, no developer label is missing |
| Encoders.EncodeDeveloper | preprocessing.py:115-126 | each row is the one-hot row of its filled and pooled developer label over the pooled vocabulary |
| Encoders.DeveloperDummy | preprocessing.py:115-126 | each row has exactly one true `Dev` dummy; its label is `"Unknown"` or `"Other"` for a missing developer, the developer or `"Other"` otherwise, and is `"Other"` or occurs at least 20 times |
| Encoders.EncodeRating | preprocessing.py:132-134 | each row is the one-hot row of its filled rating over the filled vocabulary |
| Encoders.RatingDummy | preprocessing.py:132-134 | each row has exactly one true `Rating` dummy: its rating, or `"Unknown"` when the rating is missing |
| Preprocessing.KeptRows | preprocessing.py:69 | the input rows that line 69 keeps, in order and with every column; they have the columns that the two divisors read |
| Preprocessing.YearSection | preprocessing.py:47-64 | after the name drop and the year stage, every row lost only the name, gained the flag, records its year's missingness, keeps a present year, and has its missing year imputed from the input frame itself |
| Preprocessing.ImputedFromInput | preprocessing.py:47-64 | dropping the name leaves the year and platform columns, so the years imputed after line 47 are those imputed from the input |
| Preprocessing.FlagYears | preprocessing.py:47-64 | every row after line 64 is its input row without the name, with the year flag, and with its year imputed from the whole input |
| Preprocessing.RequiredKept | preprocessing.py:47-69 | the year section keeps the genre and publisher of every row |
| Preprocessing.FlaggedKept | preprocessing.py:69 | the year stage leaves genre and publisher alone, so the filter keeps the rows at the complete positions of the input, each flagged and imputed |
| Preprocessing.CleanRows | preprocessing.py:47-69 | row `j` after line 69 is the flagged form of the `j`-th complete input row, with its year imputed from the whole input |
| Preprocessing.KeptSchema | preprocessing.py:47-69 | the kept rows still have float critic columns, the user columns, and the input's developer and rating |
| Preprocessing.CriticStep | preprocessing.py:77-87 | on one row the critic stage removes the two sources and adds the flag and feature; the flag records the row; the feature is 0 when flagged, else score × count / the column's max (NaN when it is 0); the rest is kept |
| Preprocessing.UserStep | preprocessing.py:92-107 | on one row the user stage removes the two sources and adds the flag and feature; the flag records the cleaned row; the feature is 0 when the guard fires or the row is flagged, else the cleaned quotient by the cleaned max; `'tbd'` gives flag 1 and 0; the rest is kept |
| Preprocessing.ScoreRow | preprocessing.py:77-107 | the critic step then the user step make one scored row, with the same two divisors |
| Preprocessing.CriticKeepsUserCounts | preprocessing.py:77-99 | the critic stage keeps the user columns, so the user divisor of line 99 is the same as over the frame before line 77 |
| Preprocessing.ScoreColumns | preprocessing.py:77-107 | every row after line 107 is the scored form of the row before line 77, the critic divisor being the max critic count of that frame and the user divisor the max of its cleaned user counts |
| Preprocessing.ScoredKeepsCategories | preprocessing.py:77-107 | the score section keeps a row's developer and rating |
| Preprocessing.ScoredCategories | preprocessing.py:77-115 | the developer and rating columns reach line 115 as the kept input rows had them |
| Preprocessing.KeptMaxima | preprocessing.py:80-99 | the divisors computed on the rows left by line 69 are the maxima over the kept input rows |
| Preprocessing.DeveloperRow | preprocessing.py:115-126 | on one row the developer is replaced by the dummies of the pooled vocabulary, true at the row's label; no other dummy is added |
| Preprocessing.DeveloperStep | preprocessing.py:115-126 | on every row the developer is replaced by the dummies of the pooled vocabulary, true at the row's label |
| Preprocessing.RatingRow | preprocessing.py:132-134 | on one row the rating is replaced by the dummies of the filled vocabulary, true at the row's filled rating; no other dummy is added |
| Preprocessing.RatingStep | preprocessing.py:132-134 | on every row the rating is replaced by the dummies of the filled vocabulary, true at the row's filled rating |
| Preprocessing.EncodeRow | preprocessing.py:126-134 | replacing the developer and then the rating encodes a row: every new column is a dummy of one of the two vocabularies, and the rating encoder keeps the developer dummies |
| Preprocessing.EncodedTable | preprocessing.py:115-134 | the two encoders in sequence encode every row over the two vocabularies, and the output carries both sets of dummies |
| Preprocessing.KeyOrigin | preprocessing.py:47-134 | each column of an output row is an input column that is not dropped, a written column, or the dummy of a vocabulary value |
| Preprocessing.EncodeCategories | preprocessing.py:115-134 | every row after line 134 is the encoded form of the row before line 115: its only new columns are the dummies of the pooled developer labels and the filled ratings, which match those labels |
| Preprocessing.ChainGone | preprocessing.py:47-134 | after the three sections, the name, developer, rating and the four score sources are gone, and every column is an input column, a written column or a vocabulary dummy |
| Preprocessing.ChainYear | preprocessing.py:54-134 | the year flag and a present year survive the later sections |
| Preprocessing.ChainCritic | preprocessing.py:77-134 | the critic flag and feature, the quotient by the critic divisor, record the input row and survive the encoders |
| Preprocessing.ChainUser | preprocessing.py:92-134 | the user flag and feature, 0 or the cleaned quotient by the user divisor, record the input row and survive the encoders |
| Preprocessing.ChainPass | preprocessing.py:47-134 | a column no section touches passes through unchanged, unless a dummy takes its label |
| Preprocessing.ChainKept | preprocessing.py:69-134 | the genre and the publisher pass through unchanged |
| Preprocessing.ChainImputed | preprocessing.py:54-134 | the imputed year survives the score and encoding sections |
| Preprocessing.ChainRow | preprocessing.py:47-134 | the three sections compose, row by row, into the cleaned-row contract for the same divisors and vocabularies |
| Preprocessing.CleanedRows | preprocessing.py:47-134 | every output row is the cleaned form of its kept input row, with its year imputed from the whole input |
| Preprocessing.Preprocess | preprocessing.py:47-134 | the output never has more rows than the input; row `j` is the cleaned form of the `j`-th input row with a genre and a publisher: year imputed from the whole input, critic and user features as quotients by the maxima over the kept rows (or 0 when flagged or guarded), only vocabulary dummies added; its `Dev` and `Rating` dummies match the filled, pooled labels of the kept rows |

## Left out

- Reading the CSV file (line 40) is left out: the model starts from the frame it yields.
- The missing-value reports and the shape report (lines 41–42 and 136–140) only print, and are left out.
- The plotting imports (lines 3–4) are never used.
- `COLLAPSE_MAP` (lines 6–36) is left out: its only use, line 118, is commented out.
- Floating point is modelled with exact `real`s and NaN as `Missing`. Rounding is not modelled, including in the mean of two middle values of a median.
- ScoreCombiner.Quotient: a zero divisor gives NaN. With non-negative counts this is exact, because a zero max means every present count is 0 and the division is 0/0. The ±inf that a negative count over a zero max would give is not modelled.
- How `pd.to_numeric` parses a string is a parameter `parse` of the user stage. Its parsing rules are not part of this model.
- `get_dummies` column order is not modelled: a row is a map, so columns have no order.
- The dummy dtype is modelled as booleans.
- A dummy column's label is a value of its own, so it never collides with an input column of the same header text. pandas would produce two columns with one name.
- Input columns the script does not name are modelled as `Extra` labels.
- The script's `KeyError` on a missing column is not modelled. Every operation requires the columns it indexes.
- The year and critic columns are required to be float columns. The developer and rating columns are required to hold text or NaN. Other dtypes in those columns are not modelled.

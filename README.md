# Landslide hazard map: inventory split, ROC sweep, AUC and byte scaling

`exportLandslideHazardMap` (landslide_hazard.js) builds a landslide hazard
map with Google Earth Engine. It splits a landslide inventory and a
non-landslide inventory into training and testing points, and trains a
random forest on the training points. It classifies every pixel into a
probability of landslide, and exports that probability as a byte image in
whole percent. On the held-out testing points it evaluates the classifier
in three steps:

- it sweeps 1000 evenly spaced cutoffs from 0 to 1 into a ROC table;
- it integrates the table into an AUC with the trapezoid rule;
- it reports the cutoff whose ROC point is closest to perfect
  classification.

This project models that evaluation arithmetic, and proves what it
guarantees:

- **`Partition`** (partition.dfy) models the split of each inventory by a
  per-point random tag against 0.7, and the merge of the two training parts.
  The split is a partition of the inventory: every point lands in exactly
  one part, and nothing is lost or duplicated.
- **`Roc`** (roc.dfy) models the labelling and merging of the held-out
  scores, the strict counts behind TPR and TNR, the evenly spaced cutoffs
  of `ee.List.sequence`, one ROC row per cutoff, and the best cutoff.
  - TPR and TNR lie in [0, 1].
  - A rate is 1 or 0 exactly when every score lies on one side of the
    cutoff.
  - Along the sweep, TPR never rises and FPR never rises.
  - Ties at a cutoff count as false positives.
  - The chosen row is closest to perfect classification.
- **`Auc`** (auc.dfy) models the trapezoid sum over consecutive rows in
  sweep order, followed by one absolute value.
  - On a ROC curve the result equals the sum of the unsigned trapezoids,
    and lies in [0, 1].
  - Reading the rows backwards, which is one ascending-FPR order, gives the
    same AUC. Re-sorting by FPR when rates tie can change it.
- **`Export`** (export.dfy) models the byte hazard value of one pixel,
  `probability × 100` truncated by `toByte`. It is at most 100, it is 100
  exactly for probability 1, and it is monotone.
- **`Evaluation`** (evaluation.dfy) models the pipeline end to end.
  `Evaluate` states everything the analysis reports in two predicates:
  `IsEvaluationOf` for the rows, AUC and best cutoff, and `Distances` for
  each row's squared distance. It also works through these cases:
  - a perfect classifier has AUC 1 with three or more cutoffs, but AUC 1/2
    with only two;
  - a four-cutoff table computed row by row.

All numbers are exact reals. Point scores are given values: they stand in
for `reduceRegions` with a max reducer over the classified image. Random
tags are given values: they stand in for `randomColumn`.

## Model

| member | source | states |
|---|---|---|
| Partition.Training | landslide_hazard.js:34 | the training part holds exactly the pool's points whose tag is below the split, and is no longer than the pool |
| Partition.Testing | landslide_hazard.js:35 | the testing part holds exactly the pool's points whose tag is at least the split, and is no longer than the pool |
| Partition.SplitIsPartition | landslide_hazard.js:32-40 | training and testing together are the pool as a multiset, their sizes add up to the pool's, and no point is in both |
| Partition.TrainingCollection | landslide_hazard.js:43 | the merged training collection holds exactly the landslides tagged below `split` and the non-landslides tagged below `nsplit` |
| Partition.TrainingCollectionAccountsForAll | landslide_hazard.js:32-43 | the merged training collection is the multiset sum of the two training parts, and its size is their sizes' sum |
| Roc.Label | landslide_hazard.js:116-124 | tagging held-out scores with `is_target` keeps one point per score |
| Roc.Combine | landslide_hazard.js:126 | the merged collection has one point per held-out event and non-event |
| Roc.ScoresOf | landslide_hazard.js:136 | filtering on `is_target` keeps exactly the scores of points with that flag |
| Roc.ScoresOfAppend | landslide_hazard.js:126 | filtering a merge is merging the filtered parts |
| Roc.ScoresOfLabel | landslide_hazard.js:116-124 | filtering labelled scores by their own flag gives back the scores, and by the other flag gives nothing |
| Roc.CombineSeparatesClasses | landslide_hazard.js:126-141 | filtering the merged collection on `is_target` 1 or 0 recovers the event scores or the non-event scores exactly |
| Roc.CountAbove | landslide_hazard.js:138 | the `greater_than` count never exceeds the pool size |
| Roc.CountAboveExtremes | landslide_hazard.js:138 | the `greater_than` count is the whole pool exactly when every score is above the cutoff, and zero exactly when none is |
| Roc.CountBelow | landslide_hazard.js:143 | the `less_than` count never exceeds the pool size |
| Roc.CountBelowExtremes | landslide_hazard.js:143 | the `less_than` count is the whole pool exactly when every score is below the cutoff, and zero exactly when none is |
| Roc.CountsPartition | landslide_hazard.js:138-143 | below, at and above the cutoff account for every score once |
| Roc.CountAboveAntitone | landslide_hazard.js:138 | raising the cutoff never increases the `greater_than` count |
| Roc.CountBelowMonotone | landslide_hazard.js:143 | raising the cutoff never decreases the `less_than` count |
| Roc.RatioBounds | landslide_hazard.js:138-144 | a count divided by its pool size lies in [0, 1], and is 1 or 0 exactly for the full or empty count |
| Roc.RatioOrder | landslide_hazard.js:138-144 | dividing by the same pool size keeps the order of counts |
| Roc.Tpr | landslide_hazard.js:136-139 | TPR lies in [0, 1]; it is 1 exactly when every event scores above the cutoff, and 0 exactly when none does |
| Roc.Tnr | landslide_hazard.js:141-144 | TNR lies in [0, 1]; it is 1 exactly when every non-event scores below the cutoff, and 0 exactly when none does |
| Roc.SquareOfFraction | landslide_hazard.js:151 | the square of a rate lies in [0, 1] and is positive for a positive rate |
| Roc.Square | landslide_hazard.js:151 | `.pow(2)`, the square of a real; its properties are carried by Roc.SquareOfFraction, Roc.UnitSquare and Roc.SquareMonotone |
| Roc.UnitSquare | landslide_hazard.js:151 | `(x - 1)^2` of a rate lies in [0, 1] and is 0 exactly for the rate 1 |
| Roc.Row | landslide_hazard.js:146-152 | the row holds the cutoff, the TPR and TNR measured at it, FPR = 1 - TNR, and the squared distance from (FPR, TPR) to (0, 1); it is zero exactly at TPR 1, FPR 0 |
| Roc.TiesCountAsFalsePositives | landslide_hazard.js:138-150 | FPR is the share of non-events scoring at or above the cutoff, while TPR counts only events strictly above it |
| Roc.ComplementRatio | landslide_hazard.js:150 | `(TNR - 1) × -1` is the share of the complementary count |
| Roc.CutoffSpacing | landslide_hazard.js:128-135 | the first cutoff is `ROC_min`, the last is `ROC_max`, and consecutive cutoffs are `(max - min)/(steps - 1)` apart |
| Roc.CutoffOrder | landslide_hazard.js:128-135 | cutoffs never decrease along the sequence, and strictly increase when min < max |
| Roc.CutoffAt | landslide_hazard.js:135 | entry k of `ee.List.sequence(min, max, null, steps)`, `min + k × (max - min)/(steps - 1)`; its properties are carried by Roc.CutoffSpacing and Roc.CutoffOrder |
| Roc.Cutoffs | landslide_hazard.js:128-135 | `steps` cutoffs from min to max, evenly spaced, rising, and within [min, max] |
| Roc.Sweep | landslide_hazard.js:134-154 | one row per cutoff, each row measured at its own evenly spaced cutoff, with cutoffs rising from min to max |
| Roc.SweepIsMonotone | landslide_hazard.js:134-154 | along the sweep TPR never rises, TNR never falls and FPR never rises, so the table is a ROC curve |
| Roc.ClosestIndex | landslide_hazard.js:175 | the chosen row's distance is no larger than any other row's |
| Roc.BestCutoff | landslide_hazard.js:175 | the reported cutoff is that of a row whose distance is minimal in the table |
| Roc.SquareMonotone | landslide_hazard.js:151 | squaring non-negative reals keeps their order, strictly |
| Roc.SqrtPreservesOrder | landslide_hazard.js:151-175 | ordering rows by distance or by squared distance is the same order, so the best row is the same |
| Auc.Term | landslide_hazard.js:159-161 | the signed trapezoid `(FPR[k] - FPR[k-1]) × (TPR[k] + TPR[k-1]) × 0.5` of two consecutive rows; bounded by Auc.TermBounds |
| Auc.TrapezoidSum | landslide_hazard.js:161 | `reduce('sum', [0])` over the trapezoids of consecutive rows in sweep order; related to the unsigned area by Auc.SignedSumIsArea, and to the reversed rows by Auc.ReverseNegatesSum |
| Auc.Abs | landslide_hazard.js:161 | `.abs()`: the result is non-negative and is the argument or its negation |
| Auc.AreaUnderCurve | landslide_hazard.js:156-161 | the AUC the source reports, the absolute value of the summed trapezoids: never negative; Auc.AucInUnitInterval proves it is the unsigned area in [0, 1] on a ROC curve |
| Auc.TermBounds | landslide_hazard.js:159-161 | between two ROC rows the signed trapezoid is non-positive, and its area is at most the drop in FPR |
| Auc.SignedSumIsArea | landslide_hazard.js:156-161 | along a ROC curve the summed trapezoids are non-positive, their negation is the sum of unsigned areas, and that is at most the total drop in FPR |
| Auc.AucInUnitInterval | landslide_hazard.js:156-161 | the AUC of a ROC curve in sweep order equals the unsigned trapezoid area and lies in [0, 1] |
| Auc.ReverseAt | landslide_hazard.js:157-158 | the k-th row read backwards is the (n-1-k)-th row |
| Auc.TrapezoidSumSnoc | landslide_hazard.js:159-161 | appending a row adds exactly its trapezoid with the previous last row |
| Auc.ReverseNegatesSum | landslide_hazard.js:156-161 | reversing the row order negates the summed trapezoids and leaves the AUC unchanged |
| Auc.ReverseAscends | landslide_hazard.js:157 | the reversed sweep is in ascending FPR order |
| Auc.ResortingByFprCanChangeArea | landslide_hazard.js:157-161 | a four-row sweep with tied FPR has AUC 0.34 in sweep order and reversed, but 0.46 in an ascending-FPR order that keeps tied rows in sweep order |
| Export.ToByte | landslide_hazard.js:87 | `toByte` of an in-range value drops the fraction: the byte is the floor |
| Export.HazardByte | landslide_hazard.js:85-87 | the hazard byte is the floor of the probability in percent, at most 100, and 100 exactly for probability 1 |
| Export.HazardByteMonotone | landslide_hazard.js:85-87 | a higher probability never gets a lower byte |
| Evaluation.HeldOutScores | landslide_hazard.js:116-124 | one score per testing point, and a value is among the scores exactly when it is the score of some pool point tagged at or above the split |
| Evaluation.ScoresOfHeldOut | landslide_hazard.js:35-40 | scores taken one per testing point are exactly the scores of the pool's points tagged at or above the split |
| Evaluation.SweepAucInUnitInterval | landslide_hazard.js:134-161 | the AUC of a sweep over min <= max lies in [0, 1] |
| Evaluation.Evaluate | landslide_hazard.js:116-175 | the rows are measured on the held-out pools at rising, evenly spaced cutoffs, and are consistent; each row's `dist2` is FPR² + (TPR - 1)²; the AUC is their trapezoid area in [0, 1]; the best cutoff is that of a row with least `dist2`, within [min, max] |
| Evaluation.SweepHasDistances | landslide_hazard.js:146-151 | every row of a sweep carries FPR² + (TPR - 1)², the square of the source's `dist` |
| Evaluation.AssessHazard | landslide_hazard.js:128-175 | with split 0.7 and 1000 cutoffs on [0, 1], the result is the evaluation of the scores of the testing points of both inventories: 1000 rows from cutoff 0 to cutoff 1, measured on those scores, with squared distances, AUC and best cutoff in [0, 1] |
| Evaluation.FlatCurveHasNoArea | landslide_hazard.js:159-161 | rows with equal FPR enclose no area |
| Evaluation.RateExtremes | landslide_hazard.js:138-144 | a pool wholly on one side of the cutoff has rate 1 or 0 |
| Evaluation.PerfectRow | landslide_hazard.js:138-150 | for a perfect classifier, any cutoff strictly inside (0, 1) gives TPR 1 and FPR 0 |
| Evaluation.PerfectCorners | landslide_hazard.js:138-150 | for a perfect classifier, cutoff 0 gives TPR 1, FPR 1 and cutoff 1 gives TPR 0, FPR 0 |
| Evaluation.PerfectClassifierRows | landslide_hazard.js:134-154 | a perfect classifier's table runs from corner (1, 1) through perfect points to corner (0, 0) |
| Evaluation.ClosestIsPerfect | landslide_hazard.js:151-175 | when some row is perfect, the closest row is perfect too |
| Evaluation.PerfectCurveArea | landslide_hazard.js:156-161 | a curve dropping from (1, 1) to (0, 1) and staying at FPR 0 has AUC 1 |
| Evaluation.PerfectRowsBestCutoff | landslide_hazard.js:175 | in a perfect classifier's table the best cutoff is an inner one, strictly inside (0, 1) |
| Evaluation.PerfectClassifier | landslide_hazard.js:116-175 | a perfect classifier swept over [0, 1] with three or more cutoffs has AUC 1 and a best cutoff strictly inside (0, 1) |
| Evaluation.DiagonalArea | landslide_hazard.js:156-161 | the single trapezoid from (1, 1) to (0, 0) has area 1/2 |
| Evaluation.TwoCutoffsHalveThePerfectArea | landslide_hazard.js:128-161 | with only the cutoffs 0 and 1 a perfect classifier has AUC 1/2 |
| Evaluation.ConstantPoolRates | landslide_hazard.js:138-144 | a pool whose scores all equal v has rate 1 or 0, according to which side of the cutoff v lies on |
| Evaluation.FourCutoffRows | landslide_hazard.js:128-154 | four cutoffs over events at 0.9 and non-events at 0.1 are 0, 1/3, 2/3, 1, with TPR 1, 1, 1, 0 and TNR 0, 1, 1, 1 |
| Evaluation.FourRowCurve | landslide_hazard.js:156-175 | that table has AUC 1, and only its two inner rows are closest to perfect |
| Evaluation.FourCutoffExample | landslide_hazard.js:116-175 | the four-cutoff evaluation has those rates, AUC 1, and best cutoff 1/3 or 2/3 |

The worked cases are stated for any evaluation `e` with
`IsEvaluationOf(e, …)`, and `Evaluate` ensures that predicate. They
therefore hold for the value `Evaluate` returns.

## Left out

- Loading the Earth Engine datasets (lines 14-20) and building the factor stack (lines 47-77) are image operations outside the arithmetic modelled here.
- `randomColumn` (lines 32 and 37) is a random number generator. Each point's tag is an input instead.
- Training the random forest and classifying with it (lines 80-83) are left out. The probability of a pixel and the score of a held-out point are given values.
- `reduceRegions` with a max reducer (lines 116 and 121) samples the image. A held-out point's score is a given function of the point.
- The visualisation parameters, the charts, `print` and `Map.addLayer` (lines 22-28, 96-112 and 163-172) are display only.
- `classifier.explain()` and the Drive exports (lines 89-94 and 180-211) are I/O.
- Earth Engine computes in floating point. The model uses exact reals, so rounding in the ratios, the cutoffs and the AUC is not modelled.
- Roc.Row: keeps the squared distance instead of the source's `sqrt`; Roc.SqrtPreservesOrder shows this picks the same row.
- Roc.BestCutoff: `sort('dist').first()` breaks ties in an order the code does not fix. The model only claims that the reported row has minimal distance, not which of several tied rows is reported.
- Evaluation.Evaluate: requires both held-out pools to be non-empty. With an empty pool the source divides a count by zero, and Earth Engine's result for that is not modelled.
- Roc.Cutoffs: requires at least two cutoffs. `ee.List.sequence` with a count of 1 is not modelled; the source always asks for 1000.
- Export.ToByte: only values in [0, 256) are modelled. The saturation of `toByte` for other values is not needed, because probabilities lie in [0, 1].
- Pixels or points whose score is missing or masked are not modelled.
- That a classifier no better than chance has an AUC near 1/2 is a statistical claim about random scores, not a property of any one table, and is not modelled.
- The AUC is integrated in sweep order, which descends in FPR. The table is not re-sorted by FPR first. Auc.ReverseNegatesSum shows that reading the rows backwards, one ascending-FPR order, gives the same AUC. Auc.ResortingByFprCanChangeArea shows that another ascending-FPR order, with tied rows kept in sweep order, can give a different AUC.
- Evaluation.TwoCutoffsHalveThePerfectArea records that the AUC of a perfect classifier is 1 only with at least three cutoffs. With the source's 1000 cutoffs this always holds.

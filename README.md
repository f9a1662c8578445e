# Genomic surveillance dashboard: a verified model of its core

This project models, in Dafny, the logic behind an HIV drug-resistance
dashboard. Four parts are modelled:

- **Featurisation** (`SequenceTransformer`): an amino-acid sequence becomes
  a numeric vector by residue lookup. The vector is then resampled by linear
  interpolation (with extrapolation) to the reference length of the protein:
  99 for protease, 560 for reverse transcriptase.
- **Ensemble predictions** (`Ensembles`, `GsdashPredUtils`, `AppPredUtils`):
  - one prediction per member of a fitted ensemble;
  - their flattening into one record per drug and member;
  - box-plot percentiles of the predictions;
  - the two predictor-service helpers.
- **Table cleaning** (`Tables`, `CustomFuncs`): a pandas frame of sequence
  positions and drug resistance values is cleaned in these steps:
  - the columns are split and upper-cased;
  - ambiguous cells become NaN;
  - dashes are filled in from the consensus sequence, partly in the caller's
    own frame;
  - 'X' and '.' become NaN;
  - rows with missing values are dropped;
  - residues are replaced by numbers.
- **Error bars** (`BokehUtils`): per-point error bars are built for Bokeh's
  `multi_line`, optionally sorted by the x labels with Python's own ordering
  of tuples.

How the model maps onto the code:

- Numbers are reals, so interpolation and percentiles are exact.
- Failures are the exceptions the Python code raises: a failed `assert`, an
  unbound local, a missing key or column, or numpy/scipy rejecting an
  argument. They are carried in a `Result`.
- Loops that fill arrays, append to lists or overwrite frame columns are
  methods with loops. Each is proved against a function that specifies it.
- A frame whose columns are overwritten is an object of class
  `Tables.Frame`.
- File input (CSV, FASTA, pickled models) becomes parameters:
  - the table read from disk;
  - the consensus sequences;
  - a drug-to-model lookup function.
- The residue tables are a parameter. Their averaging invariant (B is the
  mean of D and N, Z of E and Q) is a predicate that the lemmas assume.

- Python 3 semantics are assumed throughout. `(100 - percentile) / 2` in
  `intervals` is true division, so the default 95 gives 2.5, not 2. A
  `str` has `__iter__`, so a string of errors in `yerrorbars`
  reaches the shape checks with no shape bound.

Two behaviours of the code that a reader might not expect:

- The code defines no error types. It fails through asserts, unbound names
  and lookups, and the model carries exactly those failures.
- `predict_withrange` appends after its loop, not inside it, so it returns
  one record, for the last drug.

Where the code and its own comments differ, the model follows the code:

- The comment at gsdash/bokehutils.py:55 says asymmetric errors come in the
  shape 2xN. The shape check at lines 44-47 demands N rows of one or two
  values, and lines 57-58 read `errors[i, 0]` and `errors[i, 1]`, so the code
  takes Nx2. The model takes Nx2.
- The `to_numeric_rep` docstring (notebooks/sequence_transformer.py:24)
  lists 'pKa'. The assertion accepts only 'mw' and 'pka', but only 'mw' and
  'pKa' pick a table. So 'pKa' fails the assertion, 'pka' leaves the table
  unbound, and only 'mw' works.

## Model

| member | source | states |
|---|---|---|
| SequenceTransformer.ReplaceResidue | notebooks/sequence_transformer.py:36-38 | A character with a table entry becomes its number. Any other character stays a one-character string, as pandas `replace` leaves values it has no key for. |
| SequenceTransformer.Replaced | notebooks/sequence_transformer.py:36-38 | One cell per character of the sequence. A character with a table entry becomes its number, and any other stays as it was. |
| SequenceTransformer.ToNumericRep | notebooks/sequence_transformer.py:26-40 | Any 'X' in the sequence gives an assertion failure. So does a rep other than 'mw' or 'pka'. 'pka' gives a NameError, so Ok holds exactly for 'mw' with no 'X'. The output has the sequence's length. Position i is the table value of character i, and a character missing from the table passes through unchanged. |
| SequenceTransformer.AmbiguityCodeIsMean | tests/test_aa_data.py:9-12 | With tables where B and Z are averages, a B encodes as the mean of the encodings with D and with N at that place, and a Z as the mean of those with E and with Q. |
| SequenceTransformer.SegmentStart | notebooks/sequence_transformer.py:57 | The segment chosen for t contains t inside the knots: lo < t <= lo+1. Right of the last knot, the last segment is used (extrapolation). |
| SequenceTransformer.Interpolate | notebooks/sequence_transformer.py:57 | Between the first and the last knot the interpolant never overshoots: its value lies between the two data points around t. |
| SequenceTransformer.InterpolateAtKnot | notebooks/sequence_transformer.py:57 | The interpolant passes through every data point. |
| SequenceTransformer.SamplePoint | notebooks/sequence_transformer.py:59 | The linspace points lie in [0, R]: the first is 0 and the last is R itself. |
| SequenceTransformer.StandardizeSequence | notebooks/sequence_transformer.py:53-60 | An unknown protein gives an assertion failure, and fewer than two points a ValueError. Otherwise the result is Resample of the data to the protein's reference length R, which is at least 2. |
| SequenceTransformer.ReferenceLengths | notebooks/sequence_transformer.py:12-14 | The `reflengths` table (`RefLengths`): protease vectors standardize to 99 values and rt vectors to 560, and any other protein fails the assertion. |
| SequenceTransformer.Resample | notebooks/sequence_transformer.py:57-59 | Resampling to R points gives R samples. Sample 0 is the first data point, and sample k is the interpolant at the k-th linspace point k*R/(R-1). |
| SequenceTransformer.StandardizedShapesAgree | notebooks/test_sequence_transformer.py:24-25 | Inputs of different lengths standardize to equal shapes. |
| SequenceTransformer.ConstantStaysConstant | notebooks/sequence_transformer.py:57-59 | Resampling a constant vector of any length to any reference length gives that constant at every sample. |
| SequenceTransformer.InterpolateAffine | notebooks/sequence_transformer.py:57 | The interpolant of a + b*i equals a + b*t everywhere, extrapolation included. |
| SequenceTransformer.AffineIsReproduced | notebooks/sequence_transformer.py:57-59 | Resampling a + b*i to any reference length gives exactly a + b*t_k at every sample point t_k. |
| SequenceTransformer.LastSampleExtrapolates | notebooks/sequence_transformer.py:57-59 | For a reference length R beyond the data, the last sample sits at R itself and its value is extended along the last segment. |
| Ensembles.MemberPredictions | gsdash/predutils.py:14-16 | One prediction per ensemble member, and position i holds member i's prediction on the datum. |
| Ensembles.PredRange | gsdash/predutils.py:10-17 | The filled array is exactly the members' predictions: one value per member, slot i holding member i's prediction. app/predutils.py:4-11 is the same function. |
| GsdashPredUtils.Insert | gsdash/predutils.py:29-30 | Inserting into sorted data keeps it sorted and adds exactly one element. This is the sort numpy applies before taking percentiles. |
| GsdashPredUtils.SortedCopy | gsdash/predutils.py:29-30 | The sorted copy is sorted and a permutation of the data. |
| GsdashPredUtils.VirtualIndex | gsdash/predutils.py:29-30 | The virtual index of a percentile in [0, 100] lies within 0..n-1. |
| GsdashPredUtils.VirtualIndexMonotone | gsdash/predutils.py:29-30 | A higher level never gives a lower virtual index. |
| GsdashPredUtils.LerpWithin | gsdash/predutils.py:29-30 | Interpolating a fraction in [0, 1] of the way between two ordered values stays between them. |
| GsdashPredUtils.LerpMonotone | gsdash/predutils.py:29-30 | Going a larger fraction of the way between two ordered values never gives less. |
| GsdashPredUtils.Percentile | gsdash/predutils.py:29-30 | The 'linear' percentile of sorted data lies between the data's minimum and maximum. |
| GsdashPredUtils.PercentileBetweenNeighbours | gsdash/predutils.py:29-30 | A percentile lies between the two sorted values around its virtual index. |
| GsdashPredUtils.PercentileMonotone | gsdash/predutils.py:29-30 | A higher percentile level never gives a smaller value. |
| GsdashPredUtils.PercentileExtremes | gsdash/predutils.py:29-30 | The 0th percentile is the minimum and the 100th the maximum. |
| GsdashPredUtils.IntervalLevels | gsdash/predutils.py:25-30 | The levels are 0, low, 50, upp, 100 with low = (100-p)/2 and low + upp = 100. For p in [0, 100], 0 <= low <= 50 <= upp <= 100. |
| GsdashPredUtils.LevelsValid | gsdash/predutils.py:25-30 | All five levels lie in [0, 100] exactly when the percentile lies in [-100, 100], and for a percentile in [0, 100] they ascend. |
| GsdashPredUtils.Intervals | gsdash/predutils.py:19-30 | Ok exactly when -100 <= p <= 100 and there is data. Otherwise numpy's ValueError, or an IndexError for empty data. The result has five values: the first is the minimum of the data, the last the maximum, and the values are nondecreasing for p in [0, 100]. |
| GsdashPredUtils.IntervalsSummarise | gsdash/predutils.py:29-30 | Percentiles at levels 0 and 100 of the sorted data are the data's minimum and maximum, and ordered levels give ordered values. |
| GsdashPredUtils.Predictions | gsdash/predutils.py:32-53 | The nested loops build exactly the flattened record list of the zipped (drug, model) pairs. |
| GsdashPredUtils.Flattened | gsdash/predutils.py:37-51 | Every record is tagged with one of the given drugs. FlattenedLength and FlattenedAt give the table's length and each of its records. |
| GsdashPredUtils.ZipTruncates | gsdash/predutils.py:37 | Flattening over zip uses only the first min(drugs, models) pairs. |
| GsdashPredUtils.FlattenedLength | gsdash/predutils.py:37-51 | The number of records is the total member count of the zipped models. |
| GsdashPredUtils.FlattenedAt | gsdash/predutils.py:40-51 | The record for drug j and member m sits after all records of earlier drugs. It carries drug j and member m's prediction: drug-major, member-minor order. |
| GsdashPredUtils.UniformMemberCount | gsdash/predutils.py:37-51 | With c members per model, there are min(drugs, models)*c records. |
| GsdashPredUtils.AggregateIgnored | gsdash/predutils.py:39-48 | Changing every model's aggregate prediction leaves the records unchanged: the value computed at line 39 is discarded. |
| AppPredUtils.PredictWithRange | app/predutils.py:32-42 | Empty drugs give a NameError. Otherwise the result is exactly one record, tagged with the last drug and holding that drug's member predictions. |
| AppPredUtils.PredictNoRange | app/predutils.py:44-57 | The drug list equals the input drugs, in order. Value i is the aggregate prediction of the model loaded for drug i. |
| Tables.IndexOf | notebooks/custom_funcs.py:49 | The position found holds the label, and no earlier position does. |
| Tables.ColumnAfterMap | notebooks/custom_funcs.py:83-86 | After mapping the listed columns, a listed column holds its mapped cells and any other column is unchanged. |
| Tables.ColumnAfterReplace | notebooks/custom_funcs.py:120 | Overwriting one column leaves every other column as it was. |
| Tables.MapColumnsStep | notebooks/custom_funcs.py:83-86 | One more loop round that maps a column from the original frame is one more column mapped. |
| Tables.MapColumnsStepInPlace | notebooks/custom_funcs.py:213-215 | With an idempotent cell map, rereading the column being written gives the same result, even for a column listed twice. |
| Tables.Frame.SetColumn | notebooks/custom_funcs.py:120 | Assigning a column writes into this frame: only that column changes, and the frame stays well formed. |
| Tables.Frame.Copy | notebooks/custom_funcs.py:82 | The copy is a new frame with the same contents. |
| Tables.Frame.Replace | notebooks/custom_funcs.py:122-123 | `replace` returns a new frame with every cell mapped, and leaves this one as it was. |
| CustomFuncs.ReadData | notebooks/custom_funcs.py:35-51 | An unknown drug class is an assertion failure. drug_cols are the first drug_col_vals[protein] labels (slice clamped) and feat_cols the rest. Each feature column is upper-cased in place, or fails with AttributeError when it holds no strings. |
| CustomFuncs.ReadDataSplit | notebooks/custom_funcs.py:46-49 | drug_cols followed by feat_cols are all the columns. After upper-casing, a feature cell is NaN or a string without lower-case letters. |
| CustomFuncs.UpperCell | notebooks/custom_funcs.py:49 | A string cell stays a string of the same length with no lower-case letter left. Any other cell becomes NaN. |
| CustomFuncs.UpperCellIdempotent | notebooks/custom_funcs.py:49 | Upper-casing twice equals upper-casing once. |
| CustomFuncs.ReplaceAmbiguousLettersWithNan | notebooks/custom_funcs.py:54-87 | A missing feature column gives a KeyError. Otherwise the result is a new frame in which every feature column has been cleaned from the original, which is untouched. |
| CustomFuncs.DropLong | notebooks/custom_funcs.py:84 | A cell is kept or becomes NaN, and no string of two or more characters is left. |
| CustomFuncs.DropMarks | notebooks/custom_funcs.py:76-86 | A cell is kept or becomes NaN, and no '#' or '~' is left. |
| CustomFuncs.CleanAmbiguous | notebooks/custom_funcs.py:84-86 | The two passes together turn exactly the ambiguous cells (longer than one character, '#' or '~') into NaN and keep every other cell. |
| CustomFuncs.AmbiguousCellRule | notebooks/custom_funcs.py:76-86 | A feature cell becomes NaN iff its string form is longer than one character or it is '#' or '~'. Other cells, and every non-feature column, are unchanged. |
| CustomFuncs.ReplaceAmbiguousIdempotent | notebooks/custom_funcs.py:83-86 | Cleaning a cleaned table changes nothing. |
| CustomFuncs.DashToRule | notebooks/custom_funcs.py:120 | `DashTo`, the cell map of `replace({'-': letter})`: a '-' cell becomes the letter and every other cell is kept. |
| CustomFuncs.ImputeRound | notebooks/custom_funcs.py:120 | One round keeps the labels and the height, and the frame stays well formed. |
| CustomFuncs.RoundColumn | notebooks/custom_funcs.py:120 | A round turns every '-' of its own column into the letter and leaves every other column as it was. |
| CustomFuncs.ImputeDashes | notebooks/custom_funcs.py:118-120 | The frame after k imputation rounds keeps its labels and height and stays well formed. |
| CustomFuncs.ImputeInPlace | notebooks/custom_funcs.py:118-120 | The loop succeeds exactly when every feature column and its position are present, and then leaves the caller's frame imputed by all rounds. Otherwise it stops at the first missing one, with the rounds before it done. |
| CustomFuncs.ImputeColumnInPlace | notebooks/custom_funcs.py:120 | One loop round overwrites the caller's frame with the imputed column. |
| CustomFuncs.ReplaceDashesWithCanonicalLetters | notebooks/custom_funcs.py:90-125 | The caller's frame is imputed in place, column by column. With all columns and positions present, the returned frame is a new one with 'X' and then '.' turned to NaN. Otherwise a KeyError, with the caller's frame imputed up to the failing column. |
| CustomFuncs.UntouchedColumn | notebooks/custom_funcs.py:118-120 | Imputation changes no column outside the feature columns processed so far. |
| CustomFuncs.ImputedColumn | notebooks/custom_funcs.py:118-120 | With distinct feature columns, column i has exactly its '-' cells replaced by consensus letter i. |
| CustomFuncs.CleanedCell | notebooks/custom_funcs.py:118-125 | Feature cells get dashes imputed before 'X' and '.' become NaN, so an imputed 'X' becomes NaN too. Cells of other columns only lose 'X' and '.'. |
| CustomFuncs.DropValueRule | notebooks/custom_funcs.py:122-123 | `DropValue(v)`, the cell map of `replace({v: nan})`, used with 'X' and with '.': a cell is kept or becomes NaN, only the cell `v` becomes NaN, and no `v` is left. |
| CustomFuncs.NoXOrDotRemains | notebooks/custom_funcs.py:122-123 | No cell of the returned frame is 'X' or '.'. |
| CustomFuncs.ConsensusMap | notebooks/custom_funcs.py:142 | The keys are exactly 0..len-1, and key i maps to the i-th letter. |
| CustomFuncs.ReadConsensus | notebooks/custom_funcs.py:134-144 | An unknown drug class is an assertion failure. Protease uses the protease consensus, and nnrt/nrt the RT consensus. |
| CustomFuncs.ConsensusImputes | notebooks/custom_funcs.py:118-120 | With a consensus at least as long as the distinct feature columns, imputation cannot fail. A dash in feature column i becomes the i-th consensus letter. |
| CustomFuncs.KeptRows | notebooks/custom_funcs.py:158 | The kept rows are exactly the NaN-free rows, strictly increasing (original order). |
| CustomFuncs.Select | notebooks/custom_funcs.py:155-158 | The selection has exactly the requested labels, in that order, and the table's height. |
| CustomFuncs.DropNaFromData | notebooks/custom_funcs.py:147-158 | A drug not allowed, or not a column, is an assertion failure, and a missing feature column a KeyError. The result has columns feat_cols + [drug]. Its rows are exactly the NaN-free rows of those columns, in order, with their original cells. |
| CustomFuncs.DropNaRows | notebooks/custom_funcs.py:158 | `dropna` keeps the labels, and its columns share one height. KeptRows and DropNaLeavesNoNaN state which rows remain. |
| CustomFuncs.DropNaLeavesNoNaN | notebooks/custom_funcs.py:158 | No NaN remains after dropna. |
| CustomFuncs.KeepsEveryNaNFreeRow | notebooks/custom_funcs.py:158 | In a table without NaN, every row is kept. |
| CustomFuncs.DropNaIdempotent | notebooks/custom_funcs.py:158 | dropna twice equals dropna once. |
| CustomFuncs.ResiduesIdempotent | notebooks/custom_funcs.py:214-215 | Replacing residues twice equals replacing them once. |
| CustomFuncs.ToNumericRep | notebooks/custom_funcs.py:204-217 | A rep other than 'mw' or 'pKa' is an assertion failure, and a missing feature column a KeyError. Otherwise the result is a new frame with the feature columns' residues replaced, and the input is untouched. |
| CustomFuncs.ResidueCell | notebooks/custom_funcs.py:214-215 | A one-character cell is replaced exactly as the sequence featuriser replaces that character. Any other cell is kept. |
| CustomFuncs.NumericCellRule | notebooks/custom_funcs.py:213-215 | A one-letter feature cell is replaced exactly as the sequence featuriser replaces that letter. Other cells and non-feature columns are unchanged. |
| BokehUtils.IterableShape | gsdash/bokehutils.py:3-12 | A 1-D list of N numbers becomes N x 1, and a 2-D list is unchanged. An empty list gives numpy's ValueError. |
| BokehUtils.UnsortedBars | gsdash/bokehutils.py:21-59 | xs[i] = [i+1, i+1]. A scalar e gives [y_i - e, y_i + e]. For a list or tuple of errors: a length other than the data's, or a width outside {1, 2}, is an assertion failure. Width 1 gives symmetric bars and width 2 gives [y_i - e[i][0], y_i + e[i][1]]. Any other error value gives a NameError. Accepted bars have as many ys as xs. |
| BokehUtils.YErrorBars | gsdash/bokehutils.py:15-65 | It fails exactly when the unsorted bars fail. With sort, xs and ys are the second components of sorted(zip(labels, ...)). |
| BokehUtils.StrTrichotomy | gsdash/bokehutils.py:62-63 | Python string order is total. |
| BokehUtils.StrTransitive | gsdash/bokehutils.py:62-63 | Python string order is transitive. |
| BokehUtils.PairLess | gsdash/bokehutils.py:62-63 | Python orders (label, list) tuples by label first: a smaller label makes the pair smaller, and a smaller pair never has a larger label. |
| BokehUtils.InsertPair | gsdash/bokehutils.py:62-63 | Insertion adds exactly the one pair. |
| BokehUtils.SortPairs | gsdash/bokehutils.py:62-63 | sorted returns a permutation of its input. |
| BokehUtils.InsertKeepsAscending | gsdash/bokehutils.py:62-63 | Inserting into a label-sorted list keeps it label-sorted. |
| BokehUtils.SortedAscending | gsdash/bokehutils.py:62-63 | sorted(zip(labels, ...)) is ordered by ascending label. |
| BokehUtils.SortFirstsAgree | gsdash/bokehutils.py:62-63 | With distinct labels, sorting two lists zipped with the same labels puts the labels in the same order. |
| BokehUtils.SortSharedPermutation | gsdash/bokehutils.py:61-63 | With distinct labels, the k-th sorted x and the k-th sorted y come from the same data point. |
| BokehUtils.SortedBarsArePermuted | gsdash/bokehutils.py:61-63 | With sort, xs and ys are permutations of the unsorted lists, ordered by ascending x label. |
| BokehUtils.SortKeepsSeconds | gsdash/bokehutils.py:62-63 | The values taken from the sorted pairs are a permutation of the values zipped in. |

## Left out

- File and model I/O is not modelled; its results are parameters. This covers:
  - `pd.read_csv`;
  - the FASTA read of the consensus;
  - `joblib.load` in both prediction modules (a drug-to-ensemble function instead);
  - `load_model`;
  - `sparse_to_dense_data` and `get_protein_drug_data`/`get_cleaned_data`, which only chain the modelled steps and files.
- Training and randomness are not modelled: `to_train_test_split`, `model_select.py` and the model-building scripts. Fitted ensembles are opaque member functions.
- The Flask handlers in `app/` and `setup.py` have no logic to model.
- `print` calls are side effects only.
- `np.log10` in `get_cleaned_data` is floating-point work and is not modelled.
- `test_data_integrity` tests column labels, not cells, so it is not modelled.
- `intervals` in `app/predutils.py` is not modelled: it passes its levels to `np.percentile` as separate arguments and always fails.
- Floating point is not modelled: reals replace IEEE doubles throughout, so rounding in interpolation and percentiles is not captured.
- The residue tables' actual values are not modelled; they are a parameter.
- The row index (sequence identifiers) of the frames is not modelled; row order stands in for it.
- CustomFuncs.UpperCell: only ASCII letters are upper-cased, unlike Python's Unicode-aware `str.upper`.
- CustomFuncs.ReadData: the input frame must have distinct column labels, as pandas gives after reading a CSV. A column without strings is assumed to have a non-string dtype (numbers or all NaN); pandas' dtype inference is not modelled further.
- CustomFuncs.ReplaceAmbiguousLettersWithNan: a number cell is taken to print with at least three characters, as every Python float does (e.g. "1.0", "nan"). An integer column, whose values print shorter, is not modelled.
- CustomFuncs.ImputedColumn: stated only for distinct feature columns. A column listed twice is imputed by its first position's letter. The method itself follows the loop for any list.
- CustomFuncs.DropNaFromData: selecting a column twice gives repeated columns, as pandas does. Their removal by label is not modelled.
- BokehUtils.IterableShape: ragged nested lists (which numpy turns into 1-D object arrays) and lists nested three deep are not modelled. A nested list must be rectangular.
- BokehUtils.UnsortedBars: width-1 errors give one-element numpy arrays as bar ends in Python. The model uses the numbers they hold. Under equal labels `sorted` compares two such arrays, and the truth value of a one-element comparison is that of the numbers, so the model's order is Python's.

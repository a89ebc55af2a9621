# Apoptosis pipeline: data marshalling

This project models the part of the apoptosis growth-curve pipeline that
turns the flat table of flask measurements into the sampler's input. It
covers three steps:

- `stan_factorize` codes a column of values as 1-based integers, in order
  of first appearance, with an optional value forced to code 1.
- `prepare_data` keeps one treatment's rows that have a positive day and a
  real design. It derives the replicate id, the three code columns, the
  constant baseline and the "Bak"/"Bax"/"Bok" indicator columns.
- `get_stan_input` builds the sampler's input dictionary. One version is in
  `fit_models.py`, with copies of the observations for a test likelihood.
  The other is in `run_model.py`, without them. The dictionary holds:
  - the counts;
  - the per-clone design codes and the per-replicate clone codes;
  - the per-clone indicator matrix `x_clone`;
  - the observation columns;
  - the priors.

The pandas operations the code relies on have exact definitions over
sequences in module `Pandas`:

- `unique` lists the distinct values in order of first appearance.
- `nunique` counts them.
- A dictionary zipped from a list of distinct keys finds a key at its one
  position. The list `stan_factorize` zips has no repetitions
  (`CodeBookFacts`), so the first position is the one.
- `groupby` sorts its keys, and `first` takes each group's first row.
- `str.contains` with a plain pattern is substring search.

Modules, one file each:

- `Wrappers` (wrappers.dfy): `Option` and `Result`.
- `Pandas` (pandas.dfy): the pandas semantics above.
- `Munging` (munging.dfy): `stan_factorize` and `prepare_data`.
- `StanData` (stan_data.dfy): the pieces both `get_stan_input` functions
  share, namely the input value type, `x_clone`, the group-first arrays and
  the value of each data key.
- `FitModels` (fit_models.dfy) and `RunModel` (run_model.dfy): the two
  `get_stan_input` functions and their constants.

All of the modelled code is pure: pandas method chains and one dictionary
expression, with no loops and no mutation. So the model is functions over
sequences and maps, plus lemmas. Every exception path is a `Result`:

- `stan_factorize` fails when `first` is missing.
- `prepare_data` fails when no kept row has design "Empty".
- `get_stan_input` fails when it is asked for a column that `astype(int)`
  cannot convert.

The lemmas assume only what a successful call needs, or what an earlier
step guarantees:

- some kept row has design "Empty" (`HasReference`);
- the requested columns convert (`Convertible`);
- for the group arrays, the codes are contiguous (`WellCoded`).
  `PreparedCodes` proves this of every prepared table.

Two details of the code:

- `LIKELIHOOD` is bound twice in `fit_models.py` (to 1, then to `True`).
  The model uses the second binding, so `likelihood` is 1 either way.
- `stan_factorize`'s error message names an undefined variable. The model
  keeps both versions (see Findings). `prepare_data` is built on the
  corrected one, and `PrepareDataError` relates its error to the name error
  the code as written raises.

## Model

| member | source | states |
|---|---|---|
| Pandas.FirstIndex | munging.py:11 | the position a value is found at in a list holds the value, with no earlier occurrence; for the distinct `values` list (`Munging.CodeBookFacts`) this is what the zipped dictionary looks up |
| Pandas.Unique | munging.py:5 | `unique()` has no repetitions and holds exactly the values of the column |
| Pandas.UniqueOrder | munging.py:5 | `unique()` lists values in strictly increasing order of their first appearance in the column |
| Pandas.NUniqueCard | fit_models.py:63-65 | `nunique()` is the cardinality of the set of values |
| Pandas.ContainsOccurs | munging.py:38-40 | the substring test holds exactly when some window of the design name equals the pattern |
| Pandas.SortedDistinct | fit_models.py:67-68 | `groupby` keys are strictly ascending and are exactly the distinct key values |
| Pandas.GroupFirst | fit_models.py:67-68 | `groupby(..).first()` has one entry per distinct key |
| Pandas.GroupFirstContiguous | fit_models.py:67-68 | with codes exactly `1..n`, `groupby(..).first()` has `n` entries, and entry `k - 1` is the value of the first row with code `k` |
| Munging.Without | munging.py:10 | the comprehension keeps exactly the values different from `first` |
| Munging.WithoutDistinct | munging.py:10 | removing `first` from a list without repetitions leaves one without repetitions, one shorter exactly when `first` was present |
| Munging.WithoutKeepsOrder | munging.py:10 | removing `first` keeps the other values in first-appearance order |
| Munging.StanFactorize | munging.py:4-11 | corrected `stan_factorize`: it fails exactly when `first` is given and absent, raising a value error that names `first`; otherwise it returns one code per input element |
| Munging.StanFactorizeAsWritten | munging.py:8-9 | `stan_factorize` as written: it fails exactly when `first` is given and absent, with a name error for `fist` |
| Munging.FistTypo | munging.py:8-9 | on a missing `first`, the written code raises a name error where a value error is meant; on every other input the two versions agree |
| Munging.CodeBookFacts | munging.py:5-10 | the `values` list holds each distinct value once, has `nunique` entries and starts with `first` when given |
| Munging.FactorizeCodes | munging.py:5-11 | the codes are as many as the inputs, take exactly the values `1..n` for `n` distinct inputs, and two codes are equal exactly when their values are |
| Munging.FactorizeDecode | munging.py:10-11 | every code indexes `values`, and decoding the codes through `values` gives back the input column |
| Munging.DecodeEncode | munging.py:11 | looking each value up in a list that holds it, then reading the list at the codes, gives the values back |
| Munging.FactorizeFirst | munging.py:10 | with `first`, code 1 is given exactly to `first`, and every other value gets a code of at least 2 |
| Munging.FactorizeOrder | munging.py:5-6 | without `first`, one code is below another exactly when its value first appears earlier |
| Munging.FactorizeOrderAfterFirst | munging.py:10 | with `first`, the codes of the other values compare as their first appearances do |
| Munging.FactorizeFirstAppearance | munging.py:5-6 | without `first`, a value first seen at row `i` gets one more than the number of distinct values before row `i` (so the first value gets 1, the next new one 2, and so on) |
| Munging.Select | munging.py:26-32 | the filter keeps exactly the rows with the given treatment, a positive day and a design other than "None" |
| Munging.SelectOne | munging.py:26-32 | a single row is kept once exactly when it passes the mask, and dropped otherwise; with `SelectAppend` this fixes the whole selection, each kept row as often as in the input |
| Munging.SelectAppend | munging.py:26-32 | the filter distributes over concatenation, so kept rows stay in their input order |
| Munging.SelectIdempotent | munging.py:26-32 | filtering the kept rows again changes nothing |
| Munging.PrepareDataError | munging.py:35 | without an "Empty" row, preparation fails with the intended value error for "Empty", where the written `stan_factorize` call on the design column fails with a name error |
| Munging.PrepareData | munging.py:14-46 | fails exactly when no kept row has design "Empty"; otherwise it returns one row per kept row, with design, clone and replicate taken from the kept rows, and the three code columns equal to `stan_factorize` of those columns, "Empty" first for design |
| Munging.Assemble | munging.py:33-45 | the prepared table has one row per kept row, and its value and code columns are the given ones |
| Munging.PreparedRows | munging.py:17-44 | when some kept row has design "Empty", preparation succeeds and prepared row `i` is kept row `i` passing the filter, with replicate id clone + "-" + run, baseline 1, `is_A`/`is_B`/`is_C` holding exactly when the design contains "Bak"/"Bax"/"Bok", and the other indicators their conjunctions |
| Munging.PreparedCodes | munging.py:35-37 | when some kept row has design "Empty", preparation succeeds; each code column is contiguous from 1 to the number of distinct values of its column, and two rows share a code exactly when they share the value |
| Munging.FactorizedColumns | munging.py:35-37 | code columns computed by `stan_factorize` from their value columns are contiguous from 1, and two rows share a code exactly when they share the value |
| Munging.PreparedReference | munging.py:35 | when preparation succeeds, design code 1 belongs to "Empty" and to nothing else |
| Munging.NumberedByAppearance | munging.py:36-37 | clone and replicate codes computed by `stan_factorize` give a newly seen value one more than the number of distinct values before it |
| Munging.PreparedFirstAppearance | munging.py:36-37 | when preparation succeeds, clones and replicates are numbered by first appearance among the kept rows |
| Munging.PrepareSelected | munging.py:26-37 | preparing the already-filtered rows gives the same result, so the codes depend only on the kept rows |
| StanData.Trunc | fit_models.py:59 | converting a float to an integer drops the fraction, rounding toward zero |
| StanData.XClone | fit_models.py:59 | fails exactly when a requested column cannot be converted to an integer; otherwise it has one row per distinct clone code, each with one entry per requested column |
| StanData.FlagRow | fit_models.py:59 | indicator columns convert, and a row of them holds only 0 and 1 |
| StanData.XCloneEntries | fit_models.py:59 | with indicator columns only, every entry of `x_clone` is 0 or 1 |
| StanData.CodedGroups | fit_models.py:67-68 | on well-coded rows, `design` has one entry per clone and `clone` one per replicate, in ascending code order, each taken from the first row with that code |
| StanData.CodedXClone | fit_models.py:59 | on well-coded rows, row `k - 1` of `x_clone` holds the requested columns of clone `k`'s first row, and there are as many rows as clones |
| FitModels.GetStanInput | fit_models.py:58-77 | fails exactly when a requested column is not convertible; otherwise the keys are the prior keys plus the sixteen data keys, priors not named like a data key are kept unchanged, and each data key holds its data value |
| FitModels.StanInputCounts | fit_models.py:61-76 | for convertible columns the input exists; `N` and `N_test` are the number of rows, `K` the number of requested columns, `likelihood` is 1, and `R`, `C` and `D` are the numbers of distinct replicates, clones and designs |
| FitModels.StanInputTestCopies | fit_models.py:70-75 | for convertible columns the input exists; `t_test`, `y_test` and `replicate_test` equal `t`, `y` and `replicate` |
| FitModels.StanInputObservations | fit_models.py:70-72 | for convertible columns the input exists; `t`, `y` and `replicate` have one entry per row, holding each row's `day`, `y` and `replicate_fct` in row order |
| FitModels.StanInputDesign | fit_models.py:67 | on well-coded rows and convertible columns, `design` has `C` entries, and entry `k - 1` is the design code of clone `k`'s first row |
| FitModels.StanInputClone | fit_models.py:68 | on well-coded rows and convertible columns, `clone` has `R` entries, and entry `k - 1` is the clone code of replicate `k`'s first row |
| FitModels.StanInputXClone | fit_models.py:59-69 | on well-coded rows and convertible columns, `x_clone` has `C` rows of `K` entries, row `k - 1` taken from clone `k`'s first row; with indicator columns every entry is 0 or 1 |
| FitModels.XColsPrefix | fit_models.py:38-41 | the "ab" columns are the first three of the seven "abc" columns, and all are indicator columns |
| RunModel.GetStanInput | run_model.py:44-60 | fails exactly when a requested column is not convertible; otherwise the keys are the prior keys plus the twelve data keys, priors not named like a data key are kept unchanged, and each data key holds its data value |
| RunModel.StanInputCounts | run_model.py:47-58 | for convertible columns the input exists; `N` is the number of rows, `K` the number of requested columns, `likelihood` is 1, and `R`, `C` and `D` are the numbers of distinct replicates, clones and designs |
| RunModel.StanInputObservations | run_model.py:54-57 | for convertible columns the input exists; `t`, `y` and `replicate` have `N` entries, holding each row's `day`, `y` and `replicate_fct` in row order |
| RunModel.StanInputDesign | run_model.py:52 | on well-coded rows and convertible columns, `design` has `C` entries, in ascending clone code order, entry `k - 1` being the design code of clone `k`'s first row |
| RunModel.StanInputClone | run_model.py:53 | on well-coded rows and convertible columns, `clone` has `R` entries, in ascending replicate code order, entry `k - 1` being the clone code of replicate `k`'s first row |
| RunModel.StanInputXClone | run_model.py:45-55 | on well-coded rows and convertible columns, `x_clone` has `C` rows of `K` entries, row `k - 1` taken from clone `k`'s first row |
| RunModel.StanInputIndicators | run_model.py:45-55 | with indicator columns only, the input exists and every entry of `x_clone` is 0 or 1 |
| RunModel.AgreesWithFitModels | run_model.py:46-58 | for convertible columns, when no prior is named like a test key, both inputs exist and this script's input is fit_models.py's input without the four test keys |
| RunModel.SharedKeys | run_model.py:46-58 | under the same conditions, the two inputs have the same keys once the test keys are removed |
| RunModel.SharedValues | run_model.py:46-58 | under the same conditions, every entry of this script's input has the same value in fit_models.py's input |
| RunModel.FlagColumnsUsable | run_model.py:45-51 | any list of indicator columns is accepted, and `K` is its length |
| RunModel.XCloneCols | run_model.py:33-34 | the ABC columns are the three AB columns followed by four more, all of them indicator columns, and they match fit_models.py's "ab" and "abc" lists |

## Left out

- util.py, plotting.py, draw_plots.py, analyse.py, run_reloo_analysis.py and validate_stan_functions.py are not part of this model. They are floating-point numerics, figures, posterior summaries and calls to the sampler.
- `get_infd_kwargs`, `load_infd` and the CmdStan and ArviZ calls are out of scope, because they are configuration for, or calls into, external libraries.
- The `main` functions are out of scope: CSV reading, netCDF/pickle/JSON writing and the loops over runs are I/O.
- The constants `PRIORS`, `SAMPLE_CONFIG`, `TREATMENTS`, `STAN_FILES`, `CSV_FILE` and the output paths are out of scope. The priors are an arbitrary map from names to values.
- The `astype(float)` and `astype("string")` casts of `prepare_data` are not modelled. Day and VCD are reals, the text columns are strings, and `y` is a real that is copied into the input and, when requested as an `x_clone` column, truncated like `day`.
- Missing values (NaN/NA) are not modelled. `read_csv` defaults, NaN rows dropped by `groupby`, and `first` skipping NaN do not arise in the model.
- StanData.XClone: the two exceptions of `msmts[cols].astype(int)` merge into one error. A missing column raises `KeyError` and a text column raises `ValueError`; both become `UnusableColumns`. The text columns are treated as unconvertible even when every entry happens to spell an integer.
- FitModels.StanInputXClone: entries are 0 or 1 only when all requested columns are indicator columns. `baseline`, the code columns and truncated `day`/`y` are usable too, and they hold other integers.
- RunModel.StanInputIndicators: entries are 0 or 1 only when all requested columns are indicator columns, as for fit_models.py.
- Munging.PrepareData: uses the corrected `stan_factorize`, so without an "Empty" row it fails with the intended value error; the code as written raises `NameError` there (Findings, `Munging.PrepareDataError`).
- RunModel.AgreesWithFitModels: the two inputs match only when no prior is named like a test key. Otherwise fit_models.py overwrites that prior and run_model.py keeps it.
- Integer widths are not modelled. NumPy's 64-bit counts and codes are unbounded integers here, since no table comes near the bound.

## Findings

| source | as written | input that shows it | evidently intended | confidence | as-written member | corrected member |
|---|---|---|---|---|---|---|
| munging.py:9 | the error message is an f-string naming `fist`, which is undefined, so building it raises `NameError` | `stan_factorize` with `first="Empty"` on a column with no "Empty" value | raise `ValueError` saying that `first` is not one of the values | not executed | Munging.StanFactorizeAsWritten (discrepancy in Munging.FistTypo) | Munging.StanFactorize |

/** fit_models.py: the sampler input built for each treatment, model and
    column set, with a copy of the observations for the test likelihood. */
module FitModels {
  import opened Wrappers
  import opened Pandas
  import opened Munging
  import opened StanData

  /** `LIKELIHOOD` is bound to 1 and later rebound to `True`; the later
      binding is the one `get_stan_input` reads. */
  const LIKELIHOOD: bool := true

  /** The indicator columns of the two model variants. */
  const X_COLS: map<string, seq<string>> := map[
    "ab" := ["is_A", "is_B", "is_AB"],
    "abc" := ["is_A", "is_B", "is_AB", "is_C", "is_AC", "is_BC", "is_ABC"]
  ]

  /** The keys `get_stan_input` writes over the priors. */
  const DATA_KEYS: set<string> := {
    "N", "N_test", "R", "C", "D", "K", "design", "clone", "x_clone",
    "replicate", "t", "y", "replicate_test", "t_test", "y_test", "likelihood"
  }

  /** `get_stan_input(msmts, priors, x_clone_cols)`: the priors merged with the
      data entries, a data entry winning over a prior of the same name. */
  function GetStanInput(ms: seq<Measurement>, priors: map<string, StanValue>, cols: seq<string>)
    : (r: Result<map<string, StanValue>, ColumnError>)
    ensures r.Err? <==> exists c :: c in cols && c !in INT_COLUMNS
    ensures r.Ok? ==> r.value.Keys == priors.Keys + DATA_KEYS
    ensures r.Ok? ==> forall k :: k in priors && k !in DATA_KEYS ==> r.value[k] == priors[k]
    ensures r.Ok? ==> (XClone(ms, cols).Ok? &&
      forall k :: k in DATA_KEYS ==> r.value[k] == Entry(ms, cols, XClone(ms, cols).value, LIKELIHOOD, k))
  {
    match XClone(ms, cols)
    case Err(e) => Err(e)
    case Ok(x) => Ok(priors + map k | k in DATA_KEYS :: Entry(ms, cols, x, LIKELIHOOD, k))
  }

  /** The counts: `N` and `N_test` are the number of measurements, `K` the
      number of requested columns, `likelihood` is 1, and `R`, `C`, `D` count
      the distinct replicates, clones and designs. */
  lemma StanInputCounts(ms: seq<Measurement>, priors: map<string, StanValue>, cols: seq<string>)
    requires Convertible(cols)
    ensures GetStanInput(ms, priors, cols).Ok?
    ensures var d := GetStanInput(ms, priors, cols).value;
      && d["N"] == d["N_test"] == Int(|ms|)
      && d["K"] == Int(|cols|)
      && d["likelihood"] == Int(1)
      && d["R"] == Int(|set x | x in Replicates(ms)|)
      && d["C"] == Int(|set x | x in Clones(ms)|)
      && d["D"] == Int(|set x | x in Designs(ms)|)
  {
    EntryCounts(ms, cols, XClone(ms, cols).value, LIKELIHOOD);
    NUniqueCard(Replicates(ms));
    NUniqueCard(Clones(ms));
    NUniqueCard(Designs(ms));
  }

  /** The test likelihood sees the same observations: `t_test`, `y_test` and
      `replicate_test` equal `t`, `y` and `replicate`. */
  lemma StanInputTestCopies(ms: seq<Measurement>, priors: map<string, StanValue>, cols: seq<string>)
    requires Convertible(cols)
    ensures GetStanInput(ms, priors, cols).Ok?
    ensures var d := GetStanInput(ms, priors, cols).value;
      d["t_test"] == d["t"] && d["y_test"] == d["y"] && d["replicate_test"] == d["replicate"]
  {
    EntryObservations(ms, cols, XClone(ms, cols).value, LIKELIHOOD);
  }

  /** The observation columns, in row order: `t`, `y` and `replicate` are the
      `day`, `y` and `replicate_fct` of each measurement. */
  lemma StanInputObservations(ms: seq<Measurement>, priors: map<string, StanValue>, cols: seq<string>)
    requires Convertible(cols)
    ensures GetStanInput(ms, priors, cols).Ok?
    ensures var d := GetStanInput(ms, priors, cols).value;
      && d["t"].Reals? && |d["t"].reals| == |ms| && (forall i :: 0 <= i < |ms| ==> d["t"].reals[i] == ms[i].day)
      && d["y"].Reals? && |d["y"].reals| == |ms| && (forall i :: 0 <= i < |ms| ==> d["y"].reals[i] == ms[i].y)
      && d["replicate"].Ints? && |d["replicate"].ints| == |ms|
      && (forall i :: 0 <= i < |ms| ==> d["replicate"].ints[i] == ms[i].replicateFct)
  {
    EntryObservations(ms, cols, XClone(ms, cols).value, LIKELIHOOD);
    ObservationColumns(ms);
  }

  /** On a well-coded table (every prepared table is one) `design` lists, for
      clone codes 1..C in turn, the design code of that clone's first row. */
  lemma StanInputDesign(ms: seq<Measurement>, priors: map<string, StanValue>, cols: seq<string>)
    requires WellCoded(ms)
    requires Convertible(cols)
    ensures GetStanInput(ms, priors, cols).Ok?
    ensures var d := GetStanInput(ms, priors, cols).value;
      && d["design"].Ints? && d["C"] == Int(|d["design"].ints|)
      && forall k :: 1 <= k <= |d["design"].ints| ==>
        d["design"].ints[k - 1] == ms[FirstIndex(CloneFcts(ms), k)].designFct
  {
    EntryCounts(ms, cols, XClone(ms, cols).value, LIKELIHOOD);
    EntryGroups(ms, cols, XClone(ms, cols).value, LIKELIHOOD);
    CodedGroups(ms);
  }

  /** On a well-coded table `clone` lists, for replicate codes 1..R in turn,
      the clone code of that replicate's first row. */
  lemma StanInputClone(ms: seq<Measurement>, priors: map<string, StanValue>, cols: seq<string>)
    requires WellCoded(ms)
    requires Convertible(cols)
    ensures GetStanInput(ms, priors, cols).Ok?
    ensures var d := GetStanInput(ms, priors, cols).value;
      && d["clone"].Ints? && d["R"] == Int(|d["clone"].ints|)
      && forall k :: 1 <= k <= |d["clone"].ints| ==>
        d["clone"].ints[k - 1] == ms[FirstIndex(ReplicateFcts(ms), k)].cloneFct
  {
    EntryCounts(ms, cols, XClone(ms, cols).value, LIKELIHOOD);
    EntryGroups(ms, cols, XClone(ms, cols).value, LIKELIHOOD);
    CodedGroups(ms);
  }

  /** On a well-coded table `x_clone` has C rows of K entries, row `k - 1`
      taken from clone `k`'s first row, and on indicator columns every entry
      is 0 or 1. */
  lemma StanInputXClone(ms: seq<Measurement>, priors: map<string, StanValue>, cols: seq<string>)
    requires WellCoded(ms)
    requires Convertible(cols)
    ensures GetStanInput(ms, priors, cols).Ok?
    ensures var d := GetStanInput(ms, priors, cols).value;
      && d["x_clone"].IntMatrix? && d["C"] == Int(|d["x_clone"].rows|)
      && (forall k :: 0 <= k < |d["x_clone"].rows| ==> |d["x_clone"].rows[k]| == |cols|)
      && (forall k :: 1 <= k <= |d["x_clone"].rows| ==>
        d["x_clone"].rows[k - 1] == IntRow(ms[FirstIndex(CloneFcts(ms), k)], cols))
      && ((forall c :: c in cols ==> c in FLAG_COLUMNS) ==>
        forall k, j :: 0 <= k < |d["x_clone"].rows| && 0 <= j < |d["x_clone"].rows[k]| ==>
          d["x_clone"].rows[k][j] == 0 || d["x_clone"].rows[k][j] == 1)
  {
    var x := XClone(ms, cols).value;
    EntryCounts(ms, cols, x, LIKELIHOOD);
    EntryGroups(ms, cols, x, LIKELIHOOD);
    CodedXClone(ms, cols, x);
    if forall c :: c in cols ==> c in FLAG_COLUMNS {
      XCloneEntries(ms, cols, x);
    }
  }

  /** The "ab" columns are the first three of the "abc" columns, which number seven. */
  lemma XColsPrefix()
    ensures X_COLS["ab"] == X_COLS["abc"][..3]
    ensures |X_COLS["abc"]| == 7
    ensures forall name :: name in X_COLS ==> forall c :: c in X_COLS[name] ==> c in FLAG_COLUMNS
  {
  }
}

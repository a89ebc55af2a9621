/** run_model.py: the single-treatment script's sampler input. It writes the
    same entries as fit_models.py except the copies for the test likelihood. */
module RunModel {
  import opened Wrappers
  import opened Pandas
  import opened Munging
  import opened StanData
  import FitModels

  const LIKELIHOOD: bool := true

  /** The indicator columns of the model without and with the C domain. */
  const X_CLONE_COLS_AB: seq<string> := ["is_A", "is_B", "is_AB"]
  const X_CLONE_COLS_ABC: seq<string> := X_CLONE_COLS_AB + ["is_C", "is_AC", "is_BC", "is_ABC"]

  /** The keys `get_stan_input` writes over the priors. */
  const DATA_KEYS: set<string> := {
    "N", "R", "C", "D", "K", "design", "clone", "replicate", "x_clone", "t", "y", "likelihood"
  }

  /** The keys fit_models.py writes and this script does not. */
  const TEST_KEYS: set<string> := {"N_test", "replicate_test", "t_test", "y_test"}

  /** `get_stan_input(msmts, priors, x_clone_cols)`: the priors merged with the
      data entries, a data entry winning over a prior of the same name. */
  function GetStanInput(ms: seq<Measurement>, priors: map<string, StanValue>, cols: seq<string>)
    : (r: Result<map<string, StanValue>, ColumnError>)
    ensures r.Err? <==> exists c :: c in cols && c !in INT_COLUMNS
    ensures r.Ok? ==> r.value.Keys == priors.Keys + DATA_KEYS
    ensures r.Ok? ==> forall k :: k in priors && k !in DATA_KEYS ==> r.value[k] == priors[k]
    ensures r.Ok? ==> (XClone(ms, cols).Ok? &&
      forall k :: k in DATA_KEYS ==> r.value[k] == Entry(ms, cols, XClone(ms, cols).value, LIKELIHOOD, k))
  {
    match XClone(ms, cols)
    case Err(e) => Err(e)
    case Ok(x) => Ok(priors + map k | k in DATA_KEYS :: Entry(ms, cols, x, LIKELIHOOD, k))
  }

  /** The counts: `N` is the number of measurements, `K` the number of
      requested columns, `likelihood` is 1, and `R`, `C`, `D` count the
      distinct replicates, clones and designs. */
  lemma StanInputCounts(ms: seq<Measurement>, priors: map<string, StanValue>, cols: seq<string>)
    requires Convertible(cols)
    ensures GetStanInput(ms, priors, cols).Ok?
    ensures var d := GetStanInput(ms, priors, cols).value;
      && d["N"] == Int(|ms|)
      && d["K"] == Int(|cols|)
      && d["likelihood"] == Int(1)
      && d["R"] == Int(|set x | x in Replicates(ms)|)
      && d["C"] == Int(|set x | x in Clones(ms)|)
      && d["D"] == Int(|set x | x in Designs(ms)|)
  {
    EntryCounts(ms, cols, XClone(ms, cols).value, LIKELIHOOD);
    NUniqueCard(Replicates(ms));
    NUniqueCard(Clones(ms));
    NUniqueCard(Designs(ms));
  }

  /** The observation columns, in row order: `t`, `y` and `replicate` are the
      `day`, `y` and `replicate_fct` of each measurement, `N` of each. */
  lemma StanInputObservations(ms: seq<Measurement>, priors: map<string, StanValue>, cols: seq<string>)
    requires Convertible(cols)
    ensures GetStanInput(ms, priors, cols).Ok?
    ensures var d := GetStanInput(ms, priors, cols).value;
      && d["t"] == Reals(Days(ms)) && d["y"] == Reals(Ys(ms)) && d["replicate"] == Ints(ReplicateFcts(ms))
      && Int(|Days(ms)|) == Int(|Ys(ms)|) == Int(|ReplicateFcts(ms)|) == d["N"]
      && forall i :: 0 <= i < |ms| ==>
        Days(ms)[i] == ms[i].day && Ys(ms)[i] == ms[i].y && ReplicateFcts(ms)[i] == ms[i].replicateFct
  {
    EntryCounts(ms, cols, XClone(ms, cols).value, LIKELIHOOD);
    EntryObservations(ms, cols, XClone(ms, cols).value, LIKELIHOOD);
    ObservationColumns(ms);
  }

  /** On a well-coded table (every prepared table is one) `design` lists, for
      clone codes 1..C, the design code of that clone's first row. */
  lemma StanInputDesign(ms: seq<Measurement>, priors: map<string, StanValue>, cols: seq<string>)
    requires WellCoded(ms)
    requires Convertible(cols)
    ensures GetStanInput(ms, priors, cols).Ok?
    ensures var d := GetStanInput(ms, priors, cols).value;
      && d["design"] == Ints(DesignByClone(ms)) && d["C"] == Int(|DesignByClone(ms)|)
      && forall k :: 1 <= k <= |DesignByClone(ms)| ==>
        DesignByClone(ms)[k - 1] == ms[FirstIndex(CloneFcts(ms), k)].designFct
  {
    EntryCounts(ms, cols, XClone(ms, cols).value, LIKELIHOOD);
    EntryGroups(ms, cols, XClone(ms, cols).value, LIKELIHOOD);
    CodedGroups(ms);
  }

  /** On a well-coded table `clone` lists, for replicate codes 1..R, the clone
      code of that replicate's first row. */
  lemma StanInputClone(ms: seq<Measurement>, priors: map<string, StanValue>, cols: seq<string>)
    requires WellCoded(ms)
    requires Convertible(cols)
    ensures GetStanInput(ms, priors, cols).Ok?
    ensures var d := GetStanInput(ms, priors, cols).value;
      && d["clone"] == Ints(CloneByReplicate(ms)) && d["R"] == Int(|CloneByReplicate(ms)|)
      && forall k :: 1 <= k <= |CloneByReplicate(ms)| ==>
        CloneByReplicate(ms)[k - 1] == ms[FirstIndex(ReplicateFcts(ms), k)].cloneFct
  {
    EntryCounts(ms, cols, XClone(ms, cols).value, LIKELIHOOD);
    EntryGroups(ms, cols, XClone(ms, cols).value, LIKELIHOOD);
    CodedGroups(ms);
  }

  /** On a well-coded table `x_clone` has one row per clone code, each of `K`
      entries taken from that clone's first row. */
  lemma StanInputXClone(ms: seq<Measurement>, priors: map<string, StanValue>, cols: seq<string>)
    requires WellCoded(ms)
    requires Convertible(cols)
    ensures GetStanInput(ms, priors, cols).Ok? && XClone(ms, cols).Ok?
    ensures var d := GetStanInput(ms, priors, cols).value;
      && d["x_clone"] == IntMatrix(XClone(ms, cols).value)
      && d["C"] == Int(|XClone(ms, cols).value|)
      && forall k :: 1 <= k <= |XClone(ms, cols).value| ==>
        && d["K"] == Int(|XClone(ms, cols).value[k - 1]|)
        && XClone(ms, cols).value[k - 1] == IntRow(ms[FirstIndex(CloneFcts(ms), k)], cols)
  {
    var x := XClone(ms, cols).value;
    EntryCounts(ms, cols, x, LIKELIHOOD);
    EntryGroups(ms, cols, x, LIKELIHOOD);
    CodedXClone(ms, cols, x);
  }

  /** With indicator columns only, the input exists and every entry of
      `x_clone` is 0 or 1. */
  lemma StanInputIndicators(ms: seq<Measurement>, priors: map<string, StanValue>, cols: seq<string>)
    requires forall c :: c in cols ==> c in FLAG_COLUMNS
    ensures GetStanInput(ms, priors, cols).Ok?
    ensures var d := GetStanInput(ms, priors, cols).value;
      && d["x_clone"].IntMatrix?
      && forall k, j :: 0 <= k < |d["x_clone"].rows| && 0 <= j < |d["x_clone"].rows[k]| ==>
        0 <= d["x_clone"].rows[k][j] <= 1
  {
    var x := XClone(ms, cols).value;
    EntryGroups(ms, cols, x, LIKELIHOOD);
    XCloneEntries(ms, cols, x);
  }

  /** Both scripts accept and refuse the same column lists. */
  lemma SameColumnErrors(ms: seq<Measurement>, priors: map<string, StanValue>, cols: seq<string>)
    ensures GetStanInput(ms, priors, cols).Ok? <==> FitModels.GetStanInput(ms, priors, cols).Ok?
  {
  }

  /** When no prior is named like a test entry, this script's input is
      fit_models.py's input without the four test entries. */
  lemma AgreesWithFitModels(ms: seq<Measurement>, priors: map<string, StanValue>, cols: seq<string>)
    requires priors.Keys !! TEST_KEYS
    requires Convertible(cols)
    ensures GetStanInput(ms, priors, cols).Ok? && FitModels.GetStanInput(ms, priors, cols).Ok?
    ensures GetStanInput(ms, priors, cols).value == FitModels.GetStanInput(ms, priors, cols).value - TEST_KEYS
  {
    SharedKeys(ms, priors, cols);
    SharedValues(ms, priors, cols);
    Restricted(GetStanInput(ms, priors, cols).value, FitModels.GetStanInput(ms, priors, cols).value, TEST_KEYS);
  }

  /** A map with the keys of `e - t` that agrees with `e` on them is `e - t`. */
  lemma Restricted<K, V>(d: map<K, V>, e: map<K, V>, t: set<K>)
    requires d.Keys == (e - t).Keys
    requires forall k :: k in d ==> k in e && d[k] == e[k]
    ensures d == e - t
  {
  }

  /** Without the test keys, both inputs have the same keys. */
  lemma SharedKeys(ms: seq<Measurement>, priors: map<string, StanValue>, cols: seq<string>)
    requires priors.Keys !! TEST_KEYS
    requires Convertible(cols)
    ensures GetStanInput(ms, priors, cols).Ok? && FitModels.GetStanInput(ms, priors, cols).Ok?
    ensures GetStanInput(ms, priors, cols).value.Keys == (FitModels.GetStanInput(ms, priors, cols).value - TEST_KEYS).Keys
  {
    KeySets();
    DropAdded(priors.Keys, DATA_KEYS, TEST_KEYS);
  }

  /** Every entry of this script's input is also in fit_models.py's input,
      with the same value. */
  lemma SharedValues(ms: seq<Measurement>, priors: map<string, StanValue>, cols: seq<string>)
    requires priors.Keys !! TEST_KEYS
    requires Convertible(cols)
    ensures GetStanInput(ms, priors, cols).Ok? && FitModels.GetStanInput(ms, priors, cols).Ok?
    ensures var d, e := GetStanInput(ms, priors, cols).value, FitModels.GetStanInput(ms, priors, cols).value;
      forall k :: k in d ==> k in e && d[k] == e[k]
  {
    KeySets();
    var d, e := GetStanInput(ms, priors, cols).value, FitModels.GetStanInput(ms, priors, cols).value;
    var x := XClone(ms, cols).value;
    assert LIKELIHOOD == FitModels.LIKELIHOOD;
    forall k | k in d
      ensures k in e && d[k] == e[k]
    {
      if k in DATA_KEYS {
        assert d[k] == Entry(ms, cols, x, LIKELIHOOD, k);
      } else {
        assert k !in FitModels.DATA_KEYS;
      }
    }
  }

  /** fit_models.py's data keys are this script's and the test keys. */
  lemma KeySets()
    ensures FitModels.DATA_KEYS == DATA_KEYS + TEST_KEYS
    ensures DATA_KEYS !! TEST_KEYS
  {
  }

  lemma DropAdded<X>(p: set<X>, a: set<X>, t: set<X>)
    requires p !! t && a !! t
    ensures (p + (a + t)) - t == p + a
  {
  }

  /** Any list of indicator columns is usable, and `K` is its length. */
  lemma FlagColumnsUsable(ms: seq<Measurement>, priors: map<string, StanValue>, cols: seq<string>)
    requires forall c :: c in cols ==> c in FLAG_COLUMNS
    ensures GetStanInput(ms, priors, cols).Ok?
    ensures GetStanInput(ms, priors, cols).value["K"] == Int(|cols|)
  {
    StanInputCounts(ms, priors, cols);
  }

  /** The model columns are indicator columns, three and seven of them; the
      first list begins the second, and they are fit_models.py's "ab" and
      "abc" lists. */
  lemma XCloneCols()
    ensures forall c :: c in X_CLONE_COLS_ABC ==> c in FLAG_COLUMNS
    ensures |X_CLONE_COLS_AB| == 3 && |X_CLONE_COLS_ABC| == 7
    ensures X_CLONE_COLS_AB == X_CLONE_COLS_ABC[..3]
    ensures FitModels.X_COLS["ab"] == X_CLONE_COLS_AB && FitModels.X_COLS["abc"] == X_CLONE_COLS_ABC
  {
  }
}

/** The pieces of the sampler's input that fit_models.py and run_model.py
    both compute from the prepared table: the value type of the input
    dictionary, the per-clone indicator matrix `x_clone` and the two
    group-first arrays `design` and `clone`. */
module StanData {
  import opened Wrappers
  import opened Pandas
  import opened Munging

  /** A value of the input dictionary: an integer, an integer array, a real
      array or an integer matrix (the prior entries are real arrays). */
  datatype StanValue = Int(n: int) | Ints(ints: seq<int>) | Reals(reals: seq<real>) | IntMatrix(rows: seq<seq<int>>)

  /** `msmts[cols]` names columns that `astype(int)` cannot turn into integers. */
  datatype ColumnError = UnusableColumns(names: set<string>)

  /** The indicator columns added by `prepare_data`. */
  const FLAG_COLUMNS: set<string> := {"is_A", "is_B", "is_C", "is_AB", "is_AC", "is_BC", "is_ABC"}

  /** The columns of the prepared table that `astype(int)` accepts: the
      integer and boolean columns, and the float columns `day` and `y`. */
  const INT_COLUMNS: set<string> := FLAG_COLUMNS + {"baseline", "design_fct", "clone_fct", "replicate_fct", "day", "y"}

  /** Every requested column is one that `astype(int)` accepts. */
  predicate Convertible(cols: seq<string>)
  {
    forall c :: c in cols ==> c in INT_COLUMNS
  }

  function BoolToInt(b: bool): int
  {
    if b then 1 else 0
  }

  /** A float cast to an integer drops its fraction, rounding toward zero. */
  function Trunc(r: real): (n: int)
    ensures 0.0 <= r ==> n as real <= r < n as real + 1.0
    ensures r < 0.0 ==> n as real - 1.0 < r <= n as real
  {
    if 0.0 <= r then r.Floor else -((-r).Floor)
  }

  /** Column `name` of row `m` after `astype(int)`. */
  function IntColumn(m: Measurement, name: string): int
    requires name in INT_COLUMNS
  {
    if name == "baseline" then m.baseline
    else if name == "design_fct" then m.designFct
    else if name == "clone_fct" then m.cloneFct
    else if name == "replicate_fct" then m.replicateFct
    else if name == "day" then Trunc(m.day)
    else if name == "y" then Trunc(m.y)
    else if name == "is_A" then BoolToInt(m.isA)
    else if name == "is_B" then BoolToInt(m.isB)
    else if name == "is_C" then BoolToInt(m.isC)
    else if name == "is_AB" then BoolToInt(m.isAB)
    else if name == "is_AC" then BoolToInt(m.isAC)
    else if name == "is_BC" then BoolToInt(m.isBC)
    else BoolToInt(m.isABC)
  }

  /** The requested columns of one row, as integers. */
  function IntRow(m: Measurement, cols: seq<string>): (row: seq<int>)
    requires Convertible(cols)
  {
    seq(|cols|, j requires 0 <= j < |cols| => IntColumn(m, cols[j]))
  }

  /** `msmts.groupby("clone_fct")[cols].first().astype(int)`: one row per clone
      code, ascending, holding the requested columns of that clone's first
      measurement. */
  function XClone(ms: seq<Measurement>, cols: seq<string>): (r: Result<seq<seq<int>>, ColumnError>)
    ensures r.Err? <==> exists c :: c in cols && c !in INT_COLUMNS
    ensures r.Ok? ==> |r.value| == NUnique(CloneFcts(ms))
    ensures r.Ok? ==> forall k :: 0 <= k < |r.value| ==> |r.value[k]| == |cols|
  {
    if Convertible(cols) then
      var rows := seq(|ms|, i requires 0 <= i < |ms| => IntRow(ms[i], cols));
      var x := GroupFirst(CloneFcts(ms), rows);
      assert forall k :: 0 <= k < |x| ==> x[k] in rows;
      Ok(x)
    else
      Err(UnusableColumns(set c | c in cols && c !in INT_COLUMNS))
  }

  /** `msmts.groupby("clone_fct")["design_fct"].first()`. */
  function DesignByClone(ms: seq<Measurement>): seq<int>
  {
    GroupFirst(CloneFcts(ms), DesignFcts(ms))
  }

  /** `msmts.groupby("replicate_fct")["clone_fct"].first()`. */
  function CloneByReplicate(ms: seq<Measurement>): seq<int>
  {
    GroupFirst(ReplicateFcts(ms), CloneFcts(ms))
  }

  /** `msmts["day"].values`. */
  function Days(ms: seq<Measurement>): seq<real>
  {
    seq(|ms|, i requires 0 <= i < |ms| => ms[i].day)
  }

  /** `msmts["y"].values`. */
  function Ys(ms: seq<Measurement>): seq<real>
  {
    seq(|ms|, i requires 0 <= i < |ms| => ms[i].y)
  }

  /** The value both `get_stan_input` functions write under data key `k`,
      given the `x_clone` matrix and the module's `LIKELIHOOD` flag. */
  function Entry(ms: seq<Measurement>, cols: seq<string>, x: seq<seq<int>>, likelihood: bool, k: string): StanValue
  {
    if k == "N" || k == "N_test" then Int(|ms|)
    else if k == "R" then Int(NUnique(Replicates(ms)))
    else if k == "C" then Int(NUnique(Clones(ms)))
    else if k == "D" then Int(NUnique(Designs(ms)))
    else if k == "K" then Int(|cols|)
    else if k == "design" then Ints(DesignByClone(ms))
    else if k == "clone" then Ints(CloneByReplicate(ms))
    else if k == "x_clone" then IntMatrix(x)
    else if k == "replicate" || k == "replicate_test" then Ints(ReplicateFcts(ms))
    else if k == "t" || k == "t_test" then Reals(Days(ms))
    else if k == "y" || k == "y_test" then Reals(Ys(ms))
    else Int(BoolToInt(likelihood))
  }

  /** The count entries, one key at a time. */
  lemma EntryCounts(ms: seq<Measurement>, cols: seq<string>, x: seq<seq<int>>, likelihood: bool)
    ensures Entry(ms, cols, x, likelihood, "N") == Entry(ms, cols, x, likelihood, "N_test") == Int(|ms|)
    ensures Entry(ms, cols, x, likelihood, "R") == Int(NUnique(Replicates(ms)))
    ensures Entry(ms, cols, x, likelihood, "C") == Int(NUnique(Clones(ms)))
    ensures Entry(ms, cols, x, likelihood, "D") == Int(NUnique(Designs(ms)))
    ensures Entry(ms, cols, x, likelihood, "K") == Int(|cols|)
    ensures Entry(ms, cols, x, likelihood, "likelihood") == Int(BoolToInt(likelihood))
  {
  }

  /** The per-group entries, one key at a time. */
  lemma EntryGroups(ms: seq<Measurement>, cols: seq<string>, x: seq<seq<int>>, likelihood: bool)
    ensures Entry(ms, cols, x, likelihood, "design") == Ints(DesignByClone(ms))
    ensures Entry(ms, cols, x, likelihood, "clone") == Ints(CloneByReplicate(ms))
    ensures Entry(ms, cols, x, likelihood, "x_clone") == IntMatrix(x)
  {
  }

  /** The per-measurement entries, one key at a time. */
  lemma EntryObservations(ms: seq<Measurement>, cols: seq<string>, x: seq<seq<int>>, likelihood: bool)
    ensures Entry(ms, cols, x, likelihood, "replicate") == Entry(ms, cols, x, likelihood, "replicate_test") == Ints(ReplicateFcts(ms))
    ensures Entry(ms, cols, x, likelihood, "t") == Entry(ms, cols, x, likelihood, "t_test") == Reals(Days(ms))
    ensures Entry(ms, cols, x, likelihood, "y") == Entry(ms, cols, x, likelihood, "y_test") == Reals(Ys(ms))
  {
  }

  /** The observation arrays hold, row by row, each measurement's day, value
      and replicate code. */
  lemma ObservationColumns(ms: seq<Measurement>)
    ensures |Days(ms)| == |Ys(ms)| == |ReplicateFcts(ms)| == |ms|
    ensures forall i :: 0 <= i < |ms| ==>
      Days(ms)[i] == ms[i].day && Ys(ms)[i] == ms[i].y && ReplicateFcts(ms)[i] == ms[i].replicateFct
  {
  }

  /** An indicator column holds 0 or 1. */
  lemma FlagColumn(m: Measurement, name: string)
    requires name in FLAG_COLUMNS
    ensures name in INT_COLUMNS && 0 <= IntColumn(m, name) <= 1
  {
  }

  /** A row of indicator columns holds only 0 and 1. */
  lemma FlagRow(m: Measurement, cols: seq<string>)
    requires forall c :: c in cols ==> c in FLAG_COLUMNS
    ensures Convertible(cols)
    ensures forall j :: 0 <= j < |IntRow(m, cols)| ==> IntRow(m, cols)[j] == 0 || IntRow(m, cols)[j] == 1
  {
    forall j | 0 <= j < |cols|
      ensures IntColumn(m, cols[j]) == 0 || IntColumn(m, cols[j]) == 1
    {
      FlagColumn(m, cols[j]);
    }
  }

  /** On indicator columns every entry of `x_clone` is 0 or 1. */
  lemma XCloneEntries(ms: seq<Measurement>, cols: seq<string>, x: seq<seq<int>>)
    requires XClone(ms, cols) == Ok(x)
    requires forall c :: c in cols ==> c in FLAG_COLUMNS
    ensures forall k, j :: 0 <= k < |x| && 0 <= j < |x[k]| ==> x[k][j] == 0 || x[k][j] == 1
  {
    var rows := seq(|ms|, i requires 0 <= i < |ms| => IntRow(ms[i], cols));
    forall k | 0 <= k < |x|
      ensures forall j :: 0 <= j < |x[k]| ==> x[k][j] == 0 || x[k][j] == 1
    {
      assert x[k] in rows;
      var i :| 0 <= i < |ms| && rows[i] == x[k];
      FlagRow(ms[i], cols);
    }
  }

  /** On a well-coded table (every prepared table is one) `design` has one
      entry per clone code and `clone` one per replicate code, in ascending
      code order, each taken from the first row with that code; their lengths
      are the numbers of distinct clones and replicates. */
  lemma CodedGroups(ms: seq<Measurement>)
    requires WellCoded(ms)
    ensures |DesignByClone(ms)| == NUnique(Clones(ms))
    ensures forall k :: 1 <= k <= NUnique(Clones(ms)) ==>
      DesignByClone(ms)[k - 1] == ms[FirstIndex(CloneFcts(ms), k)].designFct
    ensures |CloneByReplicate(ms)| == NUnique(Replicates(ms))
    ensures forall k :: 1 <= k <= NUnique(Replicates(ms)) ==>
      CloneByReplicate(ms)[k - 1] == ms[FirstIndex(ReplicateFcts(ms), k)].cloneFct
    ensures NUnique(CloneFcts(ms)) == NUnique(Clones(ms))
  {
    GroupFirstContiguous(CloneFcts(ms), DesignFcts(ms), NUnique(Clones(ms)));
    GroupFirstContiguous(ReplicateFcts(ms), CloneFcts(ms), NUnique(Replicates(ms)));
  }

  /** On a well-coded table row `k - 1` of `x_clone` holds the requested columns
      of the first measurement of clone `k`. */
  lemma CodedXClone(ms: seq<Measurement>, cols: seq<string>, x: seq<seq<int>>)
    requires WellCoded(ms)
    requires XClone(ms, cols) == Ok(x)
    ensures |x| == NUnique(Clones(ms))
    ensures forall k :: 1 <= k <= NUnique(Clones(ms)) ==> x[k - 1] == IntRow(ms[FirstIndex(CloneFcts(ms), k)], cols)
  {
    var rows := seq(|ms|, i requires 0 <= i < |ms| => IntRow(ms[i], cols));
    GroupFirstContiguous(CloneFcts(ms), rows, NUnique(Clones(ms)));
  }
}

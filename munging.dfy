/** munging.py: factor coding of a column (`stan_factorize`) and the
    preparation of the measurement table (`prepare_data`). */
module Munging {
  import opened Wrappers
  import opened Pandas

  /** The exceptions `stan_factorize` can raise. `NotAValue` is the intended
      `ValueError` naming the missing `first` value; `NameError` is what the
      code as written raises, because its message names an undefined `fist`. */
  datatype FactorizeError<T> = NotAValue(first: T) | NameError(name: string)

  /** `[v for v in values if v != first]`. */
  function Without<T(==,!new)>(u: seq<T>, f: T): (w: seq<T>)
    ensures forall x :: x in w <==> x in u && x != f
    decreases |u|
  {
    if |u| == 0 then []
    else
      assert u == [u[0]] + u[1..];
      if u[0] == f then Without(u[1..], f)
      else [u[0]] + Without(u[1..], f)
  }

  /** From a list without repetitions, `Without` drops exactly one element
      when `f` is present and none otherwise. */
  lemma {:induction false} WithoutDistinct<T(!new)>(u: seq<T>, f: T)
    requires Distinct(u)
    ensures Distinct(Without(u, f))
    ensures |Without(u, f)| == if f in u then |u| - 1 else |u|
    decreases |u|
  {
    if |u| > 0 {
      assert u == [u[0]] + u[1..];
      assert u[0] !in u[1..];
      WithoutDistinct(u[1..], f);
    }
  }

  /** Values listed in first-appearance order of `s`. */
  predicate InAppearanceOrder<T(==)>(s: seq<T>, u: seq<T>)
  {
    && (forall p :: 0 <= p < |u| ==> u[p] in s)
    && (forall p, q :: 0 <= p < q < |u| ==> FirstIndex(s, u[p]) < FirstIndex(s, u[q]))
  }

  /** Dropping one value keeps the others in their order. */
  lemma {:induction false} WithoutKeepsOrder<T(!new)>(s: seq<T>, u: seq<T>, f: T)
    requires InAppearanceOrder(s, u)
    ensures InAppearanceOrder(s, Without(u, f))
    decreases |u|
  {
    if |u| > 0 {
      assert InAppearanceOrder(s, u[1..]);
      WithoutKeepsOrder(s, u[1..], f);
      var rest := Without(u[1..], f);
      if u[0] != f {
        var w := [u[0]] + rest;
        forall p, q | 0 <= p < q < |w|
          ensures FirstIndex(s, w[p]) < FirstIndex(s, w[q])
        {
          if p == 0 {
            assert w[q] in u[1..];
            var k :| 0 <= k < |u[1..]| && u[1..][k] == w[q];
            assert u[k + 1] == w[q];
          }
        }
      }
    }
  }

  /** In a list kept in first-appearance order, positions compare as first
      appearances in `s` do. */
  lemma OrderedPositions<T>(s: seq<T>, u: seq<T>, x: T, y: T)
    requires InAppearanceOrder(s, u) && Distinct(u)
    requires x in u && y in u
    ensures FirstIndex(u, x) < FirstIndex(u, y) <==> FirstIndex(s, x) < FirstIndex(s, y)
  {
    var p, q := FirstIndex(u, x), FirstIndex(u, y);
    if q < p {
      assert FirstIndex(s, u[q]) < FirstIndex(s, u[p]);
    }
  }

  /** The list `values` whose positions give the codes: the distinct values in
      first-appearance order, with `first` moved to the front when given. */
  function CodeBook<T(==,!new)>(s: seq<T>, first: Option<T>): seq<T>
  {
    match first
    case None => Unique(s)
    case Some(f) => [f] + Without(Unique(s), f)
  }

  /** `s_in.map(dict(zip(values, codes)))` with `codes = 1, 2, ...`: each value is
      replaced by one more than its position in `values`. */
  function Encode<T(==)>(s: seq<T>, values: seq<T>): seq<int>
    requires forall i :: 0 <= i < |s| ==> s[i] in values
  {
    seq(|s|, i requires 0 <= i < |s| => FirstIndex(values, s[i]) + 1)
  }

  /** Reads codes back through the code book. */
  function Decode<T>(values: seq<T>, codes: seq<int>): seq<T>
    requires forall i :: 0 <= i < |codes| ==> 1 <= codes[i] <= |values|
  {
    seq(|codes|, i requires 0 <= i < |codes| => values[codes[i] - 1])
  }

  /** `stan_factorize(s_in, first)`, with the error it evidently means to raise
      when `first` is given but absent. */
  function StanFactorize<T(==,!new)>(s: seq<T>, first: Option<T>): (r: Result<seq<int>, FactorizeError<T>>)
    ensures r.Err? <==> first.Some? && first.value !in s
    ensures r.Ok? ==> |r.value| == |s|
  {
    var values := Unique(s);
    if first.Some? && first.value !in values then Err(NotAValue(first.value))
    else Ok(Encode(s, CodeBook(s, first)))
  }

  /** `stan_factorize` as written: the f-string of its `raise` names `fist`,
      so evaluating the message raises `NameError` first. */
  function StanFactorizeAsWritten<T(==,!new)>(s: seq<T>, first: Option<T>): (r: Result<seq<int>, FactorizeError<T>>)
    ensures r.Err? <==> first.Some? && first.value !in s
  {
    var values := Unique(s);
    if first.Some? && first.value !in values then Err(NameError("fist"))
    else Ok(Encode(s, CodeBook(s, first)))
  }

  /** Whenever `first` is missing, the code as written raises `NameError`
      where a `ValueError` naming `first` is meant; otherwise both agree. */
  lemma FistTypo<T(!new)>(s: seq<T>, first: Option<T>)
    ensures first.Some? && first.value !in s ==>
      && StanFactorizeAsWritten(s, first) == Err(NameError("fist"))
      && StanFactorize(s, first) == Err(NotAValue(first.value))
    ensures first.None? || first.value in s ==>
      StanFactorizeAsWritten(s, first) == StanFactorize(s, first)
  {
  }

  /** The code book lists each distinct value once, `first` (when given) in front. */
  lemma CodeBookFacts<T(!new)>(s: seq<T>, first: Option<T>)
    requires first.None? || first.value in s
    ensures Distinct(CodeBook(s, first))
    ensures forall x :: x in CodeBook(s, first) <==> x in s
    ensures |CodeBook(s, first)| == NUnique(s)
    ensures first.Some? ==> CodeBook(s, first)[0] == first.value
  {
    if first.Some? {
      WithoutDistinct(Unique(s), first.value);
      var w := Without(Unique(s), first.value);
      var v := [first.value] + w;
      forall i, j | 0 <= i < j < |v|
        ensures v[i] != v[j]
      {
        if i == 0 {
          assert v[j] in w;
        }
      }
    }
  }

  /** The codes are exactly `1..n` for `n` distinct values, and two entries
      share a code if and only if they hold the same value. */
  lemma FactorizeCodes<T(!new)>(s: seq<T>, first: Option<T>, codes: seq<int>)
    requires StanFactorize(s, first) == Ok(codes)
    ensures |codes| == |s|
    ensures Contiguous(codes, NUnique(s))
    ensures forall i, j :: 0 <= i < |s| && 0 <= j < |s| ==> (codes[i] == codes[j] <==> s[i] == s[j])
  {
    var values := CodeBook(s, first);
    CodeBookFacts(s, first);
    forall k | 1 <= k <= NUnique(s)
      ensures k in codes
    {
      var i := FirstIndex(s, values[k - 1]);
      FirstIndexDistinct(values, k - 1);
      assert codes[i] == k;
    }
  }

  /** Decoding the codes through the code book gives back the column. */
  lemma FactorizeDecode<T(!new)>(s: seq<T>, first: Option<T>, codes: seq<int>)
    requires StanFactorize(s, first) == Ok(codes)
    ensures forall i :: 0 <= i < |codes| ==> 1 <= codes[i] <= |CodeBook(s, first)|
    ensures Decode(CodeBook(s, first), codes) == s
  {
    CodeBookFacts(s, first);
    assert codes == Encode(s, CodeBook(s, first));
    DecodeEncode(s, CodeBook(s, first));
  }

  /** Decoding through a list undoes encoding through it. */
  lemma DecodeEncode<T>(s: seq<T>, values: seq<T>)
    requires forall i :: 0 <= i < |s| ==> s[i] in values
    ensures forall i :: 0 <= i < |s| ==> 1 <= Encode(s, values)[i] <= |values|
    ensures Decode(values, Encode(s, values)) == s
  {
    var codes := Encode(s, values);
    forall i | 0 <= i < |s|
      ensures 1 <= codes[i] <= |values| && values[codes[i] - 1] == s[i]
    {
      assert codes[i] == FirstIndex(values, s[i]) + 1;
    }
  }

  /** `first`, when given, gets code 1 and every other value a code from 2 up. */
  lemma FactorizeFirst<T(!new)>(s: seq<T>, f: T, codes: seq<int>)
    requires StanFactorize(s, Some(f)) == Ok(codes)
    ensures forall i :: 0 <= i < |s| ==> (codes[i] == 1 <==> s[i] == f)
    ensures forall i :: 0 <= i < |s| && s[i] != f ==> 2 <= codes[i]
  {
    var values := CodeBook(s, Some(f));
    CodeBookFacts(s, Some(f));
    FirstIndexDistinct(values, 0);
  }

  /** Behind a new front element, every position moves up by one. */
  lemma FirstIndexBehind<T>(f: T, w: seq<T>, x: T)
    requires x in w && x != f
    ensures FirstIndex([f] + w, x) == FirstIndex(w, x) + 1
  {
    var k := FirstIndex(w, x);
    assert ([f] + w)[..k + 1] == [f] + w[..k];
    FirstIndexIs([f] + w, x, k + 1);
  }

  /** Each code is one more than the position of its value in the code book. */
  lemma FactorizeAt<T(!new)>(s: seq<T>, first: Option<T>, codes: seq<int>, i: nat)
    requires StanFactorize(s, first) == Ok(codes)
    requires i < |s|
    ensures s[i] in CodeBook(s, first)
    ensures codes[i] == FirstIndex(CodeBook(s, first), s[i]) + 1
  {
    CodeBookFacts(s, first);
  }

  /** Without `first`, codes follow the order of first appearance. */
  lemma FactorizeOrder<T(!new)>(s: seq<T>, codes: seq<int>, i: nat, j: nat)
    requires i < |s| && j < |s|
    requires StanFactorize(s, None) == Ok(codes)
    ensures codes[i] < codes[j] <==> FirstIndex(s, s[i]) < FirstIndex(s, s[j])
  {
    UniqueCodeAt(s, codes, i);
    UniqueCodeAt(s, codes, j);
    UniquePositions(s, s[i], s[j]);
  }

  /** Without `first`, each code is one more than the position of its value
      in `unique()`. */
  lemma UniqueCodeAt<T(!new)>(s: seq<T>, codes: seq<int>, i: nat)
    requires i < |s|
    requires StanFactorize(s, None) == Ok(codes)
    ensures codes[i] == FirstIndex(Unique(s), s[i]) + 1
  {
    UniqueEncoding(s, codes);
    EncodeAt(s, codes, i);
  }

  lemma UniqueEncoding<T(!new)>(s: seq<T>, codes: seq<int>)
    requires StanFactorize(s, None) == Ok(codes)
    ensures codes == Encode(s, Unique(s))
  {
  }

  lemma EncodeAt<T(!new)>(s: seq<T>, codes: seq<int>, i: nat)
    requires i < |s|
    requires codes == Encode(s, Unique(s))
    ensures codes[i] == FirstIndex(Unique(s), s[i]) + 1
  {
  }

  /** With `first`, the other values keep their order of first appearance. */
  lemma FactorizeOrderAfterFirst<T(!new)>(s: seq<T>, f: T, codes: seq<int>, i: nat, j: nat)
    requires StanFactorize(s, Some(f)) == Ok(codes)
    requires i < |s| && j < |s| && s[i] != f && s[j] != f
    ensures codes[i] < codes[j] <==> FirstIndex(s, s[i]) < FirstIndex(s, s[j])
  {
    FactorizeAt(s, Some(f), codes, i);
    FactorizeAt(s, Some(f), codes, j);
    RestPositions(s, f, s[i], s[j]);
  }

  /** Positions in `unique()` compare as first appearances do. */
  lemma UniquePositions<T(!new)>(s: seq<T>, x: T, y: T)
    requires x in s && y in s
    ensures FirstIndex(Unique(s), x) < FirstIndex(Unique(s), y) <==> FirstIndex(s, x) < FirstIndex(s, y)
  {
    UniqueOrder(s);
    OrderedPositions(s, Unique(s), x, y);
  }

  /** Positions in the code book with `f` in front compare, for values other
      than `f`, as first appearances do. */
  lemma RestPositions<T(!new)>(s: seq<T>, f: T, x: T, y: T)
    requires x in s && y in s && x != f && y != f
    ensures FirstIndex(CodeBook(s, Some(f)), x) < FirstIndex(CodeBook(s, Some(f)), y)
        <==> FirstIndex(s, x) < FirstIndex(s, y)
  {
    var u := Unique(s);
    var w := Without(u, f);
    UniqueOrder(s);
    WithoutKeepsOrder(s, u, f);
    WithoutDistinct(u, f);
    FirstIndexBehind(f, w, x);
    FirstIndexBehind(f, w, y);
    OrderedPositions(s, w, x, y);
  }

  /** Unique values of a prefix are a prefix of the unique values. */
  lemma {:induction false} UniquePrefix<T(!new)>(s: seq<T>, n: nat)
    requires n <= |s|
    ensures Unique(s[..n]) <= Unique(s)
    decreases |s|
  {
    assert s[..|s|] == s;
    if n < |s| {
      var init := s[..|s| - 1];
      assert init[..n] == s[..n];
      UniquePrefix(init, n);
    }
  }

  /** Without `first`, the value seen first gets 1 and each newly seen value the
      next unused code: a value first met at row `i` gets one more than the
      number of distinct values before it. */
  lemma FactorizeFirstAppearance<T(!new)>(s: seq<T>, codes: seq<int>, i: nat)
    requires StanFactorize(s, None) == Ok(codes)
    requires i < |s| && s[i] !in s[..i]
    ensures codes[i] == NUnique(s[..i]) + 1
  {
    var u := Unique(s);
    var before := Unique(s[..i]);
    assert s[..i + 1][..i] == s[..i];
    assert Unique(s[..i + 1]) == before + [s[i]];
    UniquePrefix(s, i + 1);
    assert u[|before|] == s[i];
    FirstIndexDistinct(u, |before|);
  }

  /** One row of the raw measurement table (`Plasmid`, `Clone`, `Treatment`,
      `Run`, `Day`, `VCD`). */
  datatype RawRow = RawRow(plasmid: string, clone: string, treatment: string, run: string, day: real, vcd: real)

  /** One row of the prepared table. */
  datatype Measurement = Measurement(
    design: string, clone: string, treatment: string, replicate: string,
    day: real, y: real, baseline: int,
    designFct: int, cloneFct: int, replicateFct: int,
    isA: bool, isB: bool, isC: bool, isAB: bool, isAC: bool, isBC: bool, isABC: bool)

  /** The design forced to code 1, and the design value of rows dropped. */
  const REFERENCE_DESIGN := "Empty"
  const NO_DESIGN := "None"

  /** The `.loc` mask of `prepare_data`. */
  predicate Keeps(treatment: string, r: RawRow)
  {
    r.treatment == treatment && r.day > 0.0 && r.plasmid != NO_DESIGN
  }

  /** The rows the mask keeps, in their original order. */
  function Select(raw: seq<RawRow>, treatment: string): (kept: seq<RawRow>)
    ensures forall r :: r in kept <==> r in raw && Keeps(treatment, r)
    decreases |raw|
  {
    if |raw| == 0 then []
    else
      assert raw == [raw[0]] + raw[1..];
      (if Keeps(treatment, raw[0]) then [raw[0]] else []) + Select(raw[1..], treatment)
  }

  /** A single row is kept once when the mask holds and dropped otherwise;
      with `SelectAppend` this fixes the selection of every table, each kept
      row appearing exactly as often as in the input. */
  lemma SelectOne(r: RawRow, treatment: string)
    ensures Select([r], treatment) == if Keeps(treatment, r) then [r] else []
  {
  }

  /** Selecting distributes over concatenation, so the relative order of the
      kept rows is their order in the input. */
  lemma {:induction false} SelectAppend(a: seq<RawRow>, b: seq<RawRow>, treatment: string)
    ensures Select(a + b, treatment) == Select(a, treatment) + Select(b, treatment)
    decreases |a|
  {
    if |a| > 0 {
      assert (a + b)[1..] == a[1..] + b;
      SelectAppend(a[1..], b, treatment);
    } else {
      assert a + b == b;
    }
  }

  /** Selecting again changes nothing. */
  lemma {:induction false} SelectIdempotent(raw: seq<RawRow>, treatment: string)
    ensures Select(Select(raw, treatment), treatment) == Select(raw, treatment)
    decreases |raw|
  {
    if |raw| > 0 {
      var head := if Keeps(treatment, raw[0]) then [raw[0]] else [];
      SelectAppend(head, Select(raw[1..], treatment), treatment);
      SelectIdempotent(raw[1..], treatment);
      if Keeps(treatment, raw[0]) {
        assert [raw[0]][1..] == [];
      }
    }
  }

  /** `raw["Clone"].str.cat(raw["Run"], sep="-")`. */
  function ReplicateId(r: RawRow): string
  {
    r.clone + "-" + r.run
  }

  function Plasmids(rows: seq<RawRow>): seq<string>
  {
    seq(|rows|, i requires 0 <= i < |rows| => rows[i].plasmid)
  }

  function CloneNames(rows: seq<RawRow>): seq<string>
  {
    seq(|rows|, i requires 0 <= i < |rows| => rows[i].clone)
  }

  function ReplicateIds(rows: seq<RawRow>): seq<string>
  {
    seq(|rows|, i requires 0 <= i < |rows| => ReplicateId(rows[i]))
  }

  lemma PlasmidsHas(rows: seq<RawRow>, d: string)
    ensures d in Plasmids(rows) <==> exists k :: k in rows && k.plasmid == d
  {
    if exists k :: k in rows && k.plasmid == d {
      var k :| k in rows && k.plasmid == d;
      var i :| 0 <= i < |rows| && rows[i] == k;
      assert Plasmids(rows)[i] == d;
    }
  }

  /** The derived columns of one kept row, given its three codes. */
  function Derive(r: RawRow, designFct: int, cloneFct: int, replicateFct: int): Measurement
  {
    var isA := Contains(r.plasmid, "Bak");
    var isB := Contains(r.plasmid, "Bax");
    var isC := Contains(r.plasmid, "Bok");
    Measurement(
      r.plasmid, r.clone, r.treatment, ReplicateId(r), r.day, r.vcd, 1,
      designFct, cloneFct, replicateFct,
      isA, isB, isC, isA && isB, isA && isC, isB && isC, isA && isB && isC)
  }

  /** Some kept row has the reference design, so `prepare_data` succeeds. */
  predicate HasReference(raw: seq<RawRow>, treatment: string)
  {
    exists k :: k in Select(raw, treatment) && k.plasmid == REFERENCE_DESIGN
  }

  /** `prepare_data(raw, treatment)`: keeps the rows of the treatment with a
      positive day and a design other than "None", codes design (with "Empty"
      first), clone and replicate on the kept rows, and adds the indicator
      columns. Fails when no kept row has design "Empty". */
  function PrepareData(raw: seq<RawRow>, treatment: string): (r: Result<seq<Measurement>, FactorizeError<string>>)
    ensures r.Err? <==> !HasReference(raw, treatment)
    ensures r.Ok? ==> |r.value| == |Select(raw, treatment)|
    ensures r.Ok? ==> Designs(r.value) == Plasmids(Select(raw, treatment))
    ensures r.Ok? ==> Clones(r.value) == CloneNames(Select(raw, treatment))
    ensures r.Ok? ==> Replicates(r.value) == ReplicateIds(Select(raw, treatment))
    ensures r.Ok? ==> StanFactorize(Designs(r.value), Some(REFERENCE_DESIGN)) == Ok(DesignFcts(r.value))
    ensures r.Ok? ==> StanFactorize(Clones(r.value), None) == Ok(CloneFcts(r.value))
    ensures r.Ok? ==> StanFactorize(Replicates(r.value), None) == Ok(ReplicateFcts(r.value))
  {
    var kept := Select(raw, treatment);
    var designs := Plasmids(kept);
    PlasmidsHas(kept, REFERENCE_DESIGN);
    match StanFactorize(designs, Some(REFERENCE_DESIGN))
    case Err(e) => Err(e)
    case Ok(designFct) =>
      var cloneFct := StanFactorize(CloneNames(kept), None).value;
      var replicateFct := StanFactorize(ReplicateIds(kept), None).value;
      Ok(Assemble(kept, designFct, cloneFct, replicateFct))
  }

  /** Without an "Empty" row the model fails with the intended value error,
      where the `stan_factorize` call on the design column as written fails
      with a name error. */
  lemma PrepareDataError(raw: seq<RawRow>, treatment: string)
    requires !HasReference(raw, treatment)
    ensures PrepareData(raw, treatment) == Err(NotAValue(REFERENCE_DESIGN))
    ensures StanFactorizeAsWritten(Plasmids(Select(raw, treatment)), Some(REFERENCE_DESIGN)) == Err(NameError("fist"))
  {
    PlasmidsHas(Select(raw, treatment), REFERENCE_DESIGN);
  }

  /** The prepared rows: each kept row with its derived columns and codes. */
  function Assemble(kept: seq<RawRow>, designFct: seq<int>, cloneFct: seq<int>, replicateFct: seq<int>): (ms: seq<Measurement>)
    requires |designFct| == |kept| && |cloneFct| == |kept| && |replicateFct| == |kept|
    ensures |ms| == |kept|
    ensures Designs(ms) == Plasmids(kept) && Clones(ms) == CloneNames(kept) && Replicates(ms) == ReplicateIds(kept)
    ensures DesignFcts(ms) == designFct && CloneFcts(ms) == cloneFct && ReplicateFcts(ms) == replicateFct
  {
    var ms := seq(|kept|, i requires 0 <= i < |kept| => Derive(kept[i], designFct[i], cloneFct[i], replicateFct[i]));
    assert Designs(ms) == Plasmids(kept);
    assert Clones(ms) == CloneNames(kept);
    assert Replicates(ms) == ReplicateIds(kept);
    assert DesignFcts(ms) == designFct;
    assert CloneFcts(ms) == cloneFct;
    assert ReplicateFcts(ms) == replicateFct;
    ms
  }

  function Designs(ms: seq<Measurement>): seq<string>
  {
    seq(|ms|, i requires 0 <= i < |ms| => ms[i].design)
  }

  function Clones(ms: seq<Measurement>): seq<string>
  {
    seq(|ms|, i requires 0 <= i < |ms| => ms[i].clone)
  }

  function Replicates(ms: seq<Measurement>): seq<string>
  {
    seq(|ms|, i requires 0 <= i < |ms| => ms[i].replicate)
  }

  function DesignFcts(ms: seq<Measurement>): seq<int>
  {
    seq(|ms|, i requires 0 <= i < |ms| => ms[i].designFct)
  }

  function CloneFcts(ms: seq<Measurement>): seq<int>
  {
    seq(|ms|, i requires 0 <= i < |ms| => ms[i].cloneFct)
  }

  function ReplicateFcts(ms: seq<Measurement>): seq<int>
  {
    seq(|ms|, i requires 0 <= i < |ms| => ms[i].replicateFct)
  }

  /** Each prepared row is the kept row at the same position with its derived
      columns: the row passes the filter, the replicate id is clone, "-" and
      run, the baseline is 1, and the indicators test the design for "Bak",
      "Bax" and "Bok" and their conjunctions. */
  lemma PreparedRows(raw: seq<RawRow>, treatment: string, i: nat)
    requires HasReference(raw, treatment)
    requires i < |Select(raw, treatment)|
    ensures PrepareData(raw, treatment).Ok?
    ensures var ms, k := PrepareData(raw, treatment).value, Select(raw, treatment)[i];
      && i < |ms|
      && ms[i].design == k.plasmid && ms[i].clone == k.clone
      && ms[i].replicate == k.clone + "-" + k.run
      && ms[i].day == k.day && ms[i].y == k.vcd
      && ms[i].treatment == treatment && ms[i].day > 0.0 && ms[i].design != NO_DESIGN
      && ms[i].baseline == 1
      && (ms[i].isA <==> Contains(ms[i].design, "Bak"))
      && (ms[i].isB <==> Contains(ms[i].design, "Bax"))
      && (ms[i].isC <==> Contains(ms[i].design, "Bok"))
      && ms[i].isAB == (ms[i].isA && ms[i].isB)
      && ms[i].isAC == (ms[i].isA && ms[i].isC)
      && ms[i].isBC == (ms[i].isB && ms[i].isC)
      && ms[i].isABC == (ms[i].isA && ms[i].isB && ms[i].isC)
  {
    var kept := Select(raw, treatment);
    assert kept[i] in kept;
  }

  /** The three code columns number their value columns contiguously from 1. */
  predicate WellCoded(ms: seq<Measurement>)
  {
    && Contiguous(DesignFcts(ms), NUnique(Designs(ms)))
    && Contiguous(CloneFcts(ms), NUnique(Clones(ms)))
    && Contiguous(ReplicateFcts(ms), NUnique(Replicates(ms)))
  }

  /** The three code columns of a prepared table: each is contiguous from 1 to
      the number of distinct values of its column, and rows share a code
      exactly when they share the value. */
  lemma PreparedCodes(raw: seq<RawRow>, treatment: string)
    requires HasReference(raw, treatment)
    ensures PrepareData(raw, treatment).Ok?
    ensures var ms := PrepareData(raw, treatment).value;
      && WellCoded(ms)
      && forall i, j :: 0 <= i < |ms| && 0 <= j < |ms| ==>
        && (ms[i].designFct == ms[j].designFct <==> ms[i].design == ms[j].design)
        && (ms[i].cloneFct == ms[j].cloneFct <==> ms[i].clone == ms[j].clone)
        && (ms[i].replicateFct == ms[j].replicateFct <==> ms[i].replicate == ms[j].replicate)
  {
    FactorizedColumns(PrepareData(raw, treatment).value);
  }

  /** A table whose code columns are the `stan_factorize` codes of its value
      columns is well coded, and its codes match exactly where its values do. */
  lemma FactorizedColumns(ms: seq<Measurement>)
    requires StanFactorize(Designs(ms), Some(REFERENCE_DESIGN)) == Ok(DesignFcts(ms))
    requires StanFactorize(Clones(ms), None) == Ok(CloneFcts(ms))
    requires StanFactorize(Replicates(ms), None) == Ok(ReplicateFcts(ms))
    ensures WellCoded(ms)
    ensures forall i, j :: 0 <= i < |ms| && 0 <= j < |ms| ==>
      && (ms[i].designFct == ms[j].designFct <==> ms[i].design == ms[j].design)
      && (ms[i].cloneFct == ms[j].cloneFct <==> ms[i].clone == ms[j].clone)
      && (ms[i].replicateFct == ms[j].replicateFct <==> ms[i].replicate == ms[j].replicate)
  {
    ValueAndCodeColumns(ms);
    FactorizeCodes(Designs(ms), Some(REFERENCE_DESIGN), DesignFcts(ms));
    FactorizeCodes(Clones(ms), None, CloneFcts(ms));
    FactorizeCodes(Replicates(ms), None, ReplicateFcts(ms));
  }

  /** The column views hold, row by row, each row's values and codes. */
  lemma ValueAndCodeColumns(ms: seq<Measurement>)
    ensures |Designs(ms)| == |Clones(ms)| == |Replicates(ms)| == |ms|
    ensures |DesignFcts(ms)| == |CloneFcts(ms)| == |ReplicateFcts(ms)| == |ms|
    ensures forall i :: 0 <= i < |ms| ==>
      && Designs(ms)[i] == ms[i].design && Clones(ms)[i] == ms[i].clone && Replicates(ms)[i] == ms[i].replicate
      && DesignFcts(ms)[i] == ms[i].designFct && CloneFcts(ms)[i] == ms[i].cloneFct
      && ReplicateFcts(ms)[i] == ms[i].replicateFct
  {
  }

  /** In a prepared table the reference design "Empty" is design 1, and only it. */
  lemma PreparedReference(raw: seq<RawRow>, treatment: string)
    requires HasReference(raw, treatment)
    ensures PrepareData(raw, treatment).Ok?
    ensures var ms := PrepareData(raw, treatment).value;
      forall i :: 0 <= i < |ms| ==> (ms[i].designFct == 1 <==> ms[i].design == REFERENCE_DESIGN)
  {
    var ms := PrepareData(raw, treatment).value;
    FactorizeFirst(Designs(ms), REFERENCE_DESIGN, DesignFcts(ms));
  }

  /** In a prepared table clones and replicates are numbered by first
      appearance: a row that shows a new clone (replicate) gets the next code. */
  lemma PreparedFirstAppearance(raw: seq<RawRow>, treatment: string)
    requires HasReference(raw, treatment)
    ensures PrepareData(raw, treatment).Ok?
    ensures var ms := PrepareData(raw, treatment).value;
      && (forall i :: 0 <= i < |ms| && ms[i].clone !in Clones(ms)[..i] ==>
        ms[i].cloneFct == NUnique(Clones(ms)[..i]) + 1)
      && (forall i :: 0 <= i < |ms| && ms[i].replicate !in Replicates(ms)[..i] ==>
        ms[i].replicateFct == NUnique(Replicates(ms)[..i]) + 1)
  {
    NumberedByAppearance(PrepareData(raw, treatment).value);
  }

  /** A table whose clone and replicate codes are the `stan_factorize` codes
      of those columns numbers clones and replicates by first appearance. */
  lemma NumberedByAppearance(ms: seq<Measurement>)
    requires StanFactorize(Clones(ms), None) == Ok(CloneFcts(ms))
    requires StanFactorize(Replicates(ms), None) == Ok(ReplicateFcts(ms))
    ensures forall i :: 0 <= i < |ms| && ms[i].clone !in Clones(ms)[..i] ==>
      ms[i].cloneFct == NUnique(Clones(ms)[..i]) + 1
    ensures forall i :: 0 <= i < |ms| && ms[i].replicate !in Replicates(ms)[..i] ==>
      ms[i].replicateFct == NUnique(Replicates(ms)[..i]) + 1
  {
    ValueAndCodeColumns(ms);
    forall i | 0 <= i < |ms| && ms[i].clone !in Clones(ms)[..i]
      ensures ms[i].cloneFct == NUnique(Clones(ms)[..i]) + 1
    {
      FactorizeFirstAppearance(Clones(ms), CloneFcts(ms), i);
    }
    forall i | 0 <= i < |ms| && ms[i].replicate !in Replicates(ms)[..i]
      ensures ms[i].replicateFct == NUnique(Replicates(ms)[..i]) + 1
    {
      FactorizeFirstAppearance(Replicates(ms), ReplicateFcts(ms), i);
    }
  }

  /** Only the kept rows matter: preparing the selection gives the same table. */
  lemma PrepareSelected(raw: seq<RawRow>, treatment: string)
    ensures PrepareData(Select(raw, treatment), treatment) == PrepareData(raw, treatment)
  {
    SelectIdempotent(raw, treatment);
  }
}

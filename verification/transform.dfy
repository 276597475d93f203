/** `transform` of netcbs/netcbs.py: the hop loop that walks the network tables
    from every sample person, then the aggregation of the characteristics of the
    persons reached, grouped by sample person and left-joined back onto the
    sample. The SQL DuckDB runs is stated with the relational functions of
    `Frames`; persons are identified by RINPERSOON alone. */
module NetcbsTransform {
  import opened Errors
  import opened Python
  import opened Frames
  import Netcbs

  /** `format_path_fn(context, year, cbsdata_path, format_file)`: the path of a
      hop's network file and the relation codes the hop keeps. */
  type Resolver = (string, int, string, string) -> Result<(string, set<int>)>

  /** What `transform` reads besides the query and the two frames: the year, the
      data folder, the file format, the path resolver and the network files by
      path (the rows each would read as). */
  datatype Setting = Setting(year: int, root: string, format: string, resolve: Resolver,
                             files: map<string, seq<Edge<int>>>)

  /** The frame `transform` returns: the sample's columns followed by one column
      per aggregate, and one row per output row. */
  datatype Table = Table(columns: seq<string>, rows: seq<OutRow<int>>)

  /** The " -> " segments of the stripped query, last first. Unlike
      `validate_query`, `transform` does not strip each segment. */
  function Segments(query: string): (r: seq<string>)
    ensures |r| >= 1
  {
    Reverse(Split(Strip(query), " -> "))
  }

  // ---------------------------------------------------------------------------
  // Aggregate columns
  // ---------------------------------------------------------------------------

  /** One cell per (function, variable) pair, all variables of the first function
      first: the order of `for func in agg_funcs for var in var_aggs`. */
  function FuncMajor<T>(funcs: seq<AggFunc>, vars: seq<string>, cell: (AggFunc, string) -> T): (r: seq<T>)
    ensures |r| == |funcs| * |vars|
  {
    if funcs == [] then []
    else
      var rest := FuncMajor(funcs[1..], vars, cell);
      assert |funcs| * |vars| == |vars| + (|funcs| - 1) * |vars|;
      seq(|vars|, j requires 0 <= j < |vars| => cell(funcs[0], vars[j])) + rest
  }

  /** The cell of function `f` and variable `v` sits at `f * |vars| + v`. */
  lemma {:induction false} FuncMajorAt<T>(funcs: seq<AggFunc>, vars: seq<string>, cell: (AggFunc, string) -> T,
                                          f: nat, v: nat)
    requires f < |funcs| && v < |vars|
    ensures f * |vars| + v < |funcs| * |vars|
    ensures FuncMajor(funcs, vars, cell)[f * |vars| + v] == cell(funcs[f], vars[v])
  {
    var n := |vars|;
    var rest := FuncMajor(funcs[1..], vars, cell);
    MulStep(|funcs| - 1, n);
    if f > 0 {
      FuncMajorAt(funcs[1..], vars, cell, f - 1, v);
      MulStep(f - 1, n);
      assert FuncMajor(funcs, vars, cell)[f * n + v] == rest[(f - 1) * n + v];
    }
  }

  /** The names of the aggregate columns, `func_var`. */
  function AggNames(funcs: seq<AggFunc>, vars: seq<string>): seq<string> {
    FuncMajor(funcs, vars, (f: AggFunc, v: string) => FuncName(f) + "_" + v)
  }

  /** The aggregate cells of one group: `func(var)` over the group's rows. */
  function AggCells(funcs: seq<AggFunc>, vars: seq<string>, rows: seq<Record<int>>): seq<Value> {
    FuncMajor(funcs, vars, (f: AggFunc, v: string) => Aggregate(f, Column(rows, v)))
  }

  /** There is one aggregate column per pair of a function and a variable, named
      `func_var`, functions outermost; the cell under that name is the function
      applied to the variable. */
  lemma {:induction false} AggColumns(funcs: seq<AggFunc>, vars: seq<string>, rows: seq<Record<int>>,
                                      f: nat, v: nat)
    requires f < |funcs| && v < |vars|
    ensures |AggNames(funcs, vars)| == |AggCells(funcs, vars, rows)| == |funcs| * |vars|
    ensures f * |vars| + v < |funcs| * |vars|
    ensures AggNames(funcs, vars)[f * |vars| + v] == FuncName(funcs[f]) + "_" + vars[v]
    ensures AggCells(funcs, vars, rows)[f * |vars| + v] == Aggregate(funcs[f], Column(rows, vars[v]))
  {
    FuncMajorAt(funcs, vars, (f: AggFunc, v: string) => FuncName(f) + "_" + v, f, v);
    FuncMajorAt(funcs, vars, (f: AggFunc, v: string) => Aggregate(f, Column(rows, v)), f, v);
  }

  // ---------------------------------------------------------------------------
  // Hops
  // ---------------------------------------------------------------------------

  /** One pass of the hop loop before its join: resolve the hop's file and codes,
      then run the statement that filters the file on `RELATIE IN (codes)`. An
      empty code list makes that `IN ()`, which the SQL grammar has no production
      for, so the statement fails to parse before the file is read. */
  function LoadHop(ctx: string, setting: Setting): (r: Result<Hop<int>>)
    ensures r.Ok? <==> (setting.resolve(ctx, setting.year, setting.root, setting.format).Ok?
      && setting.resolve(ctx, setting.year, setting.root, setting.format).value.1 != {}
      && setting.resolve(ctx, setting.year, setting.root, setting.format).value.0 in setting.files)
    ensures var res := setting.resolve(ctx, setting.year, setting.root, setting.format);
      res.Ok? && res.value.1 == {} ==> r == Err(EmptyTypeList(res.value.0))
    ensures r.Ok? ==> r.value.types == setting.resolve(ctx, setting.year, setting.root, setting.format).value.1
  {
    var (path, types) :- setting.resolve(ctx, setting.year, setting.root, setting.format);
    if types == {} then Err(EmptyTypeList(path))
    else if path in setting.files then Ok(Hop(setting.files[path], types))
    else Err(ReadFailed(path))
  }

  /** The default `format_path_fn`: the package's own `format_path`, over the
      given directory listing. */
  function DefaultResolver(listing: map<string, seq<Netcbs.FileEntry>>): Resolver {
    (ctx, year, root, format) => Netcbs.FormatPath(ctx, year, root, format, listing)
  }

  /** Under the default `format_path_fn`, a hop that fails `_check_context` raises
      that error, and a hop that loads keeps exactly the codes `_check_context`
      allows it and reads the file of the latest version for the year in its
      context's folder. */
  lemma {:induction false} DefaultLoadHop(ctx: string, year: int, root: string, format: string,
                                          listing: map<string, seq<Netcbs.FileEntry>>,
                                          files: map<string, seq<Edge<int>>>)
    ensures var r := LoadHop(ctx, Setting(year, root, format, DefaultResolver(listing), files));
      && (Netcbs.CheckContext(ctx).Err? ==> r == Err(Netcbs.CheckContext(ctx).error))
      && (r.Ok? ==> Netcbs.CheckContext(ctx).Ok? && r.value.types == Netcbs.CheckContext(ctx).value.1)
      && (r.Ok? ==>
            var base := Netcbs.CheckContext(ctx).value.0;
            var dir := Netcbs.Directory(root, base, format);
            exists v ::
              && Netcbs.IsLatest(Netcbs.Listing(listing, dir), IntToString(year), format, v)
              && dir + "/" + Netcbs.FileStem(base, year, v) + "." + format in files
              && r.value.edges == files[dir + "/" + Netcbs.FileStem(base, year, v) + "." + format])
  {
    var setting := Setting(year, root, format, DefaultResolver(listing), files);
    assert setting.resolve(ctx, year, root, format) == Netcbs.FormatPath(ctx, year, root, format, listing);
    if LoadHop(ctx, setting).Ok? {
      Netcbs.FormatPathLatest(ctx, year, root, format, listing);
    }
  }

  /** Under the default `format_path_fn`, a hop that checks to no codes never
      loads: either `format_path` raises, or the hop's statement reads `IN ()`. */
  lemma {:induction false} NoCodesFail(ctx: string, year: int, root: string, format: string,
                                       listing: map<string, seq<Netcbs.FileEntry>>,
                                       files: map<string, seq<Edge<int>>>)
    requires Netcbs.CheckContext(ctx).Ok? && Netcbs.CheckContext(ctx).value.1 == {}
    ensures var fp := Netcbs.FormatPath(ctx, year, root, format, listing);
      var r := LoadHop(ctx, Setting(year, root, format, DefaultResolver(listing), files));
      && (fp.Err? ==> r == Err(fp.error))
      && (fp.Ok? ==> r == Err(EmptyTypeList(fp.value.0)))
  {
    var setting := Setting(year, root, format, DefaultResolver(listing), files);
    assert setting.resolve(ctx, year, root, format) == Netcbs.FormatPath(ctx, year, root, format, listing);
  }

  /** A hop written with an empty code list, such as `Family[]`, checks to no codes
      and so never loads under the default `format_path_fn`. */
  lemma {:induction false} EmptyCodeListFails(base: string, year: int, root: string, format: string,
                                              listing: map<string, seq<Netcbs.FileEntry>>,
                                              files: map<string, seq<Edge<int>>>)
    requires base in Netcbs.ContextToTypes
    ensures LoadHop(base + "[]", Setting(year, root, format, DefaultResolver(listing), files)).Err?
  {
    Netcbs.CheckContextEmpty(base);
    NoCodesFail(base + "[]", year, root, format, listing, files);
  }

  /** The hops of `contexts[1:-1]`, loaded one after another; the first failure
      stops the loop (`Errors.MapEach`). */
  function LoadHops(ctxs: seq<string>, setting: Setting): Result<seq<Hop<int>>> {
    MapEach(ctxs, Loader(setting))
  }

  /** One pass of the hop loop as a function of the hop's segment. */
  function Loader(setting: Setting): string -> Result<Hop<int>> {
    ctx => LoadHop(ctx, setting)
  }

  // ---------------------------------------------------------------------------
  // Aggregation and the final left join
  // ---------------------------------------------------------------------------

  /** The join of the last hop table with the characteristics table. */
  function Reached(sample: seq<Record<int>>, agg: seq<Record<int>>, hops: seq<Hop<int>>): seq<Joined<int>> {
    JoinRecords(Chain(Initial(sample), hops), agg)
  }

  /** The characteristics rows aggregated for sample person `k`: one per path
      through the hops to a person with a characteristics row. */
  function Alters(sample: seq<Record<int>>, agg: seq<Record<int>>, hops: seq<Hop<int>>, k: int): seq<Record<int>> {
    Members(Reached(sample, agg, hops), k)
  }

  /** The `SELECT` list of the `result` view, as a function of a group's rows. */
  function Summarize(funcs: seq<AggFunc>, vars: seq<string>): seq<Record<int>> -> seq<Value> {
    rows => AggCells(funcs, vars, rows)
  }

  /** The two final queries of `transform`: the `result` view joins the last hop
      table with the characteristics table and groups by sample person; the
      final select left-joins it onto the sample. */
  function Aggregated(sample: seq<Record<int>>, last: seq<Link<int>>, agg: seq<Record<int>>,
                      funcs: seq<AggFunc>, vars: seq<string>): seq<OutRow<int>>
  {
    var groups := GroupBy(JoinRecords(last, agg), Summarize(funcs, vars));
    LeftJoin(sample, groups, |funcs| * |vars|)
  }

  /** The rows of the frame `transform` returns after the given hops. */
  function Evaluate(sample: seq<Record<int>>, agg: seq<Record<int>>, hops: seq<Hop<int>>,
                    funcs: seq<AggFunc>, vars: seq<string>): seq<OutRow<int>>
  {
    Aggregated(sample, Chain(Initial(sample), hops), agg, funcs, vars)
  }

  /** A sample person has rows to aggregate exactly when the hops reach some
      person with a characteristics row; every such row belongs to a person the
      hops reach. */
  lemma {:induction false} AltersReached(sample: seq<Record<int>>, agg: seq<Record<int>>, hops: seq<Hop<int>>, i: nat)
    requires i < |sample|
    ensures var k := sample[i].key;
      && (Alters(sample, agg, hops, k) != [] <==> exists rec :: rec in agg && Reaches(hops, k, rec.key))
      && forall rec :: rec in Alters(sample, agg, hops, k) ==> rec in agg && Reaches(hops, k, rec.key)
  {
    InitialLinks(sample);
    assert Link(sample[i].key, sample[i].key) in Initial(sample);
    ReachedMembers(Initial(sample), hops, agg, sample[i].key);
  }

  /** `transform` keeps every sample row, once and in place: each gets the
      aggregates of the rows its hops reach, or NULL in every aggregate column
      (count included) when they reach no person with a characteristics row. */
  lemma {:induction false} EvaluateRows(sample: seq<Record<int>>, agg: seq<Record<int>>, hops: seq<Hop<int>>,
                                        funcs: seq<AggFunc>, vars: seq<string>)
    ensures |Evaluate(sample, agg, hops, funcs, vars)| == |sample|
    ensures forall i :: 0 <= i < |sample| ==>
      Evaluate(sample, agg, hops, funcs, vars)[i] == OutRow(sample[i],
        if Alters(sample, agg, hops, sample[i].key) == [] then Nulls(|funcs| * |vars|)
        else AggCells(funcs, vars, Alters(sample, agg, hops, sample[i].key)))
  {
    var joined := Reached(sample, agg, hops);
    var summarize := Summarize(funcs, vars);
    var groups := GroupBy(joined, summarize);
    var width := |funcs| * |vars|;
    GroupByDistinct(joined, summarize);
    LeftJoinKeepsRows(sample, groups, width);
    forall i | 0 <= i < |sample| {
      GroupLookup(joined, summarize, sample[i].key, width);
    }
  }

  /** When the last hop keeps no row of its file, every sample row survives with
      NULL in every aggregate column. */
  lemma BlockedNulls(sample: seq<Record<int>>, agg: seq<Record<int>>, hops: seq<Hop<int>>,
                     funcs: seq<AggFunc>, vars: seq<string>)
    requires hops != [] && Filter(hops[|hops| - 1].edges, hops[|hops| - 1].types) == []
    ensures |Evaluate(sample, agg, hops, funcs, vars)| == |sample|
    ensures forall i :: 0 <= i < |sample| ==>
      Evaluate(sample, agg, hops, funcs, vars)[i] == OutRow(sample[i], Nulls(|funcs| * |vars|))
  {
    ChainBlocked(Initial(sample), hops);
    assert Reached(sample, agg, hops) == [];
    EvaluateRows(sample, agg, hops, funcs, vars);
  }

  // ---------------------------------------------------------------------------
  // transform
  // ---------------------------------------------------------------------------

  /** The two `_validate_columns` calls of `transform`: the sample needs
      `RINPERSOON`, the characteristics frame `RINPERSOON` and every variable. */
  function RequireColumns(sampleColumns: seq<string>, aggColumns: seq<string>, vars: seq<string>): (r: Result<()>)
    ensures "RINPERSOON" !in sampleColumns ==> r == Err(MissingColumns(["RINPERSOON"]))
  {
    var _ :- Netcbs.ValidateColumns(sampleColumns, ["RINPERSOON"]);
    Netcbs.ValidateColumns(aggColumns, ["RINPERSOON"] + vars)
  }

  /** The column checks pass exactly when both frames have `RINPERSOON` and the
      characteristics frame has every variable. Unlike `validate_query`,
      `transform` lets an empty list of variables through. */
  lemma {:induction false} RequireColumnsOk(sampleColumns: seq<string>, aggColumns: seq<string>, vars: seq<string>)
    ensures RequireColumns(sampleColumns, aggColumns, vars).Ok? <==>
      "RINPERSOON" in sampleColumns && "RINPERSOON" in aggColumns && forall v :: v in vars ==> v in aggColumns
  {
    assert forall c :: c in ["RINPERSOON"] + vars <==> c == "RINPERSOON" || c in vars;
  }

  /** The checks `transform` makes before it reads anything, in the source's
      order: the segment count, the file format, then the columns of both frames;
      on success the aggregation variables the query names. */
  function CheckInputs(contexts: seq<string>, sampleColumns: seq<string>, aggColumns: seq<string>,
                       format: string): (r: Result<seq<string>>)
    ensures |contexts| <= 2 ==> r == Err(TooFewSegments(|contexts|))
    ensures |contexts| > 2 && format != "csv" && format != "parquet" ==> r == Err(BadFormat(format))
    ensures r.Ok? ==> |contexts| >= 3
  {
    if |contexts| <= 2 then Err(TooFewSegments(|contexts|))
    else if format != "csv" && format != "parquet" then Err(BadFormat(format))
    else
      var vars := Netcbs.FormatVarsAgg(contexts[|contexts| - 1]);
      var _ :- RequireColumns(sampleColumns, aggColumns, vars);
      Ok(vars)
  }

  /** What `transform` returns or raises: the checks, then the rest. */
  function TransformSpec(query: string, sample: seq<Record<int>>, sampleColumns: seq<string>,
                         agg: seq<Record<int>>, aggColumns: seq<string>, funcs: seq<AggFunc>,
                         setting: Setting): (r: Result<Table>)
    ensures r.Ok? ==> |Segments(query)| >= 3
  {
    var contexts := Segments(query);
    var vars :- CheckInputs(contexts, sampleColumns, aggColumns, setting.format);
    Finish(contexts, sample, sampleColumns, agg, funcs, vars, setting)
  }

  /** What `transform` returns or raises once the checks pass: the hops between
      the aggregation list and `sample`, then the aggregated frame. */
  function Finish(contexts: seq<string>, sample: seq<Record<int>>, sampleColumns: seq<string>,
                  agg: seq<Record<int>>, funcs: seq<AggFunc>, vars: seq<string>,
                  setting: Setting): (r: Result<Table>)
    requires |contexts| >= 2
    ensures r.Ok? <==> LoadHops(contexts[1..|contexts| - 1], setting).Ok?
  {
    var hops :- LoadHops(contexts[1..|contexts| - 1], setting);
    Ok(Table(sampleColumns + AggNames(funcs, vars), Evaluate(sample, agg, hops, funcs, vars)))
  }

  /** The hop loop of `transform`: starting from the sample, each pass resolves a
      hop's file and codes, reads the file and joins the last hop table with it,
      stopping at the first hop that fails. */
  method RunHops(ctxs: seq<string>, sample: seq<Record<int>>, setting: Setting) returns (r: Result<seq<Link<int>>>)
    ensures r.Ok? <==> LoadHops(ctxs, setting).Ok?
    ensures r.Ok? ==> r.value == Chain(Initial(sample), LoadHops(ctxs, setting).value)
    ensures r.Err? ==> r.error == LoadHops(ctxs, setting).error
  {
    var last := Initial(sample);
    ghost var hops: seq<Hop<int>> := [];
    var i := 0;
    while i < |ctxs|
      invariant i <= |ctxs|
      invariant LoadHops(ctxs[..i], setting) == Ok(hops)
      invariant last == Chain(Initial(sample), hops)
    {
      assert ctxs[..i + 1][..i] == ctxs[..i];
      var loaded := LoadHop(ctxs[i], setting);
      if loaded.Err? {
        MapEachPrefixErr(ctxs, Loader(setting), i + 1);
        return Err(loaded.error);
      }
      assert (hops + [loaded.value])[..|hops|] == hops;
      last := HopJoin(last, loaded.value);
      hops := hops + [loaded.value];
      i := i + 1;
    }
    assert ctxs[..i] == ctxs;
    return Ok(last);
  }

  /** `transform`: checks the query and the columns, runs the hop loop, then
      aggregates over the last hop table and left-joins onto the sample. */
  method Transform(query: string, sample: seq<Record<int>>, sampleColumns: seq<string>,
                   agg: seq<Record<int>>, aggColumns: seq<string>, funcs: seq<AggFunc>,
                   setting: Setting) returns (r: Result<Table>)
    ensures r == TransformSpec(query, sample, sampleColumns, agg, aggColumns, funcs, setting)
  {
    var contexts := Segments(query);
    var checked := CheckInputs(contexts, sampleColumns, aggColumns, setting.format);
    if checked.Err? {
      return Err(checked.error);
    }
    r := RunQuery(contexts, sample, sampleColumns, agg, funcs, checked.value, setting);
  }

  /** The part of `transform` after the checks: the hop loop, the aggregation
      and the left join. */
  method RunQuery(contexts: seq<string>, sample: seq<Record<int>>, sampleColumns: seq<string>,
                  agg: seq<Record<int>>, funcs: seq<AggFunc>, vars: seq<string>,
                  setting: Setting) returns (r: Result<Table>)
    requires |contexts| >= 2
    ensures r == Finish(contexts, sample, sampleColumns, agg, funcs, vars, setting)
  {
    var last :- RunHops(contexts[1..|contexts| - 1], sample, setting);
    return Ok(Table(sampleColumns + AggNames(funcs, vars), Aggregated(sample, last, agg, funcs, vars)));
  }
}

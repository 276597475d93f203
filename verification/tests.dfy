/** The two examples of tests/test_netcbs.py: three sample persons, each linked by
    two family edges (code 301) to two persons with an income. */
module NetcbsTests {
  import opened Errors
  import opened Python
  import opened Frames
  import opened NetcbsTransform
  import Netcbs

  function Person(k: int): Record<int> {
    Record(k, map[])
  }

  function Earner(k: int, income: int): Record<int> {
    Record(k, map["Income" := Int(income)])
  }

  /** The two family edges of person `p`. */
  function Pair(p: int, a: int, b: int, code: int): seq<Edge<int>> {
    [Edge(p, a, code), Edge(p, b, code)]
  }

  function Sample(): seq<Record<int>> {
    [Person(1), Person(2), Person(3)]
  }

  /** The characteristics frame of persons 10, 11, 12, 20, 21 and 22 with the
      given incomes. */
  function Incomes(x: seq<int>): seq<Record<int>>
    requires |x| == 6
  {
    [Earner(10, x[0]), Earner(11, x[1]), Earner(12, x[2]),
     Earner(20, x[3]), Earner(21, x[4]), Earner(22, x[5])]
  }

  function Family(code: int): seq<Edge<int>> {
    Pair(1, 10, 11, code) + Pair(2, 20, 21, code) + Pair(3, 12, 22, code)
  }

  lemma PairFanout(l: Link<int>, p: int, a: int, b: int, code: int)
    ensures Fanout(l, Pair(p, a, b, code)) == if l.current == p then [Link(l.origin, a), Link(l.origin, b)] else []
  {
    assert Pair(p, a, b, code)[1..] == [Edge(p, b, code)];
  }

  lemma FanoutThree(l: Link<int>, a: seq<Edge<int>>, b: seq<Edge<int>>, c: seq<Edge<int>>)
    ensures Fanout(l, a + b + c) == Fanout(l, a) + Fanout(l, b) + Fanout(l, c)
  {
    FanoutAppend(l, a + b, c);
    FanoutAppend(l, a, b);
  }

  lemma FamilyFanout(p: int, code: int)
    requires p in {1, 2, 3}
    ensures Fanout(Link(p, p), Family(code)) ==
      if p == 1 then Block(1, 10, 11) else if p == 2 then Block(2, 20, 21) else Block(3, 12, 22)
  {
    var l := Link(p, p);
    FanoutThree(l, Pair(1, 10, 11, code), Pair(2, 20, 21, code), Pair(3, 12, 22, code));
    PairFanout(l, 1, 10, 11, code);
    PairFanout(l, 2, 20, 21, code);
    PairFanout(l, 3, 12, 22, code);
    if p == 1 {
      assert Block(1, 10, 11) + [] + [] == Block(1, 10, 11);
    } else if p == 2 {
      assert [] + Block(2, 20, 21) + [] == Block(2, 20, 21);
    } else {
      assert [] + [] + Block(3, 12, 22) == Block(3, 12, 22);
    }
  }

  /** The link table after the hop: each sample person with its two relatives. */
  function Block(p: int, a: int, b: int): seq<Link<int>> {
    [Link(p, a), Link(p, b)]
  }

  lemma FamilyKept(code: int)
    ensures Filter(Family(code), {code}) == Family(code)
  {
    assert forall i :: 0 <= i < |Family(code)| ==> Family(code)[i].relation == code;
    FilterKeepsAll(Family(code), {code});
  }

  lemma StepOne(l: Link<int>, edges: seq<Edge<int>>)
    ensures Step([l], edges) == Fanout(l, edges)
  {
    assert [l][1..] == [];
  }

  lemma StepThree(l1: Link<int>, l2: Link<int>, l3: Link<int>, edges: seq<Edge<int>>)
    ensures Step([l1, l2, l3], edges) == Fanout(l1, edges) + Fanout(l2, edges) + Fanout(l3, edges)
  {
    assert [l1, l2, l3] == [l1] + ([l2] + [l3]);
    StepAppend([l1], [l2] + [l3], edges);
    StepAppend([l2], [l3], edges);
    StepOne(l1, edges);
    StepOne(l2, edges);
    StepOne(l3, edges);
  }

  lemma InitialSample()
    ensures Initial(Sample()) == [Link(1, 1), Link(2, 2), Link(3, 3)]
  {
  }

  lemma FamilyStep(code: int)
    ensures Step(Initial(Sample()), Family(code)) == Block(1, 10, 11) + Block(2, 20, 21) + Block(3, 12, 22)
  {
    InitialSample();
    StepThree(Link(1, 1), Link(2, 2), Link(3, 3), Family(code));
    FamilyFanout(1, code);
    FamilyFanout(2, code);
    FamilyFanout(3, code);
  }

  lemma FamilyLinks(code: int)
    ensures Chain(Initial(Sample()), [Hop(Family(code), {code})]) ==
      Block(1, 10, 11) + Block(2, 20, 21) + Block(3, 12, 22)
  {
    assert [Hop(Family(code), {code})][..0] == [];
    FamilyKept(code);
    FamilyStep(code);
  }

  /** A link matches the one characteristics row whose key is its current person. */
  lemma {:induction false} MatchUnique(l: Link<int>, records: seq<Record<int>>, i: nat)
    requires i < |records| && records[i].key == l.current
    requires forall j :: 0 <= j < |records| && j != i ==> records[j].key != l.current
    ensures MatchRecords(l, records) == [Joined(l.origin, records[i])]
    decreases |records|
  {
    if i == 0 {
      forall j | 0 <= j < |records[1..]|
        ensures records[1..][j].key != l.current
      {
        assert records[1..][j] == records[j + 1];
      }
      NoMatch(l, records[1..]);
    } else {
      forall j | 0 <= j < |records[1..]| && j != i - 1
        ensures records[1..][j].key != l.current
      {
        assert records[1..][j] == records[j + 1];
      }
      MatchUnique(l, records[1..], i - 1);
    }
  }

  lemma {:induction false} NoMatch(l: Link<int>, records: seq<Record<int>>)
    requires forall j :: 0 <= j < |records| ==> records[j].key != l.current
    ensures MatchRecords(l, records) == []
    decreases |records|
  {
    if records != [] {
      forall j | 0 <= j < |records[1..]|
        ensures records[1..][j].key != l.current
      {
        assert records[1..][j] == records[j + 1];
      }
      NoMatch(l, records[1..]);
    }
  }

  /** The joined rows of one sample person and its two relatives. */
  function Pairs(p: int, r: Record<int>, s: Record<int>): seq<Joined<int>> {
    [Joined(p, r), Joined(p, s)]
  }

  lemma JoinTwo(p: int, a: int, b: int, records: seq<Record<int>>)
    ensures JoinRecords(Block(p, a, b), records) == MatchRecords(Link(p, a), records) + MatchRecords(Link(p, b), records)
  {
    assert Block(p, a, b)[1..] == [Link(p, b)];
    assert [Link(p, b)][1..] == [];
    assert JoinRecords([Link(p, b)], records) == MatchRecords(Link(p, b), records) + [];
  }

  lemma JoinBlock(p: int, a: int, b: int, records: seq<Record<int>>, i: nat, j: nat)
    requires i < |records| && records[i].key == a
    requires forall k :: 0 <= k < |records| && k != i ==> records[k].key != a
    requires j < |records| && records[j].key == b
    requires forall k :: 0 <= k < |records| && k != j ==> records[k].key != b
    ensures JoinRecords(Block(p, a, b), records) == Pairs(p, records[i], records[j])
  {
    JoinTwo(p, a, b, records);
    MatchUnique(Link(p, a), records, i);
    MatchUnique(Link(p, b), records, j);
    assert [Joined(p, records[i])] + [Joined(p, records[j])] == Pairs(p, records[i], records[j]);
  }

  /** Each relative has exactly one characteristics row. */
  lemma JoinedBlock1(x: seq<int>)
    requires |x| == 6
    ensures JoinRecords(Block(1, 10, 11), Incomes(x)) == Pairs(1, Earner(10, x[0]), Earner(11, x[1]))
  {
    JoinBlock(1, 10, 11, Incomes(x), 0, 1);
  }

  lemma JoinedBlock2(x: seq<int>)
    requires |x| == 6
    ensures JoinRecords(Block(2, 20, 21), Incomes(x)) == Pairs(2, Earner(20, x[3]), Earner(21, x[4]))
  {
    JoinBlock(2, 20, 21, Incomes(x), 3, 4);
  }

  lemma JoinedBlock3(x: seq<int>)
    requires |x| == 6
    ensures JoinRecords(Block(3, 12, 22), Incomes(x)) == Pairs(3, Earner(12, x[2]), Earner(22, x[5]))
  {
    JoinBlock(3, 12, 22, Incomes(x), 2, 5);
  }

  lemma FamilyJoined(code: int, x: seq<int>)
    requires |x| == 6
    ensures JoinRecords(Chain(Initial(Sample()), [Hop(Family(code), {code})]), Incomes(x)) == FamilyPairs(x)
  {
    var incomes := Incomes(x);
    FamilyLinks(code);
    JoinRecordsAppend(Block(1, 10, 11) + Block(2, 20, 21), Block(3, 12, 22), incomes);
    JoinRecordsAppend(Block(1, 10, 11), Block(2, 20, 21), incomes);
    JoinedBlock1(x);
    JoinedBlock2(x);
    JoinedBlock3(x);
  }

  lemma MembersPairs(q: int, r: Record<int>, s: Record<int>, k: int)
    ensures Members(Pairs(q, r, s), k) == if q == k then [r, s] else []
  {
    assert Pairs(q, r, s)[1..] == [Joined(q, s)];
    assert [Joined(q, s)][1..] == [];
    assert Members([Joined(q, s)], k) == (if q == k then [s] else []) + [];
    assert (if q == k then [r] else []) + (if q == k then [s] else []) == if q == k then [r, s] else [];
  }

  /** The relatives with an income that sample person `p` reaches. */
  function Relatives(p: int, x: seq<int>): seq<Record<int>>
    requires |x| == 6
  {
    if p == 1 then [Earner(10, x[0]), Earner(11, x[1])]
    else if p == 2 then [Earner(20, x[3]), Earner(21, x[4])]
    else [Earner(12, x[2]), Earner(22, x[5])]
  }

  lemma MembersThree(a: seq<Joined<int>>, b: seq<Joined<int>>, c: seq<Joined<int>>, k: int)
    ensures Members(a + b + c, k) == Members(a, k) + Members(b, k) + Members(c, k)
  {
    MembersAppend(a + b, c, k);
    MembersAppend(a, b, k);
  }

  /** The joined rows after the hop. */
  function FamilyPairs(x: seq<int>): seq<Joined<int>>
    requires |x| == 6
  {
    Pairs(1, Earner(10, x[0]), Earner(11, x[1])) + Pairs(2, Earner(20, x[3]), Earner(21, x[4]))
      + Pairs(3, Earner(12, x[2]), Earner(22, x[5]))
  }

  lemma FamilyMembers(x: seq<int>, p: int)
    requires |x| == 6 && p in {1, 2, 3}
    ensures Members(FamilyPairs(x), p) == Relatives(p, x)
  {
    var m1 := Members(Pairs(1, Earner(10, x[0]), Earner(11, x[1])), p);
    var m2 := Members(Pairs(2, Earner(20, x[3]), Earner(21, x[4])), p);
    var m3 := Members(Pairs(3, Earner(12, x[2]), Earner(22, x[5])), p);
    MembersThree(Pairs(1, Earner(10, x[0]), Earner(11, x[1])), Pairs(2, Earner(20, x[3]), Earner(21, x[4])),
                 Pairs(3, Earner(12, x[2]), Earner(22, x[5])), p);
    MembersPairs(1, Earner(10, x[0]), Earner(11, x[1]), p);
    MembersPairs(2, Earner(20, x[3]), Earner(21, x[4]), p);
    MembersPairs(3, Earner(12, x[2]), Earner(22, x[5]), p);
    assert m1 == if p == 1 then Relatives(p, x) else [];
    assert m2 == if p == 2 then Relatives(p, x) else [];
    assert m3 == if p == 3 then Relatives(p, x) else [];
    Concat3(m1, m2, m3, Relatives(p, x));
  }

  /** Two of three empty sequences leave the third. */
  lemma Concat3<T>(a: seq<T>, b: seq<T>, c: seq<T>, r: seq<T>)
    requires (a == r && b == [] && c == []) || (a == [] && b == r && c == []) || (a == [] && b == [] && c == r)
    ensures a + b + c == r
  {
  }

  lemma FamilyAlters(code: int, x: seq<int>, p: int)
    requires |x| == 6 && p in {1, 2, 3}
    ensures Alters(Sample(), Incomes(x), [Hop(Family(code), {code})], p) == Relatives(p, x)
  {
    FamilyJoined(code, x);
    FamilyMembers(x, p);
  }

  /** `sum(Income)` and `count(Income)` over two rows with an income. */
  lemma SumCount(a: int, y: int, b: int, z: int)
    ensures AggCells([Sum, Count], ["Income"], [Earner(a, y), Earner(b, z)]) == [Int(y + z), Int(2)]
  {
    var rows := [Earner(a, y), Earner(b, z)];
    AggColumns([Sum, Count], ["Income"], rows, 0, 0);
    AggColumns([Sum, Count], ["Income"], rows, 1, 0);
    var vals := Column(rows, "Income");
    assert vals == [Int(y), Int(z)];
    assert vals[1..] == [Int(z)];
    assert vals[1..][1..] == [];
    assert Present(vals[1..]) == [z] + [];
    assert Present(vals) == [y] + [z];
    assert [y, z][1..] == [z];
    assert [z][1..] == [];
    assert Total([z]) == z + 0;
    var cells := AggCells([Sum, Count], ["Income"], rows);
    assert cells == [cells[0], cells[1]];
  }

  /** The rows the first example expects: each sample person with the sum of its
      two relatives' incomes and a count of two. */
  function OneHopRows(x: seq<int>): seq<OutRow<int>>
    requires |x| == 6
  {
    [OutRow(Person(1), [Int(x[0] + x[1]), Int(2)]),
     OutRow(Person(2), [Int(x[3] + x[4]), Int(2)]),
     OutRow(Person(3), [Int(x[2] + x[5]), Int(2)])]
  }

  /** The first example, for any relation code and any incomes: one hop through
      the family file gives each sample person the sum over its two relatives and
      a count of two (the source asserts the average, sum / count). */
  lemma OneHopSums(code: int, x: seq<int>)
    requires |x| == 6
    ensures Evaluate(Sample(), Incomes(x), [Hop(Family(code), {code})], [Sum, Count], ["Income"]) == OneHopRows(x)
  {
    var out := Evaluate(Sample(), Incomes(x), [Hop(Family(code), {code})], [Sum, Count], ["Income"]);
    forall i | 0 <= i < 3
      ensures |out| == 3 && out[i] == OneHopRows(x)[i]
    {
      FamilyRow(code, x, i);
    }
    FamilyRow(code, x, 0);
    assert |OneHopRows(x)| == 3;
  }

  /** Each sample row gets the sum and count of the relatives it reaches. */
  lemma FamilyRow(code: int, x: seq<int>, i: nat)
    requires |x| == 6 && i < 3
    ensures |Evaluate(Sample(), Incomes(x), [Hop(Family(code), {code})], [Sum, Count], ["Income"])| == 3
    ensures Evaluate(Sample(), Incomes(x), [Hop(Family(code), {code})], [Sum, Count], ["Income"])[i] ==
      OneHopRows(x)[i]
  {
    assert Sample()[i] == Person(i + 1);
    FamilyAlters(code, x, i + 1);
    RowOf(Sample(), Incomes(x), [Hop(Family(code), {code})], [Sum, Count], ["Income"], i);
    RelativesSums(x);
  }

  lemma RelativesSums(x: seq<int>)
    requires |x| == 6
    ensures AggCells([Sum, Count], ["Income"], Relatives(1, x)) == [Int(x[0] + x[1]), Int(2)]
    ensures AggCells([Sum, Count], ["Income"], Relatives(2, x)) == [Int(x[3] + x[4]), Int(2)]
    ensures AggCells([Sum, Count], ["Income"], Relatives(3, x)) == [Int(x[2] + x[5]), Int(2)]
  {
    SumCount(10, x[0], 11, x[1]);
    SumCount(20, x[3], 21, x[4]);
    SumCount(12, x[2], 22, x[5]);
  }

  lemma RowOf(sample: seq<Record<int>>, agg: seq<Record<int>>, hops: seq<Hop<int>>,
              funcs: seq<AggFunc>, vars: seq<string>, i: nat)
    requires i < |sample| && Alters(sample, agg, hops, sample[i].key) != []
    ensures |Evaluate(sample, agg, hops, funcs, vars)| == |sample|
    ensures Evaluate(sample, agg, hops, funcs, vars)[i] ==
      OutRow(sample[i], AggCells(funcs, vars, Alters(sample, agg, hops, sample[i].key)))
  {
    EvaluateRows(sample, agg, hops, funcs, vars);
  }

  /** The second example: when the hop keeps a code no edge carries, every sample
      row is kept and every aggregate is NULL. */
  lemma NoLinksNulls(code: int, other: int, x: seq<int>)
    requires |x| == 6 && other != code
    ensures |Evaluate(Sample(), Incomes(x), [Hop(Family(code), {other})], [Sum, Count], ["Income"])| == 3
    ensures forall i :: 0 <= i < 3 ==>
      Evaluate(Sample(), Incomes(x), [Hop(Family(code), {other})], [Sum, Count], ["Income"])[i].aggs == [Null, Null]
  {
    FilterKeepsNone(Family(code), {other});
    BlockedNulls(Sample(), Incomes(x), [Hop(Family(code), {other})], [Sum, Count], ["Income"]);
    assert Nulls(2) == [Null, Null];
  }

  /** test_transform_one_hop_avg_income: incomes 1000 to 6000 and code 301 give
      the sums 3000, 9000 and 9000 over two relatives each, the averages 1500,
      4500 and 4500 the test expects. */
  lemma OneHopExample()
    ensures Evaluate(Sample(), Incomes([1000, 2000, 3000, 4000, 5000, 6000]), [Hop(Family(301), {301})],
                     [Sum, Count], ["Income"]) ==
      [OutRow(Person(1), [Int(3000), Int(2)]),
       OutRow(Person(2), [Int(9000), Int(2)]),
       OutRow(Person(3), [Int(9000), Int(2)])]
  {
    OneHopSums(301, [1000, 2000, 3000, 4000, 5000, 6000]);
  }

  /** test_transform_preserves_sample_rows_when_no_links: the hop keeps code 999,
      which no edge carries; the three sample rows stay and every aggregate is
      NULL. */
  lemma NoLinksExample()
    ensures |Evaluate(Sample(), Incomes([1000, 2000, 3000, 4000, 5000, 6000]), [Hop(Family(301), {999})],
                      [Sum, Count], ["Income"])| == 3
    ensures forall i :: 0 <= i < 3 ==>
      Evaluate(Sample(), Incomes([1000, 2000, 3000, 4000, 5000, 6000]), [Hop(Family(301), {999})],
               [Sum, Count], ["Income"])[i].aggs == [Null, Null]
  {
    NoLinksNulls(301, 999, [1000, 2000, 3000, 4000, 5000, 6000]);
  }

  // ---------------------------------------------------------------------------
  // The same examples through `transform`
  // ---------------------------------------------------------------------------

  /** The query of the examples, `[Income] -> <hop> -> sample`. */
  function Query(hop: string): string {
    "[Income]" + (" -> " + (hop + (" -> " + "sample")))
  }

  /** A three-part query whose parts hold no `>` splits into its parts. */
  lemma SplitThree(a: string, b: string, c: string)
    requires '>' !in a && '>' !in b && '>' !in c
    ensures Split(a + (" -> " + (b + (" -> " + c))), " -> ") == [a, b, c]
  {
    var sep := " -> ";
    assert sep[2] == '>' && sep[0] != '>' && sep[1] != '>' && sep[3] != '>';
    assert a + (sep + (b + (sep + c))) == a + sep + (b + (sep + c));
    assert b + (sep + c) == b + sep + c;
    SplitFirst(a, sep, b + (sep + c), 2);
    SplitFirst(b, sep, c, 2);
    MissingCharNotContains(c, sep, 2);
    SplitNoSeparator(c, sep);
  }

  lemma ThreeSegments(a: string, b: string, c: string)
    requires a != [] && a[0] !in Whitespace && c != [] && c[|c| - 1] !in Whitespace
    requires '>' !in a && '>' !in b && '>' !in c
    ensures Segments(a + (" -> " + (b + (" -> " + c)))) == [c, b, a]
  {
    var q := a + (" -> " + (b + (" -> " + c)));
    assert q[0] == a[0] && q[|q| - 1] == c[|c| - 1];
    StripTrimmed(q);
    SplitThree(a, b, c);
  }

  lemma QuerySegments(hop: string)
    requires '>' !in hop
    ensures Segments(Query(hop)) == ["sample", hop, "[Income]"]
  {
    ThreeSegments("[Income]", hop, "sample");
  }

  /** The aggregation list `[a, b]` names `a` and `b`. */
  lemma VarsExample()
    ensures Netcbs.FormatVarsAgg("[a, b]") == ["a", "b"]
  {
    assert "[a, b]" == "[" + "a" + ", " + "b" + "]";
    Netcbs.FormatVarsAggSpaced("a", "b");
  }

  /** The test's `fake_format_path`: every hop reads `hop.parquet` and keeps the
      code `keep`; the file holds `edges`. */
  function FakeSetting(edges: seq<Edge<int>>, keep: int): Setting {
    Setting(2020, "X", "parquet", (ctx: string, year: int, root: string, format: string) => Ok(("hop.parquet", {keep})),
            map["hop.parquet" := edges])
  }

  /** The checks of `transform` pass on any query ending in `[Income]`, with the
      test's columns. */
  lemma ExampleInputs(contexts: seq<string>)
    requires |contexts| >= 3 && contexts[|contexts| - 1] == "[Income]"
    ensures CheckInputs(contexts, ["RINPERSOON"], ["RINPERSOON", "Income"], "parquet") == Ok(["Income"])
  {
    assert "[" + Join(["Income"], ",") + "]" == "[Income]";
    Netcbs.FormatVarsAggRoundTrip(["Income"]);
    RequireColumnsOk(["RINPERSOON"], ["RINPERSOON", "Income"], ["Income"]);
  }

  /** A single hop segment loads to the one hop it resolves to. */
  lemma LoadOne(ctx: string, setting: Setting, hop: Hop<int>)
    requires LoadHop(ctx, setting) == Ok(hop)
    ensures LoadHops([ctx], setting) == Ok([hop])
  {
    assert [ctx][..0] == [];
    assert LoadHops([], setting) == Ok([]);
    assert [] + [hop] == [hop];
  }

  lemma ExampleHops(ctx: string, edges: seq<Edge<int>>, keep: int)
    ensures LoadHops([ctx], FakeSetting(edges, keep)) == Ok([Hop(edges, {keep})])
  {
    var s := FakeSetting(edges, keep);
    assert s.resolve(ctx, s.year, s.root, s.format) == Ok(("hop.parquet", {keep}));
    assert "hop.parquet" in s.files;
    LoadOne(ctx, s, Hop(edges, {keep}));
  }

  lemma ExampleNames()
    ensures AggNames([Sum, Count], ["Income"]) == ["sum_Income", "count_Income"]
  {
    var names := AggNames([Sum, Count], ["Income"]);
    AggColumns([Sum, Count], ["Income"], [], 0, 0);
    AggColumns([Sum, Count], ["Income"], [], 1, 0);
    assert names[0] == "sum" + "_" + "Income";
    assert names[1] == "count" + "_" + "Income";
    assert |names| == 2;
    assert "sum" + "_" + "Income" == "sum_Income";
    assert "count" + "_" + "Income" == "count_Income";
  }

  /** Once the checks pass with `vars`, `transform` goes on to `Finish`. */
  lemma ChecksPass(query: string, sample: seq<Record<int>>, sampleColumns: seq<string>,
                   agg: seq<Record<int>>, aggColumns: seq<string>, funcs: seq<AggFunc>,
                   setting: Setting, vars: seq<string>)
    requires CheckInputs(Segments(query), sampleColumns, aggColumns, setting.format) == Ok(vars)
    ensures TransformSpec(query, sample, sampleColumns, agg, aggColumns, funcs, setting) ==
      Finish(Segments(query), sample, sampleColumns, agg, funcs, vars, setting)
  {
  }

  /** Once the hops load, `Finish` returns the evaluated table. */
  lemma HopsLoad(contexts: seq<string>, sample: seq<Record<int>>, sampleColumns: seq<string>,
                 agg: seq<Record<int>>, funcs: seq<AggFunc>, vars: seq<string>,
                 setting: Setting, hops: seq<Hop<int>>)
    requires |contexts| >= 2 && LoadHops(contexts[1..|contexts| - 1], setting) == Ok(hops)
    ensures Finish(contexts, sample, sampleColumns, agg, funcs, vars, setting) ==
      Ok(Table(sampleColumns + AggNames(funcs, vars), Evaluate(sample, agg, hops, funcs, vars)))
  {
  }

  /** The checks pass on a query with the test's segments, so `transform` goes on
      to load its hops. */
  lemma ExampleChecks(query: string, sample: seq<Record<int>>, agg: seq<Record<int>>,
                      edges: seq<Edge<int>>, keep: int)
    requires |Segments(query)| == 3 && Segments(query)[2] == "[Income]"
    ensures TransformSpec(query, sample, ["RINPERSOON"], agg, ["RINPERSOON", "Income"], [Sum, Count],
                          FakeSetting(edges, keep)) ==
      Finish(Segments(query), sample, ["RINPERSOON"], agg, [Sum, Count], ["Income"], FakeSetting(edges, keep))
  {
    ExampleInputs(Segments(query));
    ChecksPass(query, sample, ["RINPERSOON"], agg, ["RINPERSOON", "Income"], [Sum, Count],
               FakeSetting(edges, keep), ["Income"]);
  }

  /** The one hop of a three-segment query loads, and the table follows. */
  lemma ExampleFinish(contexts: seq<string>, sample: seq<Record<int>>, agg: seq<Record<int>>,
                      edges: seq<Edge<int>>, keep: int)
    requires |contexts| == 3
    ensures Finish(contexts, sample, ["RINPERSOON"], agg, [Sum, Count], ["Income"], FakeSetting(edges, keep)) ==
      Ok(Table(["RINPERSOON", "sum_Income", "count_Income"],
               Evaluate(sample, agg, [Hop(edges, {keep})], [Sum, Count], ["Income"])))
  {
    assert contexts[1..|contexts| - 1] == [contexts[1]];
    ExampleHops(contexts[1], edges, keep);
    HopsLoad(contexts, sample, ["RINPERSOON"], agg, [Sum, Count], ["Income"],
             FakeSetting(edges, keep), [Hop(edges, {keep})]);
    ExampleNames();
    assert ["RINPERSOON"] + ["sum_Income", "count_Income"] == ["RINPERSOON", "sum_Income", "count_Income"];
  }

  /** `transform` on a query with the test's three segments: the result is the
      sample's columns and `sum_Income`, `count_Income` over the evaluated rows. */
  lemma TransformOf(query: string, sample: seq<Record<int>>, agg: seq<Record<int>>,
                    edges: seq<Edge<int>>, keep: int)
    requires |Segments(query)| == 3 && Segments(query)[2] == "[Income]"
    ensures TransformSpec(query, sample, ["RINPERSOON"], agg, ["RINPERSOON", "Income"], [Sum, Count],
                          FakeSetting(edges, keep)) ==
      Ok(Table(["RINPERSOON", "sum_Income", "count_Income"],
               Evaluate(sample, agg, [Hop(edges, {keep})], [Sum, Count], ["Income"])))
  {
    ExampleChecks(query, sample, agg, edges, keep);
    ExampleFinish(Segments(query), sample, agg, edges, keep);
  }

  /** test_transform_one_hop_avg_income, through `transform`. */
  lemma TransformOneHop()
    ensures TransformSpec(Query("Family[301]"), Sample(), ["RINPERSOON"], Incomes([1000, 2000, 3000, 4000, 5000, 6000]),
                          ["RINPERSOON", "Income"], [Sum, Count], FakeSetting(Family(301), 301)) ==
      Ok(Table(["RINPERSOON", "sum_Income", "count_Income"],
               [OutRow(Person(1), [Int(3000), Int(2)]),
                OutRow(Person(2), [Int(9000), Int(2)]),
                OutRow(Person(3), [Int(9000), Int(2)])]))
  {
    QuerySegments("Family[301]");
    TransformOf(Query("Family[301]"), Sample(), Incomes([1000, 2000, 3000, 4000, 5000, 6000]), Family(301), 301);
    OneHopExample();
  }

  /** test_transform_preserves_sample_rows_when_no_links, through `transform`. */
  lemma TransformNoLinks()
    ensures var r := TransformSpec(Query("Family[999]"), Sample(), ["RINPERSOON"], Incomes([1000, 2000, 3000, 4000, 5000, 6000]),
                                   ["RINPERSOON", "Income"], [Sum, Count], FakeSetting(Family(301), 999));
      && r.Ok? && r.value.columns == ["RINPERSOON", "sum_Income", "count_Income"] && |r.value.rows| == 3
      && forall i :: 0 <= i < 3 ==> r.value.rows[i].aggs == [Null, Null]
  {
    QuerySegments("Family[999]");
    TransformOf(Query("Family[999]"), Sample(), Incomes([1000, 2000, 3000, 4000, 5000, 6000]), Family(301), 999);
    NoLinksExample();
  }
}

/** The relational meaning of what netCBS asks its table engines (DuckDB in the
    current package, polars in the legacy module) to do, stated over sequences of
    records. The key type `K` is the person identifier: RINPERSOON alone in the
    current package, the pair (RINPERSOON, RINPERSOONS) in the legacy module. Every
    join here is a multiset join: duplicate rows on either side multiply. */
module Frames {
  import opened Errors
  import Python

  /** A cell of a characteristics table: SQL NULL or an integer. */
  datatype Value = Null | Int(i: int)

  /** A row of a person-level table (the sample or the characteristics table): the
      value of its identifier column(s) and the other cells by column name. */
  datatype Record<K> = Record(key: K, cells: map<string, Value>)

  function Get<K(==,!new)>(r: Record<K>, column: string): Value {
    if column in r.cells then r.cells[column] else Null
  }

  /** A row of a relationship file: RINPERSOON (ego), RINPERSOONRELATIE (alter) and
      the RELATIE code. */
  datatype Edge<K> = Edge(ego: K, alter: K, relation: int)

  /** A row of the accumulated hop table: the sample person it started from
      (RINPERSOONsample) and the person reached so far (RINPERSOON). */
  datatype Link<K> = Link(origin: K, current: K)

  /** One hop: the rows of a relationship file and the codes the hop keeps. */
  datatype Hop<K> = Hop(edges: seq<Edge<K>>, types: set<int>)

  // ---------------------------------------------------------------------------
  // Filtering and hop joins
  // ---------------------------------------------------------------------------

  /** `WHERE RELATIE IN (types)`: keeps every row whose code is in `types`, with
      its multiplicity, and no other row. */
  function Filter<K(==,!new)>(edges: seq<Edge<K>>, types: set<int>): (r: seq<Edge<K>>)
    ensures forall e :: multiset(r)[e] == if e.relation in types then multiset(edges)[e] else 0
    ensures forall e :: e in r <==> e in edges && e.relation in types
  {
    if edges == [] then []
    else
      assert edges == [edges[0]] + edges[1..];
      (if edges[0].relation in types then [edges[0]] else []) + Filter(edges[1..], types)
  }
  /** A filter that every row passes keeps the table as it is. */
  lemma {:induction false} FilterKeepsAll<K(!new)>(edges: seq<Edge<K>>, types: set<int>)
    requires forall i :: 0 <= i < |edges| ==> edges[i].relation in types
    ensures Filter(edges, types) == edges
  {
    if edges != [] {
      FilterKeepsAll(edges[1..], types);
    }
  }

  /** A filter that no row passes leaves nothing. */
  lemma {:induction false} FilterKeepsNone<K(!new)>(edges: seq<Edge<K>>, types: set<int>)
    requires forall i :: 0 <= i < |edges| ==> edges[i].relation !in types
    ensures Filter(edges, types) == []
  {
    if edges != [] {
      FilterKeepsNone(edges[1..], types);
    }
  }


  /** The number of rows of `edges` whose ego is `x`. */
  function Degree<K(==,!new)>(x: K, edges: seq<Edge<K>>): nat {
    if edges == [] then 0
    else (if edges[0].ego == x then 1 else 0) + Degree(x, edges[1..])
  }

  /** The number of rows of `edges` from `x` to `a`. */
  function Arcs<K(==,!new)>(x: K, a: K, edges: seq<Edge<K>>): nat {
    if edges == [] then 0
    else (if edges[0].ego == x && edges[0].alter == a then 1 else 0) + Arcs(x, a, edges[1..])
  }

  /** The rows one accumulated row joins with: one new link per edge leaving its
      current person, duplicates included. */
  function Fanout<K(==,!new)>(l: Link<K>, edges: seq<Edge<K>>): (r: seq<Link<K>>)
    ensures |r| == Degree(l.current, edges)
    ensures forall x :: x in r ==> x.origin == l.origin
    ensures forall a :: Link(l.origin, a) in r <==> exists e :: e in edges && e.ego == l.current && e.alter == a
  {
    if edges == [] then []
    else
      var rest := Fanout(l, edges[1..]);
      assert forall e :: e in edges <==> e == edges[0] || e in edges[1..];
      if edges[0].ego == l.current then [Link(l.origin, edges[0].alter)] + rest else rest
  }

  /** `Fanout` yields (origin, a) once per edge from the current person to `a`. */
  lemma {:induction false} FanoutCount<K(!new)>(l: Link<K>, edges: seq<Edge<K>>, a: K)
    ensures multiset(Fanout(l, edges))[Link(l.origin, a)] == Arcs(l.current, a, edges)
  {
    if edges != [] {
      FanoutCount(l, edges[1..], a);
    }
  }

  /** The inner join of the accumulated rows with a relationship table on
      current person = ego, projected to (origin, alter). */
  function Step<K(==,!new)>(links: seq<Link<K>>, edges: seq<Edge<K>>): seq<Link<K>> {
    if links == [] then [] else Fanout(links[0], edges) + Step(links[1..], edges)
  }

  /** The sum of the degrees of the current persons of `links`. */
  function TotalDegree<K(==,!new)>(links: seq<Link<K>>, edges: seq<Edge<K>>): nat {
    if links == [] then 0 else Degree(links[0].current, edges) + TotalDegree(links[1..], edges)
  }

  /** The join keeps duplicates: every accumulated row contributes one row per
      matching edge, however often the same (origin, alter) pair results. */
  lemma {:induction false} StepSize<K(!new)>(links: seq<Link<K>>, edges: seq<Edge<K>>)
    ensures |Step(links, edges)| == TotalDegree(links, edges)
  {
    if links != [] {
      StepSize(links[1..], edges);
    }
  }

  /** (o, a) is produced exactly when some accumulated row starting at `o` stands on
      the ego of an edge leading to `a`. */
  lemma {:induction false} StepMembers<K(!new)>(links: seq<Link<K>>, edges: seq<Edge<K>>, o: K, a: K)
    ensures Link(o, a) in Step(links, edges) <==>
      exists l, e :: l in links && e in edges && l.origin == o && e.ego == l.current && e.alter == a
  {
    if links != [] {
      StepMembers(links[1..], edges, o, a);
      var l := links[0];
      assert forall x :: x in links <==> x == l || x in links[1..];
      if Link(o, a) in Fanout(l, edges) {
        assert Link(l.origin, a) in Fanout(l, edges);
      }
      if o == l.origin && exists e :: e in edges && e.ego == l.current && e.alter == a {
        assert Link(l.origin, a) in Fanout(l, edges);
      }
    }
  }
  /** The join works row by row on both sides: it distributes over a split of the
      relationship table and over a split of the accumulated table. */
  lemma {:induction false} FanoutAppend<K(!new)>(l: Link<K>, a: seq<Edge<K>>, b: seq<Edge<K>>)
    ensures Fanout(l, a + b) == Fanout(l, a) + Fanout(l, b)
    decreases |a|
  {
    if a == [] {
      assert a + b == b;
    } else {
      assert (a + b)[1..] == a[1..] + b;
      FanoutAppend(l, a[1..], b);
    }
  }

  lemma {:induction false} StepAppend<K(!new)>(a: seq<Link<K>>, b: seq<Link<K>>, edges: seq<Edge<K>>)
    ensures Step(a + b, edges) == Step(a, edges) + Step(b, edges)
    decreases |a|
  {
    if a == [] {
      assert a + b == b;
    } else {
      assert (a + b)[1..] == a[1..] + b;
      StepAppend(a[1..], b, edges);
    }
  }

  /** A join with an empty relationship table is empty. */
  lemma {:induction false} StepNoEdges<K(!new)>(links: seq<Link<K>>)
    ensures Step(links, []) == []
  {
    if links != [] {
      StepNoEdges(links[1..]);
    }
  }


  /** The sample with its key copied into a sample-key column: every sample
      person starts at itself. */
  function Initial<K(==,!new)>(sample: seq<Record<K>>): (links: seq<Link<K>>)
    ensures |links| == |sample|
  {
    seq(|sample|, i requires 0 <= i < |sample| => Link(sample[i].key, sample[i].key))
  }

  /** The sample rows are the starting links, and every starting link stands on
      the person it started from. */
  lemma {:induction false} InitialLinks<K(!new)>(sample: seq<Record<K>>)
    ensures forall l :: l in Initial(sample) ==> l.current == l.origin
    ensures forall i :: 0 <= i < |sample| ==> Link(sample[i].key, sample[i].key) in Initial(sample)
  {
    var links := Initial(sample);
    assert forall i :: 0 <= i < |sample| ==> links[i] == Link(sample[i].key, sample[i].key);
  }

  /** One hop: filter the relationship table on the hop's codes, then join. */
  function HopJoin<K(==,!new)>(links: seq<Link<K>>, hop: Hop<K>): seq<Link<K>> {
    Step(links, Filter(hop.edges, hop.types))
  }

  /** The hops applied one after another, the first hop first. */
  function Chain<K(==,!new)>(links: seq<Link<K>>, hops: seq<Hop<K>>): seq<Link<K>>
    decreases |hops|
  {
    if hops == [] then links
    else HopJoin(Chain(links, hops[..|hops| - 1]), hops[|hops| - 1])
  }
  /** When the last hop keeps no row, the final hop table is empty. */
  lemma ChainBlocked<K(!new)>(links: seq<Link<K>>, hops: seq<Hop<K>>)
    requires hops != [] && Filter(hops[|hops| - 1].edges, hops[|hops| - 1].types) == []
    ensures Chain(links, hops) == []
  {
    var n := |hops| - 1;
    HopJoinEmpty(Chain(links, hops[..n]), hops[n]);
  }

  /** A hop from no rows, or through a hop that keeps no row, gives no rows. */
  lemma HopJoinEmpty<K(!new)>(links: seq<Link<K>>, hop: Hop<K>)
    requires links == [] || Filter(hop.edges, hop.types) == []
    ensures HopJoin(links, hop) == []
  {
    if links != [] {
      StepNoEdges(links);
    }
  }



  /** `to` is reached from `from` by one kept edge of each hop, in order. */
  predicate Reaches<K(==,!new)>(hops: seq<Hop<K>>, from: K, to: K)
    decreases |hops|
  {
    if hops == [] then from == to
    else
      var last := hops[|hops| - 1];
      exists e | e in last.edges ::
        e.relation in last.types && e.alter == to && Reaches(hops[..|hops| - 1], from, e.ego)
  }

  /** The chain produces (o, a) exactly when `a` is reached through the hops from
      the current person of an accumulated row that started at `o`. */
  lemma {:induction false} ChainReaches<K(!new)>(links: seq<Link<K>>, hops: seq<Hop<K>>, o: K, a: K)
    ensures Link(o, a) in Chain(links, hops) <==>
      exists l :: l in links && l.origin == o && Reaches(hops, l.current, a)
    decreases |hops|
  {
    if hops == [] {
      if Link(o, a) in links {
        assert Reaches(hops, Link(o, a).current, a);
      }
    } else {
      var init, last := hops[..|hops| - 1], hops[|hops| - 1];
      var before := Chain(links, init);
      var kept := Filter(last.edges, last.types);
      StepMembers(before, kept, o, a);
      if Link(o, a) in Chain(links, hops) {
        var p, e :| p in before && e in kept && p.origin == o && e.ego == p.current && e.alter == a;
        ChainReaches(links, init, o, p.current);
        assert Link(o, p.current) == p;
        var l :| l in links && l.origin == o && Reaches(init, l.current, p.current);
        assert Reaches(hops, l.current, a);
      }
      if exists l :: l in links && l.origin == o && Reaches(hops, l.current, a) {
        var l :| l in links && l.origin == o && Reaches(hops, l.current, a);
        var e :| e in last.edges && e.relation in last.types && e.alter == a && Reaches(init, l.current, e.ego);
        ChainReaches(links, init, o, e.ego);
        assert Link(o, e.ego) in before;
        assert e in kept;
      }
    }
  }

  // ---------------------------------------------------------------------------
  // Joining the characteristics table, grouping, left join
  // ---------------------------------------------------------------------------

  /** A row of the join of the accumulated table with the characteristics table:
      the sample person and the matched characteristics row. */
  datatype Joined<K> = Joined(origin: K, record: Record<K>)

  /** Characteristics rows whose key is the current person of `l`, each paired with
      the sample person of `l`. */
  function MatchRecords<K(==,!new)>(l: Link<K>, records: seq<Record<K>>): (r: seq<Joined<K>>)
    ensures forall j :: j in r ==> j.origin == l.origin && j.record in records && j.record.key == l.current
    ensures forall rec :: rec in records && rec.key == l.current ==> Joined(l.origin, rec) in r
  {
    if records == [] then []
    else
      assert forall x :: x in records <==> x == records[0] || x in records[1..];
      (if records[0].key == l.current then [Joined(l.origin, records[0])] else [])
        + MatchRecords(l, records[1..])
  }

  /** `MatchRecords` yields one joined row per characteristics row keyed on the
      current person. */
  lemma {:induction false} MatchRecordsSize<K(!new)>(l: Link<K>, records: seq<Record<K>>)
    ensures |MatchRecords(l, records)| == KeyCount(l.current, records)
  {
    if records != [] {
      MatchRecordsSize(l, records[1..]);
    }
  }

  /** `MatchRecords` pairs a record keyed on the current person with the sample
      person as often as the record occurs, and no other record. */
  lemma {:induction false} MatchRecordsCount<K(!new)>(l: Link<K>, records: seq<Record<K>>, o: K, rec: Record<K>)
    ensures multiset(MatchRecords(l, records))[Joined(o, rec)] ==
      if o == l.origin && rec.key == l.current then multiset(records)[rec] else 0
  {
    if records != [] {
      MatchRecordsCount(l, records[1..], o, rec);
      assert records == [records[0]] + records[1..];
    }
  }

  /** The number of characteristics rows keyed `k`. */
  function KeyCount<K(==,!new)>(k: K, records: seq<Record<K>>): nat {
    if records == [] then 0
    else (if records[0].key == k then 1 else 0) + KeyCount(k, records[1..])
  }

  /** Some joined row belongs to sample person `o`. */
  predicate HasOrigin<K(==,!new)>(joined: seq<Joined<K>>, o: K) {
    exists j :: j in joined && j.origin == o
  }

  /** The inner join of the accumulated table with the characteristics table on
      current person = record key. */
  function JoinRecords<K(==,!new)>(links: seq<Link<K>>, records: seq<Record<K>>): (r: seq<Joined<K>>)
    ensures forall j :: j in r ==> j.record in records && Link(j.origin, j.record.key) in links
  {
    if links == [] then [] else MatchRecords(links[0], records) + JoinRecords(links[1..], records)
  }
  /** The sum of the numbers of characteristics rows the accumulated rows stand on. */
  function TotalKeys<K(==,!new)>(links: seq<Link<K>>, records: seq<Record<K>>): nat {
    if links == [] then 0 else KeyCount(links[0].current, records) + TotalKeys(links[1..], records)
  }

  /** The join keeps duplicates: each accumulated row contributes one joined row per
      characteristics row keyed on its current person. */
  lemma {:induction false} JoinRecordsSize<K(!new)>(links: seq<Link<K>>, records: seq<Record<K>>)
    ensures |JoinRecords(links, records)| == TotalKeys(links, records)
  {
    if links != [] {
      MatchRecordsSize(links[0], records);
      JoinRecordsSize(links[1..], records);
    }
  }

  /** A joined row (o, rec) occurs once for every pairing of an accumulated row
      (o, rec.key) with a copy of `rec`. */
  lemma {:induction false} JoinRecordsCount<K(!new)>(links: seq<Link<K>>, records: seq<Record<K>>, o: K, rec: Record<K>)
    ensures multiset(JoinRecords(links, records))[Joined(o, rec)] ==
      multiset(links)[Link(o, rec.key)] * multiset(records)[rec]
  {
    if links != [] {
      var l, rest := links[0], links[1..];
      var jo, lk := Joined(o, rec), Link(o, rec.key);
      var m, c := multiset(records)[rec], multiset(rest)[lk];
      JoinRecordsCount(rest, records, o, rec);
      MatchRecordsCount(l, records, o, rec);
      assert multiset(JoinRecords(links, records))[jo] ==
        multiset(MatchRecords(l, records))[jo] + c * m;
      assert multiset(links) == multiset{l} + multiset(rest) by {
        assert links == [l] + rest;
      }
      CountStep(multiset(MatchRecords(l, records))[jo], c, m, multiset(links)[lk]);
    }
  }

  /** Proof helper for `JoinRecordsCount`: one more accumulated row adds one more
      copy of the record's count, and any other row adds nothing. */
  lemma {:induction false} CountStep(head: nat, c: nat, m: nat, k: nat)
    requires (k == c + 1 && head == m) || (k == c && head == 0)
    ensures head + c * m == k * m
  {
    if k == c + 1 {
      MulStep(c, m);
    }
  }

  /** Proof helper for the counting lemmas here and in the aggregate index
      arithmetic: `(a + 1) * n`, spelt out. */
  lemma {:induction false} MulStep(a: nat, n: nat)
    ensures (a + 1) * n == a * n + n
  {
  }

  lemma {:induction false} MatchRecordsAppend<K(!new)>(l: Link<K>, a: seq<Record<K>>, b: seq<Record<K>>)
    ensures MatchRecords(l, a + b) == MatchRecords(l, a) + MatchRecords(l, b)
    decreases |a|
  {
    if a == [] {
      assert a + b == b;
    } else {
      assert (a + b)[1..] == a[1..] + b;
      MatchRecordsAppend(l, a[1..], b);
    }
  }

  /** The join with the characteristics table works row by row. */
  lemma {:induction false} JoinRecordsAppend<K(!new)>(a: seq<Link<K>>, b: seq<Link<K>>, records: seq<Record<K>>)
    ensures JoinRecords(a + b, records) == JoinRecords(a, records) + JoinRecords(b, records)
    decreases |a|
  {
    if a == [] {
      assert a + b == b;
    } else {
      assert (a + b)[1..] == a[1..] + b;
      JoinRecordsAppend(a[1..], b, records);
    }
  }


  /** A sample person has joined rows exactly when one of its accumulated rows stands
      on a person present in the characteristics table. */
  lemma {:induction false} JoinRecordsOrigins<K(!new)>(links: seq<Link<K>>, records: seq<Record<K>>, o: K)
    ensures HasOrigin(JoinRecords(links, records), o) <==>
      exists l, rec :: l in links && rec in records && l.origin == o && rec.key == l.current
  {
    if links != [] {
      var head, rest := MatchRecords(links[0], records), JoinRecords(links[1..], records);
      JoinRecordsOrigins(links[1..], records, o);
      assert forall x :: x in links <==> x == links[0] || x in links[1..];
      if HasOrigin(head + rest, o) {
        var j: Joined<K> :| j in head + rest && j.origin == o;
        if j in head {
          assert links[0] in links && j.record in records && j.record.key == links[0].current;
        } else {
          assert HasOrigin(rest, o);
        }
      }
      if exists l, rec :: l in links && rec in records && l.origin == o && rec.key == l.current {
        var l, rec :| l in links && rec in records && l.origin == o && rec.key == l.current;
        if l == links[0] {
          assert Joined(o, rec) in head;
          assert Joined(o, rec) in head + rest;
        } else {
          var j: Joined<K> :| j in rest && j.origin == o;
          assert j in head + rest;
        }
      }
    }
  }

  /** The characteristics rows joined to sample person `k`, in join order. */
  function Members<K(==,!new)>(joined: seq<Joined<K>>, k: K): (r: seq<Record<K>>)
    ensures forall rec :: rec in r <==> Joined(k, rec) in joined
  {
    if joined == [] then []
    else
      assert forall j :: j in joined <==> j == joined[0] || j in joined[1..];
      (if joined[0].origin == k then [joined[0].record] else []) + Members(joined[1..], k)
  }
  /** A group holds each record as often as it was joined to its sample person. */
  lemma {:induction false} MembersCount<K(!new)>(joined: seq<Joined<K>>, k: K, rec: Record<K>)
    ensures multiset(Members(joined, k))[rec] == multiset(joined)[Joined(k, rec)]
  {
    if joined != [] {
      MembersCount(joined[1..], k, rec);
      assert joined == [joined[0]] + joined[1..];
    }
  }

  lemma {:induction false} MembersAppend<K(!new)>(a: seq<Joined<K>>, b: seq<Joined<K>>, k: K)
    ensures Members(a + b, k) == Members(a, k) + Members(b, k)
    decreases |a|
  {
    if a == [] {
      assert a + b == b;
    } else {
      assert (a + b)[1..] == a[1..] + b;
      MembersAppend(a[1..], b, k);
    }
  }


  predicate Distinct<T(==)>(s: seq<T>) {
    forall i, j :: 0 <= i < j < |s| ==> s[i] != s[j]
  }

  /** The distinct sample persons of a joined table, in order of first appearance. */
  function Keys<K(==,!new)>(joined: seq<Joined<K>>): (ks: seq<K>)
    ensures Distinct(ks)
    ensures forall k :: k in ks <==> exists j :: j in joined && j.origin == k
    decreases |joined|
  {
    if joined == [] then []
    else
      var init, last := joined[..|joined| - 1], joined[|joined| - 1];
      var ks := Keys(init);
      assert forall j :: j in joined <==> j in init || j == last;
      if last.origin in ks then ks else ks + [last.origin]
  }

  /** A row of a grouped table: the group's key and its aggregate cells. */
  datatype Group<K> = Group(key: K, aggs: seq<Value>)

  /** `GROUP BY` the sample person: one row per distinct sample person of the
      joined table, whose cells `summarize` computes from that person's rows. */
  function GroupBy<K(==,!new)>(joined: seq<Joined<K>>, summarize: seq<Record<K>> -> seq<Value>): (gs: seq<Group<K>>)
    ensures |gs| == |Keys(joined)|
    ensures forall i :: 0 <= i < |gs| ==> gs[i].key == Keys(joined)[i]
    ensures forall i :: 0 <= i < |gs| ==> gs[i].aggs == summarize(Members(joined, gs[i].key))
  {
    var ks := Keys(joined);
    seq(|ks|, i requires 0 <= i < |ks| => Group(ks[i], summarize(Members(joined, ks[i]))))
  }

  predicate DistinctKeys<K(==,!new)>(gs: seq<Group<K>>) {
    forall i, j :: 0 <= i < j < |gs| ==> gs[i].key != gs[j].key
  }

  /** Grouping yields each sample person at most once. */
  lemma {:induction false} GroupByDistinct<K(!new)>(joined: seq<Joined<K>>, summarize: seq<Record<K>> -> seq<Value>)
    ensures DistinctKeys(GroupBy(joined, summarize))
  {
    var gs, ks := GroupBy(joined, summarize), Keys(joined);
    forall i, j | 0 <= i < j < |gs|
      ensures gs[i].key != gs[j].key
    {
      assert ks[i] != ks[j];
    }
  }

  /** A group exists for sample person `k` exactly when `k` has a joined row, and
      then it is the only one for `k`. */
  lemma {:induction false} GroupByHas<K(!new)>(joined: seq<Joined<K>>, summarize: seq<Record<K>> -> seq<Value>, k: K)
    ensures (exists i :: 0 <= i < |GroupBy(joined, summarize)| && GroupBy(joined, summarize)[i].key == k)
      <==> exists j :: j in joined && j.origin == k
  {
    var gs, ks := GroupBy(joined, summarize), Keys(joined);
    if exists j :: j in joined && j.origin == k {
      assert k in ks;
      var i :| 0 <= i < |ks| && ks[i] == k;
      assert gs[i].key == k;
    }
    if exists i :: 0 <= i < |gs| && gs[i].key == k {
      var i :| 0 <= i < |gs| && gs[i].key == k;
      assert ks[i] in ks;
    }
  }

  /** A row of a left join's output: the left row and the cells joined to it. */
  datatype OutRow<K> = OutRow(row: Record<K>, aggs: seq<Value>)

  /** A row of `width` NULLs. */
  function Nulls(width: nat): (r: seq<Value>)
    ensures |r| == width && forall i :: 0 <= i < width ==> r[i] == Null
  {
    seq(width, _ => Null)
  }

  /** The groups whose key is `k`, in order. */
  function MatchGroups<K(==,!new)>(k: K, gs: seq<Group<K>>): (r: seq<Group<K>>)
    ensures forall g :: g in r ==> g in gs && g.key == k
    ensures (exists i :: 0 <= i < |gs| && gs[i].key == k) ==> r != []
    ensures (forall g :: g in gs ==> g.key != k) ==> r == []
  {
    if gs == [] then []
    else (if gs[0].key == k then [gs[0]] else []) + MatchGroups(k, gs[1..])
  }

  /** The output rows of one left row: one per matching group, or one padded with
      NULLs when nothing matches. */
  function LeftRows<K(==,!new)>(row: Record<K>, gs: seq<Group<K>>, width: nat): seq<OutRow<K>> {
    var ms := MatchGroups(row.key, gs);
    if ms == [] then [OutRow(row, Nulls(width))]
    else seq(|ms|, i requires 0 <= i < |ms| => OutRow(row, ms[i].aggs))
  }

  /** `left LEFT JOIN gs ON key`, in SQL's multiset meaning. */
  function LeftJoin<K(==,!new)>(left: seq<Record<K>>, gs: seq<Group<K>>, width: nat): seq<OutRow<K>> {
    if left == [] then [] else LeftRows(left[0], gs, width) + LeftJoin(left[1..], gs, width)
  }

  /** The cells a left row receives: its group's, or NULLs when it has none. */
  function Lookup<K(==,!new)>(k: K, gs: seq<Group<K>>, width: nat): seq<Value> {
    var ms := MatchGroups(k, gs);
    if ms == [] then Nulls(width) else ms[0].aggs
  }

  lemma {:induction false} MatchGroupsDistinct<K(!new)>(k: K, gs: seq<Group<K>>)
    requires DistinctKeys(gs)
    ensures |MatchGroups(k, gs)| <= 1
  {
    if gs != [] {
      MatchGroupsDistinct(k, gs[1..]);
      if gs[0].key == k {
        forall g | g in gs[1..]
          ensures g.key != k
        {
          var i :| 0 <= i < |gs[1..]| && gs[1..][i] == g;
          assert g == gs[i + 1];
        }
      }
    }
  }

  /** With distinct keys on the right, a left join keeps every left row exactly
      once, each with its group's cells or with NULLs. */
  lemma {:induction false} LeftJoinKeepsRows<K(!new)>(left: seq<Record<K>>, gs: seq<Group<K>>, width: nat)
    requires DistinctKeys(gs)
    ensures |LeftJoin(left, gs, width)| == |left|
    ensures forall i :: 0 <= i < |left| ==>
      LeftJoin(left, gs, width)[i] == OutRow(left[i], Lookup(left[i].key, gs, width))
  {
    if left != [] {
      MatchGroupsDistinct(left[0].key, gs);
      LeftJoinKeepsRows(left[1..], gs, width);
    }
  }

  /** From a start table that links each person to itself, the rows joined for
      origin `k` are records of persons the hops reach from `k`, and there are
      some exactly when the hops reach a person with a record. */
  lemma {:induction false} ReachedMembers<K(!new)>(start: seq<Link<K>>, hops: seq<Hop<K>>,
                                                   records: seq<Record<K>>, k: K)
    requires forall l :: l in start ==> l.current == l.origin
    requires Link(k, k) in start
    ensures var ms := Members(JoinRecords(Chain(start, hops), records), k);
      && (forall rec :: rec in ms ==> rec in records && Reaches(hops, k, rec.key))
      && (ms != [] <==> exists rec :: rec in records && Reaches(hops, k, rec.key))
  {
    var joined := JoinRecords(Chain(start, hops), records);
    var ms := Members(joined, k);
    forall rec | rec in ms
      ensures rec in records && Reaches(hops, k, rec.key)
    {
      ChainReaches(start, hops, k, rec.key);
    }
    if ms != [] {
      assert ms[0] in ms;
    }
    if exists rec :: rec in records && Reaches(hops, k, rec.key) {
      var rec :| rec in records && Reaches(hops, k, rec.key);
      ChainReaches(start, hops, k, rec.key);
      JoinRecordsOrigins(Chain(start, hops), records, k);
      assert Link(k, rec.key) in Chain(start, hops);
      var j: Joined<K> :| j in joined && j.origin == k;
      assert j == Joined(k, j.record);
    }
  }

  /** What a left row with key `k` receives from the grouped table: the summary of
      its joined rows, or NULLs when it has none. */
  lemma {:induction false} GroupLookup<K(!new)>(joined: seq<Joined<K>>, summarize: seq<Record<K>> -> seq<Value>,
                                                k: K, width: nat)
    ensures Lookup(k, GroupBy(joined, summarize), width) ==
      if Members(joined, k) == [] then Nulls(width) else summarize(Members(joined, k))
  {
    var gs := GroupBy(joined, summarize);
    var ms := Members(joined, k);
    GroupByHas(joined, summarize, k);
    if ms != [] {
      assert Joined(k, ms[0]) in joined;
      var found := MatchGroups(k, gs);
      var n :| 0 <= n < |gs| && gs[n] == found[0];
    }
  }

  // ---------------------------------------------------------------------------
  // SQL aggregates
  // ---------------------------------------------------------------------------

  /** The integer aggregate functions; NULL inputs are ignored as in SQL. */
  datatype AggFunc = Count | Sum | Min | Max

  /** The name DuckDB knows the function by. */
  function FuncName(f: AggFunc): string {
    match f
    case Count => "count"
    case Sum => "sum"
    case Min => "min"
    case Max => "max"
  }

  /** The non-NULL values, in order. */
  function Present(vals: seq<Value>): (xs: seq<int>)
    ensures forall x :: x in xs <==> Int(x) in vals
  {
    if vals == [] then []
    else
      assert forall v :: v in vals <==> v == vals[0] || v in vals[1..];
      (if vals[0].Int? then [vals[0].i] else []) + Present(vals[1..])
  }

  /** Each non-NULL value is kept as often as it occurs, so `count` and `sum` see
      every occurrence. */
  lemma {:induction false} PresentCount(vals: seq<Value>, x: int)
    ensures multiset(Present(vals))[x] == multiset(vals)[Int(x)]
  {
    if vals != [] {
      PresentCount(vals[1..], x);
      assert vals == [vals[0]] + vals[1..];
    }
  }

  function Total(xs: seq<int>): int {
    if xs == [] then 0 else xs[0] + Total(xs[1..])
  }

  /** `count(v)`, `sum(v)`, `min(v)`, `max(v)` over one group's values. */
  function Aggregate(f: AggFunc, vals: seq<Value>): (r: Value)
    ensures r == Null <==> f != Count && Present(vals) == []
    ensures f == Count ==> r == Int(|Present(vals)|)
    ensures f == Sum && r.Int? ==> r.i == Total(Present(vals))
    ensures f == Min && r.Int? ==> Int(r.i) in vals && forall x :: Int(x) in vals ==> r.i <= x
    ensures f == Max && r.Int? ==> Int(r.i) in vals && forall x :: Int(x) in vals ==> x <= r.i
  {
    var xs := Present(vals);
    match f
    case Count => Int(|xs|)
    case Sum => if xs == [] then Null else Int(Total(xs))
    case Min => if xs == [] then Null else Int(Python.Min(xs))
    case Max => if xs == [] then Null else Int(Python.Max(xs))
  }

  /** The values of one column over a group's rows. */
  function Column<K(==,!new)>(rows: seq<Record<K>>, column: string): (vals: seq<Value>)
    ensures |vals| == |rows| && forall i :: 0 <= i < |rows| ==> vals[i] == Get(rows[i], column)
  {
    seq(|rows|, i requires 0 <= i < |rows| => Get(rows[i], column))
  }
}

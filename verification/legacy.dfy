/** The legacy module netcbs_.py: the same query language and hop chain as the
    current package, with its own rules. The query is read in written order
    (`sample -> Hop -> ... -> VARIABLE`), `all` must be written in lower case, a
    person is the pair (RINPERSOON, RINPERSOONS), duplicate persons are dropped
    before joining, the version of a network file is looked up without regard to
    the year, and one variable is aggregated with one aggregate function. */
module NetcbsLegacy {
  import opened Errors
  import opened Python
  import opened Frames
  import Netcbs

  /** A person: RINPERSOON together with RINPERSOONS. */
  datatype Key = Key(rinpersoon: int, rinpersoons: string)

  /** `codebook` of the legacy module: the current codebook with codes 309 and
      310 named "Full cousin" and "Cousin". Its `context2path` and
      `context2types` are the current package's. */
  const Codebook: map<int, string> := Netcbs.Codebook[309 := "Full cousin"][310 := "Cousin"]

  /** The two codebooks know the same codes and name them alike except 309 and
      310. */
  lemma {:induction false} CodebookDiffers()
    ensures Codebook.Keys == Netcbs.Codebook.Keys
    ensures forall c :: c in Codebook && c != 309 && c != 310 ==> Codebook[c] == Netcbs.Codebook[c]
    ensures Codebook[309] != Netcbs.Codebook[309] && Codebook[310] != Netcbs.Codebook[310]
  {
  }

  // ---------------------------------------------------------------------------
  // check_context
  // ---------------------------------------------------------------------------

  /** `{int(x) for x in pieces}`: every piece must be an integer, an empty piece
      included; the first that is not raises. */
  function ParseAll(pieces: seq<string>): (r: Result<set<int>>)
    ensures r.Err? ==> r.error.NotAnInteger?
  {
    if pieces == [] then Ok({})
    else match ParseInt(pieces[0])
      case None => Err(NotAnInteger(pieces[0]))
      case Some(v) =>
        var rest :- ParseAll(pieces[1..]);
        Ok({v} + rest)
  }

  /** The codes parse exactly when every piece is an integer. */
  lemma {:induction false} ParseAllOk(pieces: seq<string>)
    ensures ParseAll(pieces).Ok? <==> forall i :: 0 <= i < |pieces| ==> ParseInt(pieces[i]).Some?
  {
    if pieces != [] {
      var rest := pieces[1..];
      ParseAllOk(rest);
      assert forall i :: 1 <= i < |pieces| ==> pieces[i] == rest[i - 1];
    }
  }

  /** What the legacy module accepts the current package reads the same way: the
      legacy parse only adds the rejection of blank pieces. */
  lemma {:induction false} ParseAllStricter(pieces: seq<string>)
    requires ParseAll(pieces).Ok?
    ensures Netcbs.ParseIds(pieces) == ParseAll(pieces)
  {
    if pieces != [] {
      ParseAllStricter(pieces[1..]);
      assert !Blank(pieces[0]);
    }
  }

  /** The written codes parse back to exactly those codes. */
  lemma {:induction false} ParseAllCodes(codes: seq<int>)
    ensures ParseAll(Netcbs.CodeStrings(codes)) == Ok(set c | c in codes)
  {
    var strs := Netcbs.CodeStrings(codes);
    if codes == [] {
      assert (set c | c in codes) == {};
    } else {
      assert Netcbs.CodeStrings(codes[1..]) == strs[1..];
      ParseAllCodes(codes[1..]);
      ParseIntRoundTrip(codes[0]);
      Netcbs.SetOfCons(codes);
    }
  }

  /** `check_context`: the context must hold exactly one `[`; the name before it,
      stripped, and the text after it, without any `]` and stripped, are then
      checked by `CheckParts`. */
  function CheckContext(context: string): (r: Result<(string, set<int>)>)
    ensures r.Ok? ==> r.value.0 in Netcbs.ContextToTypes && r.value.1 <= Netcbs.ContextToTypes[r.value.0]
    ensures r == Err(Unpack(context)) <==> multiset(context)['['] != 1
  {
    SplitCount(context, '[');
    var parts := Split(context, "[");
    if |parts| != 2 then Err(Unpack(context))
    else CheckParts(Strip(parts[0]), Strip(RemoveChar(parts[1], ']')))
  }

  /** The rest of `check_context`: the literal `all` stands for every code of the
      context (an unknown name is then a KeyError); otherwise the text is a
      comma-separated list of integers, which must all be codes of a known
      context. */
  function CheckParts(base: string, types: string): (r: Result<(string, set<int>)>)
    ensures r.Ok? ==> r.value.0 == base && base in Netcbs.ContextToTypes && r.value.1 <= Netcbs.ContextToTypes[base]
    ensures r.Ok? && types == "all" ==> r.value.1 == Netcbs.ContextToTypes[base]
    ensures r.Err? ==> r.error == UnknownKey(base) || (r.error.InvalidTypes? && r.error.base == base) || r.error.NotAnInteger?
  {
    if types == "all" then
      if base in Netcbs.ContextToTypes then Ok((base, Netcbs.ContextToTypes[base]))
      else Err(UnknownKey(base))
    else
      var ids :- ParseAll(Split(types, ","));
      if base !in Netcbs.ContextToTypes then Err(UnknownKey(base))
      else if ids <= Netcbs.ContextToTypes[base] then Ok((base, ids))
      else Err(InvalidTypes(base, ids))
  }

  /** How `check_context` takes `base[inner]` apart. */
  lemma {:induction false} BracketParts(base: string, inner: string)
    requires '[' !in base && '[' !in inner && ']' !in inner
    ensures Split(base + "[" + inner + "]", "[") == [base, inner + "]"]
    ensures RemoveChar(inner + "]", ']') == inner
  {
    var parts := [base, inner + "]"];
    assert Join(parts, "[") == base + "[" + inner + "]" by {
      assert Join(parts[1..], "[") == inner + "]";
    }
    SplitJoin(parts, '[');
    RemoveLast(inner, ']');
  }

  /** Removing a character that ends a string and occurs nowhere else leaves the
      rest. */
  lemma {:induction false} RemoveLast(s: string, c: char)
    requires c !in s
    ensures RemoveChar(s + [c], c) == s
    decreases |s|
  {
    if s != [] {
      assert (s + [c])[1..] == s[1..] + [c];
      RemoveLast(s[1..], c);
      assert [s[0]] + s[1..] == s;
    }
  }

  /** `base[inner]`, with nothing around the name or the codes, is checked as
      the name `base` and the codes text `inner`. */
  lemma {:induction false} BracketContext(base: string, inner: string)
    requires '[' !in base && Trimmed(base) && '[' !in inner && ']' !in inner && Trimmed(inner)
    ensures CheckContext(base + "[" + inner + "]") == CheckParts(base, inner)
  {
    BracketParts(base, inner);
    StripTrimmed(base);
    StripTrimmed(inner);
  }

  /** A spelling of `all` in any case has no bracket or comma and is no integer. */
  lemma {:induction false} AllWordPlain(word: string)
    requires Lower(word) == "all"
    ensures Trimmed(word) && '[' !in word && ']' !in word && ',' !in word
    ensures ParseInt(word) == None
  {
    Netcbs.AllWord(word);
    forall i | 0 <= i < |word|
      ensures word[i] != '[' && word[i] != ','
    {
      assert LowerChar(word[i]) == "all"[i];
    }
    StripTrimmed(word);
    assert LowerChar(word[0]) == 'a';
  }

  /** Only the lower-case `all` stands for every code of the context: `ALL` or
      `All` is read as a code and rejected. */
  lemma {:induction false} CheckContextWord(base: string, word: string)
    requires base in Netcbs.ContextToTypes && Lower(word) == "all"
    ensures CheckContext(base + "[" + word + "]") ==
      if word == "all" then Ok((base, Netcbs.ContextToTypes[base])) else Err(NotAnInteger(word))
  {
    Netcbs.BaseNames(base);
    AllWordPlain(word);
    BracketContext(base, word);
    if word != "all" {
      ContainsChar(word, ',');
      SplitNoSeparator(word, ",");
      assert ParseAll([word]) == Err(NotAnInteger(word));
    }
  }

  /** A non-empty comma-separated list of codes is read as exactly those codes,
      which must belong to a known context. */
  lemma {:induction false} CheckPartsListed(base: string, codes: seq<int>)
    requires codes != []
    ensures var ids := set c | c in codes;
      CheckParts(base, Join(Netcbs.CodeStrings(codes), ",")) ==
        if base !in Netcbs.ContextToTypes then Err(UnknownKey(base))
        else if ids <= Netcbs.ContextToTypes[base] then Ok((base, ids))
        else Err(InvalidTypes(base, ids))
  {
    var strs := Netcbs.CodeStrings(codes);
    Netcbs.CodeListWord(codes);
    forall i | 0 <= i < |strs|
      ensures ',' !in strs[i]
    {
      IntToStringChars(codes[i]);
    }
    SplitJoin(strs, ',');
    ParseAllCodes(codes);
  }

  /** A hop written as a name and a non-empty comma-separated list of codes
      checks to the name and exactly those codes when the name is a known
      context owning them all; an unknown name is a KeyError. */
  lemma {:induction false} CheckContextListed(base: string, codes: seq<int>)
    requires '[' !in base && Trimmed(base) && codes != []
    ensures var ids := set c | c in codes;
      CheckContext(base + "[" + Join(Netcbs.CodeStrings(codes), ",") + "]") ==
        if base !in Netcbs.ContextToTypes then Err(UnknownKey(base))
        else if ids <= Netcbs.ContextToTypes[base] then Ok((base, ids))
        else Err(InvalidTypes(base, ids))
  {
    Netcbs.CodeListBrackets(codes);
    Netcbs.CodeListWord(codes);
    BracketContext(base, Join(Netcbs.CodeStrings(codes), ","));
    CheckPartsListed(base, codes);
  }

  // ---------------------------------------------------------------------------
  // check_last_version and format_path
  // ---------------------------------------------------------------------------

  /** `[int(f.stem.split("V")[-1]) for f in path.glob("*.csv")]`: every csv file,
      whatever its year. */
  function CsvVersions(entries: seq<Netcbs.FileEntry>): (r: Result<seq<int>>)
    ensures r.Err? ==> r.error.NotAnInteger?
  {
    if entries == [] then Ok([])
    else
      var e := entries[0];
      if e.suffix != ".csv" then CsvVersions(entries[1..])
      else match ParseInt(Netcbs.VersionText(e.stem))
        case None => Err(NotAnInteger(Netcbs.VersionText(e.stem)))
        case Some(v) =>
          var rest :- CsvVersions(entries[1..]);
          Ok([v] + rest)
  }

  /** `check_last_version`: the highest version among the folder's csv files. */
  function CheckLastVersion(dir: string, entries: seq<Netcbs.FileEntry>): (r: Result<int>)
    ensures r.Err? ==> r.error == NoVersions(dir) || r.error.NotAnInteger?
  {
    var vs :- CsvVersions(entries);
    if vs == [] then Err(NoVersions(dir)) else Ok(Python.Max(vs))
  }

  /** Every string holds the empty string. */
  lemma {:induction false} ContainsEmpty(s: string)
    ensures Contains(s, "")
  {
    assert OccursAt(s, "", 0);
  }

  lemma {:induction false} CsvVersionsAnyYear(entries: seq<Netcbs.FileEntry>)
    ensures CsvVersions(entries) == Netcbs.Versions(entries, "", "csv")
  {
    if entries != [] {
      ContainsEmpty(entries[0].stem);
      CsvVersionsAnyYear(entries[1..]);
    }
  }

  /** The legacy lookup is the current one with the year filter switched off:
      every stem holds the empty year. */
  lemma {:induction false} CheckLastVersionAnyYear(dir: string, entries: seq<Netcbs.FileEntry>)
    ensures CheckLastVersion(dir, entries) == Netcbs.CheckLastVersion(dir, entries, "", "csv")
  {
    CsvVersionsAnyYear(entries);
  }

  /** The version found is the highest over all csv files; there is none exactly
      when the folder holds no csv file. */
  lemma {:induction false} CheckLastVersionSpec(dir: string, entries: seq<Netcbs.FileEntry>)
    ensures var r := CheckLastVersion(dir, entries);
      && (r.Ok? ==> Netcbs.IsLatest(entries, "", "csv", r.value))
      && (r == Err(NoVersions(dir)) <==> forall e :: e in entries ==> e.suffix != ".csv")
  {
    CheckLastVersionAnyYear(dir, entries);
    Netcbs.CheckLastVersionSpec(dir, entries, "", "csv");
    forall e | e in entries
      ensures Netcbs.Qualifies(e, "", "csv") <==> e.suffix == ".csv"
    {
      ContainsEmpty(e.stem);
    }
  }

  /** Two csv files of different years: the legacy lookup takes the higher
      version even when only the other file is of the year asked for, which the
      current lookup keeps apart. */
  lemma {:induction false} VersionIgnoresYear(dir: string, older: Netcbs.FileEntry, newer: Netcbs.FileEntry,
                                               year: string, v1: int, v2: int)
    requires older.suffix == ".csv" && newer.suffix == ".csv"
    requires Contains(older.stem, year) && !Contains(newer.stem, year)
    requires ParseInt(Netcbs.VersionText(older.stem)) == Some(v1)
    requires ParseInt(Netcbs.VersionText(newer.stem)) == Some(v2)
    requires v1 < v2
    ensures CheckLastVersion(dir, [older, newer]) == Ok(v2)
    ensures Netcbs.CheckLastVersion(dir, [older, newer], year, "csv") == Ok(v1)
  {
    LegacyVersionsOfTwo(older, newer, v1, v2);
    VersionsOfTwo(older, newer, year, v1);
  }

  lemma {:induction false} LegacyVersionsOfTwo(older: Netcbs.FileEntry, newer: Netcbs.FileEntry, v1: int, v2: int)
    requires older.suffix == ".csv" && newer.suffix == ".csv"
    requires ParseInt(Netcbs.VersionText(older.stem)) == Some(v1)
    requires ParseInt(Netcbs.VersionText(newer.stem)) == Some(v2)
    ensures CsvVersions([older, newer]) == Ok([v1, v2])
  {
    assert [older, newer][1..] == [newer] && [newer][1..] == [];
    assert [v2] + [] == [v2] && [v1] + [v2] == [v1, v2];
    assert CsvVersions([newer]) == Ok([v2]);
  }

  lemma {:induction false} VersionsOfTwo(older: Netcbs.FileEntry, newer: Netcbs.FileEntry, year: string, v1: int)
    requires older.suffix == ".csv" && newer.suffix == ".csv"
    requires Contains(older.stem, year) && !Contains(newer.stem, year)
    requires ParseInt(Netcbs.VersionText(older.stem)) == Some(v1)
    ensures Netcbs.Versions([older, newer], year, "csv") == Ok([v1])
  {
    assert [older, newer][1..] == [newer] && [newer][1..] == [];
    assert [v1] + [] == [v1];
    assert Netcbs.Versions([newer], year, "csv") == Ok([]);
  }

  /** A stem `head + "V" + version` carries that version. */
  lemma {:induction false} StemVersion(head: string, version: nat)
    requires version < 10
    ensures ParseInt(Netcbs.VersionText(head + ['V', DigitChar(version)])) == Some(version)
  {
    assert IntToString(version) == [DigitChar(version)];
    assert head + ['V', DigitChar(version)] == head + ['V'] + IntToString(version);
    Netcbs.VersionAfterLastV(head, version);
  }

  /** Proof helper for `VersionFromOtherYear`: the two stems of the example,
      spelt out. */
  lemma {:induction false} ExampleStems()
    ensures "FAMILIENETWERKTAB2021V1" == "FAMILIENETWERKTAB2021" + ['V', DigitChar(1)]
    ensures "FAMILIENETWERKTAB2022V2" == "FAMILIENETWERKTAB2022" + ['V', DigitChar(2)]
    ensures OccursAt("FAMILIENETWERKTAB2021V1", "2021", 17)
    ensures '1' in "2021" && '1' !in "FAMILIENETWERKTAB2022V2"
  {
  }

  /** The input that shows it: the 2021 network file at version 1 and the 2022
      one at version 2. For 2021 the legacy lookup yields version 2, which no
      2021 file has; the current lookup yields 1. */
  lemma {:induction false} VersionFromOtherYear(dir: string)
    ensures var entries := [Netcbs.FileEntry("FAMILIENETWERKTAB2021V1", ".csv"),
                            Netcbs.FileEntry("FAMILIENETWERKTAB2022V2", ".csv")];
      && CheckLastVersion(dir, entries) == Ok(2)
      && Netcbs.CheckLastVersion(dir, entries, "2021", "csv") == Ok(1)
  {
    var s1, s2 := "FAMILIENETWERKTAB2021V1", "FAMILIENETWERKTAB2022V2";
    ExampleStems();
    StemVersion("FAMILIENETWERKTAB2021", 1);
    StemVersion("FAMILIENETWERKTAB2022", 2);
    MissingCharNotContains(s2, "2021", 3);
    VersionIgnoresYear(dir, Netcbs.FileEntry(s1, ".csv"), Netcbs.FileEntry(s2, ".csv"), "2021", 1, 2);
  }

  /** `format_path`: the checked hop's codes and the path of the latest csv
      version of its context's network file, with the year put in the name. */
  function FormatPath(context: string, year: int, root: string,
                      listing: map<string, seq<Netcbs.FileEntry>>): (r: Result<(string, set<int>)>)
    ensures r.Ok? ==> CheckContext(context).Ok? && r.value.1 == CheckContext(context).value.1
  {
    var (base, types) :- CheckContext(context);
    Netcbs.ContextTablesAgree();
    var folder := Netcbs.ContextToPath[base];
    var dir := root + "/" + folder;
    var version :- CheckLastVersion(dir, Netcbs.Listing(listing, dir));
    Ok((dir + "/" + folder + IntToString(year) + "V" + IntToString(version) + ".csv", types))
  }

  /** The path names a csv file in its context's folder, whose stem carries the
      year and, after its last `V`, the highest version of any year in that
      folder. */
  lemma {:induction false} FormatPathLatest(context: string, year: int, root: string,
                                            listing: map<string, seq<Netcbs.FileEntry>>)
    requires FormatPath(context, year, root, listing).Ok?
    ensures CheckContext(context).Ok? && CheckContext(context).value.0 in Netcbs.ContextToPath
    ensures var folder := Netcbs.ContextToPath[CheckContext(context).value.0];
      var dir := root + "/" + folder;
      exists v ::
        && FormatPath(context, year, root, listing).value.0 ==
             dir + "/" + folder + IntToString(year) + ['V'] + IntToString(v) + ".csv"
        && Netcbs.IsLatest(Netcbs.Listing(listing, dir), "", "csv", v)
        && ParseInt(Netcbs.VersionText(folder + IntToString(year) + ['V'] + IntToString(v))) == Some(v)
  {
    Netcbs.ContextTablesAgree();
    var folder := Netcbs.ContextToPath[CheckContext(context).value.0];
    var dir := root + "/" + folder;
    var v := CheckLastVersion(dir, Netcbs.Listing(listing, dir)).value;
    CheckLastVersionSpec(dir, Netcbs.Listing(listing, dir));
    Netcbs.VersionAfterLastV(folder + IntToString(year), v);
  }

  // ---------------------------------------------------------------------------
  // validate_columns and prepare_dataframe
  // ---------------------------------------------------------------------------

  /** `validate_columns`: raises on the first required column, in list order,
      that is absent. */
  function ValidateColumns(present: seq<string>, required: seq<string>): (r: Result<()>)
    ensures r.Ok? <==> forall c :: c in required ==> c in present
  {
    if required == [] then Ok(())
    else
      assert forall c :: c in required <==> c == required[0] || c in required[1..];
      if required[0] !in present then Err(MissingColumns([required[0]]))
      else ValidateColumns(present, required[1..])
  }

  /** The error names the first absent column, the first one the current
      package's check lists. */
  lemma {:induction false} ValidateColumnsFirst(present: seq<string>, required: seq<string>)
    ensures var m := Netcbs.Missing(present, required);
      ValidateColumns(present, required).Err? ==>
        m != [] && ValidateColumns(present, required) == Err(MissingColumns([m[0]]))
  {
    if required != [] && required[0] in present {
      ValidateColumnsFirst(present, required[1..]);
    }
  }

  predicate UniqueKeys(rows: seq<Record<Key>>) {
    forall i, j :: 0 <= i < j < |rows| ==> rows[i].key != rows[j].key
  }

  predicate HasKey(rows: seq<Record<Key>>, k: Key) {
    exists x :: x in rows && x.key == k
  }

  /** `df.unique(subset=["RINPERSOON", "RINPERSOONS"])`, keeping the first row of
      each person. */
  function Unique(rows: seq<Record<Key>>): (r: seq<Record<Key>>)
    ensures UniqueKeys(r)
    ensures forall x :: x in r ==> x in rows
    ensures forall k :: HasKey(r, k) <==> HasKey(rows, k)
    decreases |rows|
  {
    if rows == [] then []
    else
      var init, last := Unique(rows[..|rows| - 1]), rows[|rows| - 1];
      assert rows == rows[..|rows| - 1] + [last];
      HasKeyAppend(rows[..|rows| - 1], last);
      if HasKey(init, last.key) then init
      else
        HasKeyAppend(init, last);
        assert forall i :: 0 <= i < |init| ==> init[i] in init;
        init + [last]
  }

  /** The persons of `rows + [x]` are those of `rows` and the person of `x`. */
  lemma {:induction false} HasKeyAppend(rows: seq<Record<Key>>, x: Record<Key>)
    ensures forall k :: HasKey(rows + [x], k) <==> HasKey(rows, k) || x.key == k
  {
    forall k | HasKey(rows, k) || x.key == k
      ensures HasKey(rows + [x], k)
    {
      if x.key == k {
        assert x in rows + [x];
      } else {
        var y :| y in rows && y.key == k;
        assert y in rows + [x];
      }
    }
  }

  /** Dropping duplicates changes nothing when there are none. */
  lemma {:induction false} UniqueKeeps(rows: seq<Record<Key>>)
    requires UniqueKeys(rows)
    ensures Unique(rows) == rows
    decreases |rows|
  {
    if rows != [] {
      var init, last := rows[..|rows| - 1], rows[|rows| - 1];
      UniqueKeeps(init);
      assert init + [last] == rows;
    }
  }

  /** `prepare_dataframe`: when the frame has both key columns and some person
      occurs twice, its rows with duplicated keys are dropped. */
  function PrepareDataframe(rows: seq<Record<Key>>, columns: seq<string>): (r: seq<Record<Key>>)
    ensures "RINPERSOON" in columns && "RINPERSOONS" in columns ==> UniqueKeys(r)
    ensures UniqueKeys(rows) ==> r == rows
    ensures forall x :: x in r ==> x in rows
    ensures forall k :: HasKey(r, k) <==> HasKey(rows, k)
  {
    if "RINPERSOON" in columns && "RINPERSOONS" in columns && !UniqueKeys(rows) then Unique(rows) else rows
  }

  // ---------------------------------------------------------------------------
  // aggregate_data
  // ---------------------------------------------------------------------------

  /** `agg_func(agg_col)` over a group's rows. */
  function Summarize(aggFunc: seq<Value> -> Value, column: string): seq<Record<Key>> -> seq<Value> {
    rows => [aggFunc(Column(rows, column))]
  }

  /** `aggregate_data`: joins the last hop table with the characteristics and
      groups by sample person, so each sample person appears at most once. */
  function AggregateData(links: seq<Link<Key>>, agg: seq<Record<Key>>, column: string,
                         aggFunc: seq<Value> -> Value): (gs: seq<Group<Key>>)
    ensures DistinctKeys(gs)
    ensures forall i :: 0 <= i < |gs| ==> |gs[i].aggs| == 1
  {
    var joined := JoinRecords(links, agg);
    GroupByDistinct(joined, Summarize(aggFunc, column));
    GroupBy(joined, Summarize(aggFunc, column))
  }

  // ---------------------------------------------------------------------------
  // transform
  // ---------------------------------------------------------------------------

  /** What the legacy `transform` reads besides the query and the frames: the
      year, the data folder, the folder listings and the network files by path. */
  datatype Setting = Setting(year: int, root: string, listing: map<string, seq<Netcbs.FileEntry>>,
                             files: map<string, seq<Edge<Key>>>)

  /** The frame the legacy `transform` returns: the sample's columns and the
      aggregated column, and its rows. */
  datatype Table = Table(columns: seq<string>, rows: seq<OutRow<Key>>)

  /** `check_context(context)` as a check. */
  function Checked(context: string): (r: Result<()>)
    ensures r.Ok? <==> CheckContext(context).Ok?
  {
    var _ :- CheckContext(context);
    Ok(())
  }

  /** The checks the legacy `transform` makes before it reads anything, in the
      source's order: the segment count, every hop, then the columns; on success
      the column to aggregate, the last segment as written. */
  function CheckInputs(contexts: seq<string>, sampleColumns: seq<string>, aggColumns: seq<string>): (r: Result<string>)
    ensures |contexts| <= 2 ==> r == Err(TooFewSegments(|contexts|))
    ensures r.Ok? ==> |contexts| >= 3 && r.value == contexts[|contexts| - 1]
  {
    if |contexts| <= 2 then Err(TooFewSegments(|contexts|))
    else
      var _ :- Netcbs.CheckEach(contexts[1..|contexts| - 1], Checked);
      var _ :- ValidateColumns(sampleColumns, ["RINPERSOON", "RINPERSOONS"]);
      var column := contexts[|contexts| - 1];
      var _ :- ValidateColumns(aggColumns, ["RINPERSOON", "RINPERSOONS", column]);
      Ok(column)
  }

  /** The checks pass exactly when there are three segments or more, every hop
      checks, both frames have the key columns and the characteristics frame
      has the column to aggregate. */
  lemma {:induction false} CheckInputsOk(contexts: seq<string>, sampleColumns: seq<string>, aggColumns: seq<string>)
    requires |contexts| >= 3
    ensures CheckInputs(contexts, sampleColumns, aggColumns).Ok? <==>
      && (forall i :: 1 <= i < |contexts| - 1 ==> CheckContext(contexts[i]).Ok?)
      && "RINPERSOON" in sampleColumns && "RINPERSOONS" in sampleColumns
      && "RINPERSOON" in aggColumns && "RINPERSOONS" in aggColumns && contexts[|contexts| - 1] in aggColumns
  {
    var hops := contexts[1..|contexts| - 1];
    Netcbs.CheckEachOk(hops, Checked);
    assert forall i :: 1 <= i < |contexts| - 1 ==> contexts[i] == hops[i - 1];
  }

  /** One pass of the hop loop before its join: `format_path`, then
      `load_context_data`'s read. */
  function LoadHop(context: string, setting: Setting): (r: Result<Hop<Key>>)
    ensures r.Ok? <==> (FormatPath(context, setting.year, setting.root, setting.listing).Ok?
      && FormatPath(context, setting.year, setting.root, setting.listing).value.0 in setting.files)
    ensures r.Ok? ==> r.value.types == CheckContext(context).value.1
  {
    var (path, types) :- FormatPath(context, setting.year, setting.root, setting.listing);
    if path in setting.files then Ok(Hop(setting.files[path], types))
    else Err(ReadFailed(path))
  }

  /** The hops, loaded in written order; the first failure stops the loop (`Errors.MapEach`). */
  function LoadHops(ctxs: seq<string>, setting: Setting): Result<seq<Hop<Key>>> {
    MapEach(ctxs, Loader(setting))
  }

  /** One pass of the hop loop as a function of the hop's segment. */
  function Loader(setting: Setting): string -> Result<Hop<Key>> {
    context => LoadHop(context, setting)
  }

  /** The rows the legacy `transform` returns after the given hops: the hops run
      from the de-duplicated sample, the result is aggregated over the
      de-duplicated characteristics and left-joined onto the sample as given. */
  function Evaluate(sample: seq<Record<Key>>, sampleColumns: seq<string>, agg: seq<Record<Key>>,
                    aggColumns: seq<string>, hops: seq<Hop<Key>>, aggFunc: seq<Value> -> Value,
                    column: string): seq<OutRow<Key>>
  {
    var start := Initial(PrepareDataframe(sample, sampleColumns));
    var groups := AggregateData(Chain(start, hops), PrepareDataframe(agg, aggColumns), column, aggFunc);
    LeftJoin(sample, groups, 1)
  }

  /** The characteristics rows aggregated for sample person `k`. */
  function Alters(sample: seq<Record<Key>>, sampleColumns: seq<string>, agg: seq<Record<Key>>,
                  aggColumns: seq<string>, hops: seq<Hop<Key>>, k: Key): seq<Record<Key>> {
    var start := Initial(PrepareDataframe(sample, sampleColumns));
    Members(JoinRecords(Chain(start, hops), PrepareDataframe(agg, aggColumns)), k)
  }

  /** Every row of the sample as given, duplicates included, is kept once and in
      place, with the aggregate of the rows its hops reach or NULL. */
  lemma {:induction false} EvaluateRows(sample: seq<Record<Key>>, sampleColumns: seq<string>, agg: seq<Record<Key>>,
                                        aggColumns: seq<string>, hops: seq<Hop<Key>>, aggFunc: seq<Value> -> Value,
                                        column: string)
    ensures |Evaluate(sample, sampleColumns, agg, aggColumns, hops, aggFunc, column)| == |sample|
    ensures forall i :: 0 <= i < |sample| ==>
      var alters := Alters(sample, sampleColumns, agg, aggColumns, hops, sample[i].key);
      Evaluate(sample, sampleColumns, agg, aggColumns, hops, aggFunc, column)[i] ==
        OutRow(sample[i], if alters == [] then Nulls(1) else [aggFunc(Column(alters, column))])
  {
    var start := Initial(PrepareDataframe(sample, sampleColumns));
    var joined := JoinRecords(Chain(start, hops), PrepareDataframe(agg, aggColumns));
    var summarize := Summarize(aggFunc, column);
    var groups := GroupBy(joined, summarize);
    GroupByDistinct(joined, summarize);
    LeftJoinKeepsRows(sample, groups, 1);
    forall i | 0 <= i < |sample| {
      GroupLookup(joined, summarize, sample[i].key, 1);
    }
  }

  /** The rows aggregated for a sample person are characteristics rows of persons
      its hops reach, and there are some exactly when the hops reach a person
      with a characteristics row. */
  lemma {:induction false} AltersReached(sample: seq<Record<Key>>, sampleColumns: seq<string>, agg: seq<Record<Key>>,
                                         aggColumns: seq<string>, hops: seq<Hop<Key>>, i: nat)
    requires i < |sample|
    ensures var k := sample[i].key;
      var alters := Alters(sample, sampleColumns, agg, aggColumns, hops, k);
      && (forall rec :: rec in alters ==> rec in agg && Reaches(hops, k, rec.key))
      && (alters != [] <==> exists rec :: rec in PrepareDataframe(agg, aggColumns) && Reaches(hops, k, rec.key))
  {
    var k := sample[i].key;
    var prepared := PrepareDataframe(sample, sampleColumns);
    assert HasKey(sample, k) by { assert sample[i] in sample; }
    var x :| x in prepared && x.key == k;
    var n :| 0 <= n < |prepared| && prepared[n] == x;
    InitialLinks(prepared);
    assert Link(k, k) in Initial(prepared);
    ReachedMembers(Initial(prepared), hops, PrepareDataframe(agg, aggColumns), k);
  }

  /** What the legacy `transform` returns or raises: the checks, then the rest. */
  function TransformSpec(query: string, sample: seq<Record<Key>>, sampleColumns: seq<string>,
                         agg: seq<Record<Key>>, aggColumns: seq<string>, aggFunc: seq<Value> -> Value,
                         setting: Setting): (r: Result<Table>)
    ensures r.Ok? ==> |Split(Strip(query), " -> ")| >= 3
  {
    var contexts := Split(Strip(query), " -> ");
    var column :- CheckInputs(contexts, sampleColumns, aggColumns);
    Finish(contexts, sample, sampleColumns, agg, aggColumns, aggFunc, column, setting)
  }

  /** What the legacy `transform` returns or raises once the checks pass: the
      hops between `sample` and the variable, then the aggregated frame. */
  function Finish(contexts: seq<string>, sample: seq<Record<Key>>, sampleColumns: seq<string>,
                  agg: seq<Record<Key>>, aggColumns: seq<string>, aggFunc: seq<Value> -> Value,
                  column: string, setting: Setting): (r: Result<Table>)
    requires |contexts| >= 2
    ensures r.Ok? <==> LoadHops(contexts[1..|contexts| - 1], setting).Ok?
  {
    var hops :- LoadHops(contexts[1..|contexts| - 1], setting);
    Ok(Table(sampleColumns + [column], Evaluate(sample, sampleColumns, agg, aggColumns, hops, aggFunc, column)))
  }

  /** The hop loop of the legacy `transform`: each pass resolves a hop's file,
      loads its rows of the hop's codes and merges them into the frame, stopping
      at the first hop that fails. */
  method RunHops(ctxs: seq<string>, start: seq<Link<Key>>, setting: Setting) returns (r: Result<seq<Link<Key>>>)
    ensures r.Ok? <==> LoadHops(ctxs, setting).Ok?
    ensures r.Ok? ==> r.value == Chain(start, LoadHops(ctxs, setting).value)
    ensures r.Err? ==> r.error == LoadHops(ctxs, setting).error
  {
    var df := start;
    ghost var hops: seq<Hop<Key>> := [];
    var i := 0;
    while i < |ctxs|
      invariant i <= |ctxs|
      invariant LoadHops(ctxs[..i], setting) == Ok(hops)
      invariant df == Chain(start, hops)
    {
      assert ctxs[..i + 1][..i] == ctxs[..i];
      var loaded := LoadHop(ctxs[i], setting);
      if loaded.Err? {
        MapEachPrefixErr(ctxs, Loader(setting), i + 1);
        return Err(loaded.error);
      }
      assert (hops + [loaded.value])[..|hops|] == hops;
      df := HopJoin(df, loaded.value);
      hops := hops + [loaded.value];
      i := i + 1;
    }
    assert ctxs[..i] == ctxs;
    return Ok(df);
  }

  /** The legacy `transform`: checks, then the rest. */
  method Transform(query: string, sample: seq<Record<Key>>, sampleColumns: seq<string>,
                   agg: seq<Record<Key>>, aggColumns: seq<string>, aggFunc: seq<Value> -> Value,
                   setting: Setting) returns (r: Result<Table>)
    ensures r == TransformSpec(query, sample, sampleColumns, agg, aggColumns, aggFunc, setting)
  {
    var contexts := Split(Strip(query), " -> ");
    var checked := CheckInputs(contexts, sampleColumns, aggColumns);
    if checked.Err? {
      return Err(checked.error);
    }
    r := RunQuery(contexts, sample, sampleColumns, agg, aggColumns, aggFunc, checked.value, setting);
  }

  /** The part of the legacy `transform` after the checks: de-duplicates both
      frames, runs the hop loop, aggregates and left-joins onto the sample as
      given. */
  method RunQuery(contexts: seq<string>, sample: seq<Record<Key>>, sampleColumns: seq<string>,
                  agg: seq<Record<Key>>, aggColumns: seq<string>, aggFunc: seq<Value> -> Value,
                  column: string, setting: Setting) returns (r: Result<Table>)
    requires |contexts| >= 2
    ensures r == Finish(contexts, sample, sampleColumns, agg, aggColumns, aggFunc, column, setting)
  {
    var df := PrepareDataframe(sample, sampleColumns);
    var aggRows := PrepareDataframe(agg, aggColumns);
    var last :- RunHops(contexts[1..|contexts| - 1], Initial(df), setting);
    var groups := AggregateData(last, aggRows, column, aggFunc);
    return Ok(Table(sampleColumns + [column], LeftJoin(sample, groups, 1)));
  }
}

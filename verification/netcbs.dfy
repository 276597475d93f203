/** The query language and file resolution of the current netCBS package
    (netcbs/netcbs.py): the relationship codebook, the context tables, the parsing
    and checking of one hop such as `Family[301, 302]`, the choice of the latest
    version of a CBS network file, and the validation of a whole query
    `[VAR1, VAR2] -> Context[...] -> ... -> sample`. */
module Netcbs {
  import opened Errors
  import opened Python

  // ---------------------------------------------------------------------------
  // Constant tables
  // ---------------------------------------------------------------------------

  /** Relationship code (RELATIE) to its description. */
  const Codebook: map<int, string> := map[
    101 := "Neighbor - 10 closest addresses",
    102 := "Neighborhood acquaintance - 20 random neighbors within 200 meters",
    201 := "Colleague",
    301 := "Parent",
    302 := "Co-parent",
    303 := "Grandparent",
    304 := "Child",
    305 := "Grandchild",
    306 := "Full sibling",
    307 := "Half sibling",
    308 := "Unknown sibling",
    309 := "Cousin",
    310 := "Nephew/Niece",
    311 := "Aunt/Uncle",
    312 := "Partner - married",
    313 := "Partner - not married",
    314 := "Parent-in-law",
    315 := "Child-in-law",
    316 := "Sibling-in-law",
    317 := "Stepparent",
    318 := "Stepchild",
    319 := "Stepsibling",
    320 := "Married full cousin",
    321 := "Married cousin",
    322 := "Married aunt/uncle",
    401 := "Housemate",
    402 := "Housemate - institution",
    501 := "Classmate primary education",
    502 := "Classmate special education",
    503 := "Classmate secondary education",
    504 := "Classmate vocational education",
    505 := "Classmate higher professional education",
    506 := "Classmate university education"
  ]

  /** Context name to the folder (and file prefix) of its network table. */
  const ContextToPath: map<string, string> := map[
    "Family" := "FAMILIENETWERKTAB",
    "Colleagues" := "COLLEGANETWERKTAB",
    "Neighbors" := "BURENNETWERKTAB",
    "Schoolmates" := "KLASGENOTENNETWERKTAB",
    "Housemates" := "HUISGENOTENNETWERKTAB"
  ]

  /** Context name to the relationship codes it may select. */
  const ContextToTypes: map<string, set<int>> := map[
    "Family" := set x: int | 301 <= x < 323,
    "Colleagues" := {201},
    "Neighbors" := {101, 102},
    "Schoolmates" := {501, 502, 503, 504, 505, 506},
    "Housemates" := {401, 402}
  ]

  /** The two context tables name the same contexts. */
  lemma {:induction false} ContextTablesAgree()
    ensures ContextToPath.Keys == ContextToTypes.Keys
  {
  }

  /** Every code a context allows is described in the codebook. */
  lemma {:induction false} CodesInCodebook(b: string, c: int)
    requires b in ContextToTypes && c in ContextToTypes[b]
    ensures c in Codebook
  {
    if b == "Family" {
      FamilyInCodebook(c);
    }
  }

  /** The family codes 301 to 322 are all in the codebook. */
  lemma {:induction false} FamilyInCodebook(c: int)
    requires 301 <= c < 323
    ensures c in Codebook
  {
    if c < 312 {
      assert c in {301, 302, 303, 304, 305, 306, 307, 308, 309, 310, 311};
    } else {
      assert c in {312, 313, 314, 315, 316, 317, 318, 319, 320, 321, 322};
    }
  }

  /** Every folder name ends in "TAB", which `format_path` drops and re-adds. */
  lemma {:induction false} FoldersEndInTab(b: string)
    requires b in ContextToPath
    ensures |ContextToPath[b]| >= 3 && ContextToPath[b][|ContextToPath[b]| - 3..] == "TAB"
  {
  }

  /** The context names are written without brackets or surrounding whitespace. */
  lemma {:induction false} BaseNames(b: string)
    requires b in ContextToTypes
    ensures b != [] && b[0] !in Whitespace && b[|b| - 1] !in Whitespace && '[' !in b
  {
  }

  // ---------------------------------------------------------------------------
  // Columns and aggregation variables
  // ---------------------------------------------------------------------------

  /** The required columns that are absent. */
  function Missing(present: seq<string>, required: seq<string>): (m: seq<string>)
    ensures forall c :: c in m <==> c in required && c !in present
    ensures |m| <= |required|
  {
    if required == [] then []
    else
      assert forall c :: c in required <==> c == required[0] || c in required[1..];
      (if required[0] in present then [] else [required[0]]) + Missing(present, required[1..])
  }

  /** `_validate_columns`: fails, listing what is missing, unless every required
      column is present. */
  function ValidateColumns(present: seq<string>, required: seq<string>): (r: Result<()>)
    ensures r.Ok? <==> forall c :: c in required ==> c in present
    ensures r.Err? ==> (r.error.MissingColumns? && r.error.columns != []
      && forall c :: c in r.error.columns <==> c in required && c !in present)
  {
    var m := Missing(present, required);
    assert m != [] ==> m[0] in m;
    if m == [] then Ok(())
    else Err(MissingColumns(m))
  }

  /** The pieces that are not blank, stripped. */
  function StrippedNonBlank(pieces: seq<string>): (names: seq<string>)
    ensures forall n :: n in names ==> n != [] && Trimmed(n)
    ensures |names| <= |pieces|
  {
    if pieces == [] then []
    else
      var head := if Blank(pieces[0]) then [] else (StripIdempotent(pieces[0]); [Strip(pieces[0])]);
      head + StrippedNonBlank(pieces[1..])
  }

  /** Stripping adds no character: one absent from every piece is absent from
      every name. */
  lemma {:induction false} StrippedNonBlankChars(pieces: seq<string>, c: char)
    requires forall i :: 0 <= i < |pieces| ==> c !in pieces[i]
    ensures forall n :: n in StrippedNonBlank(pieces) ==> c !in n
  {
    if pieces != [] {
      StrippedNonBlankChars(pieces[1..], c);
      if c in Strip(pieces[0]) {
        StripChars(pieces[0], c);
      }
    }
  }

  /** `_format_vars_agg`: the names between the brackets of `[VAR1, VAR2, ...]`,
      comma-separated, stripped, blanks dropped. */
  function FormatVarsAgg(agg: string): (names: seq<string>)
    ensures forall n :: n in names ==> n != [] && Trimmed(n)
  {
    var inner := RStrip(LStrip(Strip(agg), {'['}), {']'});
    StrippedNonBlank(Split(inner, ","))
  }

  /** No name read from the brackets holds a comma. */
  lemma {:induction false} FormatVarsAggNoComma(agg: string)
    ensures forall n :: n in FormatVarsAgg(agg) ==> ',' !in n
  {
    var inner := RStrip(LStrip(Strip(agg), {'['}), {']'});
    SplitPiecesChar(inner, ',');
    StrippedNonBlankChars(Split(inner, ","), ',');
  }

  /** A bracketed list of comma-separated pieces reads as the pieces that are not
      blank, stripped, in order. */
  lemma {:induction false} FormatVarsAggPieces(pieces: seq<string>)
    requires pieces != []
    requires forall i :: 0 <= i < |pieces| ==> ',' !in pieces[i] && '[' !in pieces[i] && ']' !in pieces[i]
    ensures FormatVarsAgg("[" + Join(pieces, ",") + "]") == StrippedNonBlank(pieces)
  {
    var j := Join(pieces, ",");
    if '[' in j { JoinChars(pieces, ",", '['); }
    if ']' in j { JoinChars(pieces, ",", ']'); }
    Unbracket(j);
    SplitJoin(pieces, ',');
  }

  /** A bracketed, comma-separated list of plain names reads back as those names. */
  lemma {:induction false} FormatVarsAggRoundTrip(names: seq<string>)
    requires forall i :: 0 <= i < |names| ==>
      names[i] != [] && Trimmed(names[i]) && ',' !in names[i] && '[' !in names[i] && ']' !in names[i]
    ensures FormatVarsAgg("[" + Join(names, ",") + "]") == names
  {
    if names == [] {
      Unbracket("");
      assert Split("", ",") == [""];
    } else {
      FormatVarsAggPieces(names);
      KeepPlainNames(names);
    }
  }

  /** The usual spelling `[a, b]`, a space after the comma, reads as `a` and `b`. */
  lemma {:induction false} FormatVarsAggSpaced(a: string, b: string)
    requires a != [] && Trimmed(a) && ',' !in a && '[' !in a && ']' !in a
    requires b != [] && Trimmed(b) && ',' !in b && '[' !in b && ']' !in b
    ensures FormatVarsAgg("[" + a + ", " + b + "]") == [a, b]
  {
    var sb := " " + b;
    assert forall c :: c in sb ==> c == ' ' || c in b;
    var pieces := [a, sb];
    assert Join(pieces, ",") == a + ", " + b by {
      assert pieces[1..] == [sb];
    }
    assert "[" + a + ", " + b + "]" == "[" + Join(pieces, ",") + "]";
    FormatVarsAggPieces(pieces);
    StripTrimmed(a);
    StripLeadingSpace(b);
    StrippedNonBlankTwo(a, sb);
  }

  /** Two pieces that are not blank read as the two stripped. */
  lemma {:induction false} StrippedNonBlankTwo(x: string, y: string)
    requires !Blank(x) && !Blank(y)
    ensures StrippedNonBlank([x, y]) == [Strip(x), Strip(y)]
  {
    assert [x, y][1..] == [y];
    assert [y][1..] == [];
  }

  /** Stripping the brackets off `[text]` gives back `text` when it holds none. */
  lemma {:induction false} Unbracket(j: string)
    requires '[' !in j && ']' !in j
    ensures RStrip(LStrip(Strip("[" + j + "]"), {'['}), {']'}) == j
  {
    var agg := "[" + j + "]";
    var body := j + "]";
    assert agg[0] == '[' && agg[|agg| - 1] == ']';
    StripTrimmed(agg);
    assert agg[1..] == body;
    assert |agg| == 1 || agg[1] != '[' by {
      if j != [] { assert agg[1] == j[0]; }
    }
    LStripOne(agg, {'['});
    assert |body| == 1 || body[|body| - 2] != ']' by {
      if j != [] { assert body[|body| - 2] == j[|j| - 1]; }
    }
    RStripOne(body, {']'});
    assert body[..|body| - 1] == j;
  }

  lemma {:induction false} KeepPlainNames(names: seq<string>)
    requires forall i :: 0 <= i < |names| ==> names[i] != [] && Trimmed(names[i])
    ensures StrippedNonBlank(names) == names
  {
    if names != [] {
      var rest := names[1..];
      assert forall i :: 0 <= i < |rest| ==> rest[i] == names[i + 1];
      KeepPlainNames(rest);
      StripTrimmed(names[0]);
      assert StrippedNonBlank(names) == [names[0]] + StrippedNonBlank(rest);
      assert names == [names[0]] + rest;
    }
  }

  // ---------------------------------------------------------------------------
  // One hop: `Base[all]` or `Base[code, code, ...]`
  // ---------------------------------------------------------------------------

  /** The codes a hop asks for: all codes of its context, or a listed set. */
  datatype Codes = All | Listed(ids: set<int>)

  predicate Parses(p: string) {
    Blank(p) || ParseInt(p).Some?
  }

  /** `{int(x) for x in pieces if x.strip()}`: blank pieces are skipped, and the
      first non-blank piece `int()` rejects raises. */
  function ParseIds(pieces: seq<string>): (r: Result<set<int>>)
    ensures r.Err? ==> r.error.NotAnInteger?
  {
    if pieces == [] then Ok({})
    else if Blank(pieces[0]) then ParseIds(pieces[1..])
    else match ParseInt(pieces[0])
      case None => Err(NotAnInteger(pieces[0]))
      case Some(v) =>
        var rest :- ParseIds(pieces[1..]);
        Ok({v} + rest)
  }

  /** The codes parse exactly when every piece is blank or an integer. */
  lemma {:induction false} ParseIdsOk(pieces: seq<string>)
    ensures ParseIds(pieces).Ok? <==> forall i :: 0 <= i < |pieces| ==> Parses(pieces[i])
  {
    if pieces != [] {
      var rest := pieces[1..];
      ParseIdsOk(rest);
      assert forall i :: 1 <= i < |pieces| ==> pieces[i] == rest[i - 1];
    }
  }

  /** Parsed codes are the integers the non-blank pieces spell. */
  lemma {:induction false} ParseIdsValues(pieces: seq<string>, v: int)
    requires ParseIds(pieces).Ok?
    ensures v in ParseIds(pieces).value <==>
      exists i :: 0 <= i < |pieces| && !Blank(pieces[i]) && ParseInt(pieces[i]) == Some(v)
  {
    if pieces != [] {
      var rest := pieces[1..];
      ParseIdsValues(rest, v);
      if v in ParseIds(pieces).value {
        if v !in ParseIds(rest).value {
          assert !Blank(pieces[0]) && ParseInt(pieces[0]) == Some(v);
        } else {
          var i :| 0 <= i < |rest| && !Blank(rest[i]) && ParseInt(rest[i]) == Some(v);
          assert pieces[i + 1] == rest[i];
        }
      }
      if exists i :: 0 <= i < |pieces| && !Blank(pieces[i]) && ParseInt(pieces[i]) == Some(v) {
        var i :| 0 <= i < |pieces| && !Blank(pieces[i]) && ParseInt(pieces[i]) == Some(v);
        if i > 0 {
          assert rest[i - 1] == pieces[i];
        }
      }
    }
  }

  /** The error names the first piece that is neither blank nor an integer. */
  lemma {:induction false} ParseIdsFirstError(pieces: seq<string>, i: nat)
    requires i < |pieces| && !Parses(pieces[i])
    requires forall k :: 0 <= k < i ==> Parses(pieces[k])
    ensures ParseIds(pieces) == Err(NotAnInteger(pieces[i]))
  {
    if i > 0 {
      var rest := pieces[1..];
      assert Parses(pieces[0]);
      assert forall k :: 0 <= k < i - 1 ==> rest[k] == pieces[k + 1];
      ParseIdsFirstError(rest, i - 1);
    }
  }

  /** `_parse_context`: the text before the first `[` (stripped) and the codes
      inside; `all` in any letter case stands for every code. */
  function ParseContext(context: string): (r: Result<(string, Codes)>)
    ensures '[' !in context ==> r == Err(Unpack(context))
    ensures r.Ok? ==> '[' in context && Trimmed(r.value.0)
  {
    match SplitOnce(context, '[')
    case None => Err(Unpack(context))
    case Some((before, after)) =>
      var base := Strip(before);
      var types := Strip(RStrip(after, {']'}));
      StripIdempotent(before);
      if Lower(types) == "all" then Ok((base, All))
      else
        var ids :- ParseIds(Split(types, ","));
        Ok((base, Listed(ids)))
  }

  /** `_check_context`: a parsed hop whose context is known and whose codes are
      codes of that context; `all` stands for the context's whole code set. */
  function CheckContext(context: string): (r: Result<(string, set<int>)>)
    ensures r.Ok? ==> (r.value.0 in ContextToTypes && r.value.0 in ContextToPath
      && r.value.1 <= ContextToTypes[r.value.0])
  {
    ContextTablesAgree();
    var (base, codes) :- ParseContext(context);
    if base !in ContextToTypes then Err(UnknownContext(base))
    else
      var allowed := ContextToTypes[base];
      match codes
      case All => Ok((base, allowed))
      case Listed(ids) => if ids <= allowed then Ok((base, ids)) else Err(InvalidTypes(base, ids))
  }

  /** The two ways a parsed hop is rejected: an unknown context, and codes outside
      the context's codes. */
  lemma {:induction false} CheckContextRejects(context: string)
    requires ParseContext(context).Ok?
    ensures var (base, codes) := ParseContext(context).value;
      && (base !in ContextToTypes ==> CheckContext(context) == Err(UnknownContext(base)))
      && (base in ContextToTypes && codes.Listed? && !(codes.ids <= ContextToTypes[base]) ==>
            CheckContext(context) == Err(InvalidTypes(base, codes.ids)))
  {
  }

  /** `str(code)` for each code. */
  function CodeStrings(codes: seq<int>): (strs: seq<string>)
    ensures |strs| == |codes| && forall i :: 0 <= i < |codes| ==> strs[i] == IntToString(codes[i])
  {
    seq(|codes|, i requires 0 <= i < |codes| => IntToString(codes[i]))
  }

  lemma {:induction false} ParseIdsCodes(codes: seq<int>)
    ensures ParseIds(CodeStrings(codes)) == Ok(set c | c in codes)
  {
    var strs := CodeStrings(codes);
    if codes == [] {
      assert (set c | c in codes) == {};
    } else {
      var head := strs[0];
      assert CodeStrings(codes[1..]) == strs[1..];
      ParseIdsCodes(codes[1..]);
      StripTrimmed(head);
      ParseIntRoundTrip(codes[0]);
      assert ParseIds(strs) == Ok({codes[0]} + (set c | c in codes[1..]));
      SetOfCons(codes);
    }
  }

  lemma {:induction false} SetOfCons(codes: seq<int>)
    requires codes != []
    ensures (set c | c in codes) == {codes[0]} + (set c | c in codes[1..])
  {
    assert forall c :: c in codes <==> c == codes[0] || c in codes[1..];
  }

  /** How `_parse_context` takes `base[inner]` apart. */
  lemma {:induction false} BracketParts(base: string, inner: string)
    requires '[' !in base && Trimmed(base) && ']' !in inner
    ensures SplitOnce(base + "[" + inner + "]", '[') == Some((base, inner + "]"))
    ensures Strip(base) == base
    ensures RStrip(inner + "]", {']'}) == inner
  {
    assert base + "[" + inner + "]" == base + ['['] + (inner + "]");
    SplitOnceFirst(base, inner + "]", '[');
    StripTrimmed(base);
    var body := inner + "]";
    assert |body| == 1 || body[|body| - 2] != ']' by {
      if inner != [] { assert body[|body| - 2] == inner[|inner| - 1]; }
    }
    RStripOne(body, {']'});
    assert body[..|body| - 1] == inner;
  }

  /** The comma-joined codes hold no brackets. */
  lemma {:induction false} CodeListBrackets(codes: seq<int>)
    ensures var j := Join(CodeStrings(codes), ",");
      '[' !in j && ']' !in j
  {
    var strs := CodeStrings(codes);
    var j := Join(strs, ",");
    if '[' in j {
      JoinChars(strs, ",", '[');
      var i :| 0 <= i < |strs| && '[' in strs[i];
      IntToStringChars(codes[i]);
    }
    if ']' in j {
      JoinChars(strs, ",", ']');
      var i :| 0 <= i < |strs| && ']' in strs[i];
      IntToStringChars(codes[i]);
    }
  }

  /** The comma-joined codes are trimmed and are not the word `all`. */
  lemma {:induction false} CodeListWord(codes: seq<int>)
    ensures var j := Join(CodeStrings(codes), ",");
      Trimmed(j) && Lower(j) != "all"
  {
    var strs := CodeStrings(codes);
    if codes != [] {
      var j := Join(strs, ",");
      JoinFirst(strs, ",");
      JoinLast(strs, ",");
      assert j[0] == strs[0][0];
      assert Lower(j)[0] == LowerChar(j[0]);
    }
  }

  /** How `_parse_context` reads a hop written `base[inner]` with nothing around
      the name or the codes. */
  lemma {:induction false} BracketContext(base: string, inner: string)
    requires '[' !in base && Trimmed(base) && ']' !in inner && Trimmed(inner)
    ensures ParseContext(base + "[" + inner + "]") ==
      if Lower(inner) == "all" then Ok((base, All))
      else match ParseIds(Split(inner, ","))
        case Ok(ids) => Ok((base, Listed(ids)))
        case Err(e) => Err(e)
  {
    BracketParts(base, inner);
    StripTrimmed(inner);
  }

  /** A hop written as a name and a comma-separated list of codes parses to that
      name and exactly those codes. */
  lemma {:induction false} ParseContextListed(base: string, codes: seq<int>)
    requires '[' !in base && Trimmed(base)
    ensures ParseContext(base + "[" + Join(CodeStrings(codes), ",") + "]") == Ok((base, Listed(set c | c in codes)))
  {
    var strs := CodeStrings(codes);
    var j := Join(strs, ",");
    CodeListBrackets(codes);
    CodeListWord(codes);
    BracketContext(base, j);
    if codes == [] {
      assert Split(j, ",") == [""];
      assert Blank("");
    } else {
      SplitJoin(strs, ',');
    }
    ParseIdsCodes(codes);
  }

  /** A hop written as a known context and a comma-separated list of its codes
      checks to that context and exactly those codes. */
  lemma {:induction false} CheckContextListed(base: string, codes: seq<int>)
    requires base in ContextToTypes && forall c :: c in codes ==> c in ContextToTypes[base]
    ensures CheckContext(base + "[" + Join(CodeStrings(codes), ",") + "]") == Ok((base, set c | c in codes))
  {
    BaseNames(base);
    ParseContextListed(base, codes);
  }

  /** A hop written as a known context with an empty code list, `base[]`, checks
      to that context and no codes. */
  lemma {:induction false} CheckContextEmpty(base: string)
    requires base in ContextToTypes
    ensures CheckContext(base + "[]") == Ok((base, {}))
  {
    var codes: seq<int> := [];
    CheckContextListed(base, codes);
    assert Join(CodeStrings(codes), ",") == "";
    assert base + "[" + Join(CodeStrings(codes), ",") + "]" == base + "[]";
    assert (set c | c in codes) == {};
  }

  /** `Base[all]`, with `all` in any letter case, checks to the context's whole
      code set. */
  lemma {:induction false} CheckContextAll(base: string, word: string)
    requires base in ContextToTypes && Lower(word) == "all"
    ensures CheckContext(base + "[" + word + "]") == Ok((base, ContextToTypes[base]))
  {
    BaseNames(base);
    AllWord(word);
    BracketContext(base, word);
  }

  /** A word that lower-cases to `all` is trimmed and holds no `]`. */
  lemma {:induction false} AllWord(word: string)
    requires Lower(word) == "all"
    ensures Trimmed(word) && ']' !in word
  {
    assert |word| == 3;
    forall i | 0 <= i < 3
      ensures LowerChar(word[i]) == "all"[i]
    {
    }
  }

  // ---------------------------------------------------------------------------
  // Versions and paths
  // ---------------------------------------------------------------------------

  /** A directory entry: file name stem and final suffix (with its dot). */
  datatype FileEntry = FileEntry(stem: string, suffix: string)

  /** Matched by `glob("*.<format>")` and holding the year in its stem. */
  predicate Qualifies(e: FileEntry, year: string, format: string) {
    e.suffix == "." + format && Contains(e.stem, year)
  }

  /** The text after the last `V` of a stem (the whole stem if it has none). */
  function VersionText(stem: string): string {
    var parts := Split(stem, ['V']);
    parts[|parts| - 1]
  }

  predicate VersionParses(e: FileEntry) {
    ParseInt(VersionText(e.stem)).Some?
  }

  /** `[int(f.stem.split("V")[-1]) for f in entries if year in f.stem]`. */
  function Versions(entries: seq<FileEntry>, year: string, format: string): (r: Result<seq<int>>)
    ensures r.Err? ==> r.error.NotAnInteger?
  {
    if entries == [] then Ok([])
    else
      var e := entries[0];
      if !Qualifies(e, year, format) then Versions(entries[1..], year, format)
      else match ParseInt(VersionText(e.stem))
        case None => Err(NotAnInteger(VersionText(e.stem)))
        case Some(v) =>
          var rest :- Versions(entries[1..], year, format);
          Ok([v] + rest)
  }

  /** The versions are read when every qualifying entry's version parses; they are
      then the versions of the qualifying entries, and none exactly when no entry
      qualifies. */
  lemma {:induction false} VersionsSpec(entries: seq<FileEntry>, year: string, format: string)
    ensures var r := Versions(entries, year, format);
      && (r.Ok? <==> forall e :: e in entries && Qualifies(e, year, format) ==> VersionParses(e))
      && (r.Ok? ==> (r.value == [] <==> forall e :: e in entries ==> !Qualifies(e, year, format)))
      && (r.Ok? ==> forall v :: v in r.value <==>
            exists e :: e in entries && Qualifies(e, year, format) && ParseInt(VersionText(e.stem)) == Some(v))
  {
    if entries != [] {
      var e := entries[0];
      VersionsSpec(entries[1..], year, format);
      assert forall x :: x in entries <==> x == e || x in entries[1..];
    }
  }

  /** `v` is the highest version among the qualifying entries, all of which parse. */
  predicate IsLatest(entries: seq<FileEntry>, year: string, format: string, v: int) {
    && (exists e :: e in entries && Qualifies(e, year, format) && ParseInt(VersionText(e.stem)) == Some(v))
    && forall e :: e in entries && Qualifies(e, year, format) ==>
         VersionParses(e) && ParseInt(VersionText(e.stem)).value <= v
  }

  /** `_check_last_version` over a directory listing: the highest version of the
      files with the format's suffix whose stem holds the year. */
  function CheckLastVersion(dir: string, entries: seq<FileEntry>, year: string, format: string): (r: Result<int>)
    ensures r.Err? ==> r.error == NoVersions(dir) || r.error.NotAnInteger?
  {
    var vs :- Versions(entries, year, format);
    if vs == [] then Err(NoVersions(dir)) else Ok(Max(vs))
  }

  /** The version found is the latest; there is none exactly when no entry
      qualifies, and otherwise the call fails only on a version `int()` rejects. */
  lemma {:induction false} CheckLastVersionSpec(dir: string, entries: seq<FileEntry>, year: string, format: string)
    ensures var r := CheckLastVersion(dir, entries, year, format);
      && (r.Ok? ==> IsLatest(entries, year, format, r.value))
      && (r == Err(NoVersions(dir)) <==> forall e :: e in entries ==> !Qualifies(e, year, format))
      && (r.Err? && r.error != NoVersions(dir) ==>
            r.error.NotAnInteger? && exists e :: e in entries && Qualifies(e, year, format) && !VersionParses(e))
  {
    VersionsSpec(entries, year, format);
  }

  /** The entries of a directory; globbing a directory that does not exist finds
      nothing. */
  function Listing(listing: map<string, seq<FileEntry>>, dir: string): seq<FileEntry> {
    if dir in listing then listing[dir] else []
  }

  /** The folder of a context's network files: parquet copies live in a
      "geconverteerde data" sub-folder. */
  function Directory(root: string, base: string, format: string): string
    requires base in ContextToPath
  {
    root + "/" + ContextToPath[base] + (if format == "csv" then "" else "/geconverteerde data")
  }

  /** The stem of a context's network file for a year and version: the folder
      name without its "TAB", the year, then "TABV" and the version. */
  function FileStem(base: string, year: int, version: int): string
    requires base in ContextToPath
  {
    DropLast(ContextToPath[base], 3) + IntToString(year) + "TABV" + IntToString(version)
  }

  /** The file name `format_path` builds holds the year: listed in its folder, it
      would itself qualify. */
  lemma {:induction false} FileStemYear(base: string, year: int, version: int, format: string)
    requires base in ContextToPath
    ensures Qualifies(FileEntry(FileStem(base, year, version), "." + format), IntToString(year), format)
  {
    var prefix := DropLast(ContextToPath[base], 3);
    var y := IntToString(year);
    var tail := "TABV" + IntToString(version);
    assert FileStem(base, year, version) == prefix + y + tail;
    MiddleContained(prefix, y, tail);
  }

  /** A stem ending in `V` and a version number reads back as that version. */
  lemma {:induction false} VersionAfterLastV(head: string, version: int)
    ensures ParseInt(VersionText(head + ['V'] + IntToString(version))) == Some(version)
  {
    SplitLastPiece(head, IntToString(version), 'V');
    ParseIntRoundTrip(version);
  }

  /** The file name `format_path` builds carries the chosen version after its
      last `V`. */
  lemma {:induction false} FileStemVersion(base: string, year: int, version: int)
    requires base in ContextToPath
    ensures ParseInt(VersionText(FileStem(base, year, version))) == Some(version)
  {
    var head := DropLast(ContextToPath[base], 3) + IntToString(year) + "TAB";
    assert FileStem(base, year, version) == head + ['V'] + IntToString(version);
    VersionAfterLastV(head, version);
  }

  /** `format_path`: the checked hop's codes and the path of the latest version of
      its context's network file for the year. */
  function FormatPath(context: string, year: int, root: string, format: string,
                      listing: map<string, seq<FileEntry>>): (r: Result<(string, set<int>)>)
    ensures r.Ok? ==> CheckContext(context).Ok? && r.value.1 == CheckContext(context).value.1
  {
    var (base, ids) :- CheckContext(context);
    var dir := Directory(root, base, format);
    var version :- CheckLastVersion(dir, Listing(listing, dir), IntToString(year), format);
    Ok((dir + "/" + FileStem(base, year, version) + "." + format, ids))
  }

  /** The file `format_path` names lies in its context's folder, and as an entry of
      that folder it would qualify for the year with the latest version there. */
  lemma {:induction false} FormatPathLatest(context: string, year: int, root: string, format: string,
                                            listing: map<string, seq<FileEntry>>)
    requires FormatPath(context, year, root, format, listing).Ok?
    ensures CheckContext(context).Ok?
    ensures var base := CheckContext(context).value.0;
      var dir := Directory(root, base, format);
      exists v ::
        && FormatPath(context, year, root, format, listing).value.0 == dir + "/" + FileStem(base, year, v) + "." + format
        && IsLatest(Listing(listing, dir), IntToString(year), format, v)
        && Qualifies(FileEntry(FileStem(base, year, v), "." + format), IntToString(year), format)
        && ParseInt(VersionText(FileStem(base, year, v))) == Some(v)
  {
    var base := CheckContext(context).value.0;
    var dir := Directory(root, base, format);
    var v := CheckLastVersion(dir, Listing(listing, dir), IntToString(year), format).value;
    CheckLastVersionSpec(dir, Listing(listing, dir), IntToString(year), format);
    FileStemYear(base, year, v, format);
    FileStemVersion(base, year, v);
  }

  // ---------------------------------------------------------------------------
  // validate_query
  // ---------------------------------------------------------------------------

  function StripAll(parts: seq<string>): (r: seq<string>)
    ensures |r| == |parts| && forall i :: 0 <= i < |parts| ==> r[i] == Strip(parts[i])
  {
    seq(|parts|, i requires 0 <= i < |parts| => Strip(parts[i]))
  }

  /** One pass of the hop loop of `validate_query`: the hop checks, and with
      `checkFiles` its network file resolves too. */
  function CheckHop(hop: string, year: int, root: string, format: string, checkFiles: bool,
                    listing: map<string, seq<FileEntry>>): (r: Result<()>)
    ensures r.Ok? ==> CheckContext(hop).Ok? && (checkFiles ==> FormatPath(hop, year, root, format, listing).Ok?)
  {
    var _ :- CheckContext(hop);
    if checkFiles then
      var _ :- FormatPath(hop, year, root, format, listing);
      Ok(())
    else Ok(())
  }

  /** A loop that runs a check on each item in turn and stops at the first failure. */
  function CheckEach<T>(items: seq<T>, check: T -> Result<()>): (r: Result<()>)
    ensures items == [] ==> r.Ok?
  {
    if items == [] then Ok(())
    else
      var _ :- check(items[0]);
      CheckEach(items[1..], check)
  }

  /** The loop passes exactly when every item passes. */
  lemma {:induction false} CheckEachOk<T>(items: seq<T>, check: T -> Result<()>)
    ensures CheckEach(items, check).Ok? <==> forall i :: 0 <= i < |items| ==> check(items[i]).Ok?
  {
    if items != [] {
      CheckEachOk(items[1..], check);
      assert forall i :: 1 <= i < |items| ==> items[i] == items[1..][i - 1];
    }
  }

  /** The loop fails with the error of the first item that fails. */
  lemma {:induction false} CheckEachFirstError<T>(items: seq<T>, check: T -> Result<()>, i: nat)
    requires i < |items| && check(items[i]).Err?
    requires forall k :: 0 <= k < i ==> check(items[k]).Ok?
    ensures CheckEach(items, check) == check(items[i])
  {
    if i > 0 {
      assert forall k :: 0 <= k < i - 1 ==> items[1..][k] == items[k + 1];
      CheckEachFirstError(items[1..], check, i - 1);
    }
  }

  /** The segment checks of `validate_query`: no blank piece between `->` arrows and
      at least three " -> " segments; the segments, stripped, last first. */
  function Contexts(query: string): (r: Result<seq<string>>)
    ensures r.Ok? ==> |r.value| >= 3
  {
    if exists p :: p in Split(Strip(query), "->") && Blank(p) then Err(EmptySegment)
    else
      var contexts := Reverse(StripAll(Split(Strip(query), " -> ")));
      if |contexts| <= 2 then Err(TooFewSegments(|contexts|)) else Ok(contexts)
  }

  /** The segment checks pass exactly when no piece between arrows is blank and
      there are at least three segments; the error names the check that failed,
      and the result lists the stripped segments from the last to the first. */
  lemma {:induction false} ContextsSpec(query: string)
    ensures var segs := Split(Strip(query), " -> ");
      var r := Contexts(query);
      && (r.Ok? <==> (forall p :: p in Split(Strip(query), "->") ==> !Blank(p)) && |segs| >= 3)
      && (r.Err? ==>
            r.error == if exists p :: p in Split(Strip(query), "->") && Blank(p) then EmptySegment
                       else TooFewSegments(|segs|))
      && (r.Ok? ==> |r.value| == |segs| && forall i :: 0 <= i < |segs| ==> r.value[i] == Strip(segs[|segs| - 1 - i]))
  {
  }

  /** The column checks of `validate_query`, given the aggregation variables the
      query names: the sample has `RINPERSOON`, at least one variable is named, and
      the aggregation data has `RINPERSOON` and every variable. */
  function CheckColumns(sampleColumns: seq<string>, aggColumns: seq<string>, vars: seq<string>): (r: Result<()>)
    ensures "RINPERSOON" !in sampleColumns ==> r == Err(MissingColumns(["RINPERSOON"]))
    ensures "RINPERSOON" in sampleColumns && vars == [] ==> r == Err(NoAggregationVariables)
  {
    var _ :- ValidateColumns(sampleColumns, ["RINPERSOON"]);
    if vars == [] then Err(NoAggregationVariables)
    else ValidateColumns(aggColumns, ["RINPERSOON"] + vars)
  }

  /** The column checks pass exactly when both frames have `RINPERSOON` and the
      aggregation frame has every named variable, of which there is at least one. */
  lemma {:induction false} CheckColumnsOk(sampleColumns: seq<string>, aggColumns: seq<string>, vars: seq<string>)
    ensures CheckColumns(sampleColumns, aggColumns, vars).Ok? <==>
      && "RINPERSOON" in sampleColumns && vars != [] && "RINPERSOON" in aggColumns
      && forall v :: v in vars ==> v in aggColumns
  {
    assert forall c :: c in ["RINPERSOON"] + vars <==> c == "RINPERSOON" || c in vars;
  }

  /** The column and hop checks of `validate_query`, once the segments are known:
      on success the segments themselves. */
  function CheckQueryParts(contexts: seq<string>, sampleColumns: seq<string>, aggColumns: seq<string>,
                           year: int, root: string, format: string, checkFiles: bool,
                           listing: map<string, seq<FileEntry>>): (r: Result<seq<string>>)
    requires |contexts| >= 3
    ensures r.Ok? ==> r.value == contexts
    ensures var columns := CheckColumns(sampleColumns, aggColumns, FormatVarsAgg(contexts[|contexts| - 1]));
      columns.Err? ==> r == Err(columns.error)
  {
    var _ :- CheckColumns(sampleColumns, aggColumns, FormatVarsAgg(contexts[|contexts| - 1]));
    var _ :- CheckEach(contexts[1..|contexts| - 1], hop => CheckHop(hop, year, root, format, checkFiles, listing));
    Ok(contexts)
  }

  /** The column and hop checks pass exactly when the columns check and every hop
      between the aggregation variables and the sample checks. */
  lemma {:induction false} CheckQueryPartsOk(contexts: seq<string>, sampleColumns: seq<string>, aggColumns: seq<string>,
                                             year: int, root: string, format: string, checkFiles: bool,
                                             listing: map<string, seq<FileEntry>>)
    requires |contexts| >= 3
    ensures CheckQueryParts(contexts, sampleColumns, aggColumns, year, root, format, checkFiles, listing).Ok? <==>
      && CheckColumns(sampleColumns, aggColumns, FormatVarsAgg(contexts[|contexts| - 1])).Ok?
      && forall i :: 1 <= i < |contexts| - 1 ==> CheckHop(contexts[i], year, root, format, checkFiles, listing).Ok?
  {
    var hops := contexts[1..|contexts| - 1];
    var check := hop => CheckHop(hop, year, root, format, checkFiles, listing);
    CheckEachOk(hops, check);
    assert forall i :: 1 <= i < |contexts| - 1 ==> contexts[i] == hops[i - 1];
    assert (forall i :: 0 <= i < |hops| ==> check(hops[i]).Ok?) <==>
      forall i :: 1 <= i < |contexts| - 1 ==> CheckHop(contexts[i], year, root, format, checkFiles, listing).Ok?;
  }

  /** `validate_query`: the checks in the source's order; on success, the
      stripped " -> " segments, last first. */
  function ValidateQuery(query: string, sampleColumns: seq<string>, aggColumns: seq<string>,
                         year: int, root: string, format: string, checkFiles: bool,
                         listing: map<string, seq<FileEntry>>): (r: Result<seq<string>>)
    ensures Blank(query) ==> r == Err(EmptyQuery)
    ensures !Blank(query) && format != "csv" && format != "parquet" ==> r == Err(BadFormat(format))
    ensures !Blank(query) && (format == "csv" || format == "parquet") && Contexts(query).Err? ==>
      r == Contexts(query)
    ensures !Blank(query) && (format == "csv" || format == "parquet") && Contexts(query).Ok? ==>
      r == CheckQueryParts(Contexts(query).value, sampleColumns, aggColumns, year, root, format, checkFiles, listing)
    ensures r.Ok? ==> r == Contexts(query)
  {
    if Blank(query) then Err(EmptyQuery)
    else if format != "csv" && format != "parquet" then Err(BadFormat(format))
    else
      var contexts :- Contexts(query);
      CheckQueryParts(contexts, sampleColumns, aggColumns, year, root, format, checkFiles, listing)
  }
}

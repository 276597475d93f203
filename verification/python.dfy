/** The pieces of Python's built-in behaviour that netCBS relies on: the string
    methods `strip`, `lstrip`, `rstrip`, `split`, `lower` and `in`, `int(...)` on text,
    `str(...)` of an integer, slicing with negative steps and bounds, `max` and `min`. */
module Python {
  import opened Errors

  /** The characters for which Python's `str.isspace()` holds; `strip()` with no
      argument removes exactly these. */
  const Whitespace: set<char> := {
    '\t', '\n', '\U{B}', '\U{C}', '\r', '\U{1C}', '\U{1D}', '\U{1E}', '\U{1F}', ' ',
    '\U{85}', '\U{A0}', '\U{1680}', '\U{2000}', '\U{2001}', '\U{2002}', '\U{2003}',
    '\U{2004}', '\U{2005}', '\U{2006}', '\U{2007}', '\U{2008}', '\U{2009}', '\U{200A}',
    '\U{2028}', '\U{2029}', '\U{202F}', '\U{205F}', '\U{3000}'
  }

  // ---------------------------------------------------------------------------
  // strip / lstrip / rstrip
  // ---------------------------------------------------------------------------

  /** The first index at or after `i` whose character is not in `cs` (or `|s|`). */
  function LeadEnd(s: string, cs: set<char>, i: nat): (k: nat)
    requires i <= |s|
    ensures i <= k <= |s|
    ensures k == |s| || s[k] !in cs
    decreases |s| - i
  {
    if i < |s| && s[i] in cs then LeadEnd(s, cs, i + 1) else i
  }

  /** The end of `s[lo..j]` once its trailing characters in `cs` are dropped. */
  function TrailStart(s: string, cs: set<char>, lo: nat, j: nat): (k: nat)
    requires lo <= j <= |s|
    ensures lo <= k <= j
    ensures k == lo || s[k - 1] !in cs
    decreases j
  {
    if j > lo && s[j - 1] in cs then TrailStart(s, cs, lo, j - 1) else j
  }

  /** Everything from `i` up to `LeadEnd(s, cs, i)` is in `cs`. */
  lemma {:induction false} LeadEndSkips(s: string, cs: set<char>, i: nat)
    requires i <= |s|
    ensures forall m :: i <= m < LeadEnd(s, cs, i) ==> s[m] in cs
    decreases |s| - i
  {
    if i < |s| && s[i] in cs {
      LeadEndSkips(s, cs, i + 1);
    }
  }

  /** Everything from `TrailStart(s, cs, lo, j)` up to `j` is in `cs`. */
  lemma {:induction false} TrailStartSkips(s: string, cs: set<char>, lo: nat, j: nat)
    requires lo <= j <= |s|
    ensures forall m :: TrailStart(s, cs, lo, j) <= m < j ==> s[m] in cs
    decreases j
  {
    if j > lo && s[j - 1] in cs {
      TrailStartSkips(s, cs, lo, j - 1);
    }
  }

  /** `s.lstrip(chars)`: drop the longest prefix made of characters in `cs`. */
  function LStrip(s: string, cs: set<char>): (r: string)
    ensures |r| <= |s| && r == s[|s| - |r|..]
    ensures r == [] || r[0] !in cs
  {
    s[LeadEnd(s, cs, 0)..]
  }

  /** `s.rstrip(chars)`: drop the longest suffix made of characters in `cs`. */
  function RStrip(s: string, cs: set<char>): (r: string)
    ensures |r| <= |s| && r == s[..|r|]
    ensures r == [] || r[|r| - 1] !in cs
  {
    s[..TrailStart(s, cs, 0, |s|)]
  }

  /** `lstrip` drops only characters of `cs`. */
  lemma LStripDrops(s: string, cs: set<char>)
    ensures forall m :: 0 <= m < |s| - |LStrip(s, cs)| ==> s[m] in cs
  {
    LeadEndSkips(s, cs, 0);
  }

  /** `rstrip` drops only characters of `cs`. */
  lemma RStripDrops(s: string, cs: set<char>)
    ensures forall m :: |RStrip(s, cs)| <= m < |s| ==> s[m] in cs
  {
    TrailStartSkips(s, cs, 0, |s|);
  }

  /** A string that does not start with a character of `cs` is its own `lstrip`. */
  lemma LStripStop(s: string, cs: set<char>)
    requires s == [] || s[0] !in cs
    ensures LStrip(s, cs) == s
  {
  }

  /** A string starting with exactly one character of `cs` loses just that one. */
  lemma LStripOne(s: string, cs: set<char>)
    requires s != [] && s[0] in cs && (|s| == 1 || s[1] !in cs)
    ensures LStrip(s, cs) == s[1..]
  {
    assert LeadEnd(s, cs, 0) == LeadEnd(s, cs, 1);
  }

  /** A string that does not end with a character of `cs` is its own `rstrip`. */
  lemma RStripStop(s: string, cs: set<char>)
    requires s == [] || s[|s| - 1] !in cs
    ensures RStrip(s, cs) == s
  {
  }

  /** A string ending with exactly one character of `cs` loses just that one. */
  lemma RStripOne(s: string, cs: set<char>)
    requires s != [] && s[|s| - 1] in cs && (|s| == 1 || s[|s| - 2] !in cs)
    ensures RStrip(s, cs) == s[..|s| - 1]
  {
    assert TrailStart(s, cs, 0, |s|) == TrailStart(s, cs, 0, |s| - 1);
  }

  /** `s.strip()`: the result has no whitespace at either end. `StripDrops` shows it
      is what is left of `s` once the whitespace at both ends is dropped,
      `StripAllSpace` that it is empty exactly when `s` is all whitespace. */
  function Strip(s: string): (r: string)
    ensures |r| <= |s|
    ensures Trimmed(r)
  {
    var k := LeadEnd(s, Whitespace, 0);
    var e := TrailStart(s, Whitespace, k, |s|);
    assert e > k ==> s[k..e][0] == s[k] && s[k..e][e - k - 1] == s[e - 1];
    s[k..e]
  }

  /** `s.strip()` is a slice of `s`. */
  lemma StripSlice(s: string)
    ensures SliceAt(s, Strip(s), LeadEnd(s, Whitespace, 0))
  {
  }

  /** `s.strip()` drops only whitespace: it is a slice of `s` with nothing but
      whitespace before it and after it. */
  lemma StripDrops(s: string)
    ensures exists k :: (SliceAt(s, Strip(s), k)
      && (forall m :: 0 <= m < k ==> s[m] in Whitespace)
      && (forall m :: k + |Strip(s)| <= m < |s| ==> s[m] in Whitespace))
  {
    var k := LeadEnd(s, Whitespace, 0);
    LeadEndSkips(s, Whitespace, 0);
    TrailStartSkips(s, Whitespace, k, |s|);
    StripSlice(s);
  }

  /** `s.strip()` is empty exactly when every character of `s` is whitespace. */
  lemma StripAllSpace(s: string)
    ensures Strip(s) == [] <==> forall i :: 0 <= i < |s| ==> s[i] in Whitespace
  {
    var k := LeadEnd(s, Whitespace, 0);
    LeadEndSkips(s, Whitespace, 0);
    TrailStartSkips(s, Whitespace, k, |s|);
  }

  /** `r` occupies positions `k .. k + |r|` of `s`. */
  predicate SliceAt(s: string, r: string, k: int) {
    0 <= k <= |s| - |r| && r == s[k..k + |r|]
  }

  /** No whitespace at either end: what `strip()` leaves. */
  predicate Trimmed(s: string) {
    s == [] || (s[0] !in Whitespace && s[|s| - 1] !in Whitespace)
  }

  /** Python's truth test `not s.strip()`. */
  predicate Blank(s: string) {
    Strip(s) == []
  }

  lemma StripTrimmed(s: string)
    requires Trimmed(s)
    ensures Strip(s) == s
  {
    if s != [] {
      assert LeadEnd(s, Whitespace, 0) == 0;
      assert TrailStart(s, Whitespace, 0, |s|) == |s|;
    }
  }

  /** One space before a trimmed word is stripped away. */
  lemma StripLeadingSpace(w: string)
    requires w != [] && Trimmed(w)
    ensures Strip(" " + w) == w
  {
    var s := " " + w;
    assert s[1] == w[0] && s[|s| - 1] == w[|w| - 1];
    assert LeadEnd(s, Whitespace, 1) == 1;
    assert LeadEnd(s, Whitespace, 0) == 1;
    assert TrailStart(s, Whitespace, 1, |s|) == |s|;
    assert s[1..] == w;
  }

  lemma StripIdempotent(s: string)
    ensures Strip(Strip(s)) == Strip(s)
  {
    StripTrimmed(Strip(s));
  }

  /** Every character of `Strip(s)` is a character of `s`. */
  lemma StripChars(s: string, c: char)
    requires c in Strip(s)
    ensures c in s
  {
    var r := Strip(s);
    var k := LeadEnd(s, Whitespace, 0);
    StripSlice(s);
    var i :| 0 <= i < |r| && r[i] == c;
    assert s[k + i] == c;
  }

  // ---------------------------------------------------------------------------
  // `in`, find, split, join
  // ---------------------------------------------------------------------------

  predicate OccursAt(s: string, sub: string, i: int) {
    0 <= i && i + |sub| <= |s| && s[i..i + |sub|] == sub
  }

  /** Python's `sub in s`. */
  predicate Contains(s: string, sub: string) {
    exists i | 0 <= i <= |s| - |sub| :: OccursAt(s, sub, i)
  }

  lemma {:induction false} OccursAtChar(s: string, c: char, i: int)
    ensures OccursAt(s, [c], i) <==> 0 <= i < |s| && s[i] == c
  {
    if 0 <= i < |s| && s[i] == c {
      assert s[i..i + 1] == [c];
    }
  }

  lemma {:induction false} ContainsChar(s: string, c: char)
    ensures Contains(s, [c]) <==> c in s
  {
    if c in s {
      var i :| 0 <= i < |s| && s[i] == c;
      OccursAtChar(s, c, i);
    }
    if Contains(s, [c]) {
      var i :| 0 <= i <= |s| - 1 && OccursAt(s, [c], i);
      OccursAtChar(s, c, i);
    }
  }

  /** `sub` occurs inside any string that has it as a slice. */
  lemma {:induction false} ContainsSlice(s: string, sub: string, k: int)
    requires 0 <= k <= |s| - |sub| && s[k..k + |sub|] == sub
    ensures Contains(s, sub)
  {
    assert OccursAt(s, sub, k);
  }

  /** A string holds whatever sits between its prefix and its tail. */
  lemma {:induction false} MiddleContained(prefix: string, middle: string, tail: string)
    ensures Contains(prefix + middle + tail, middle)
  {
    var s := prefix + middle + tail;
    assert s[|prefix|..|prefix| + |middle|] == middle;
    ContainsSlice(s, middle, |prefix|);
  }

  /** The first index at or after `from` where `sub` occurs, or -1. */
  function Find(s: string, sub: string, from: nat): (k: int)
    requires sub != []
    ensures k == -1 || (from <= k && OccursAt(s, sub, k))
    ensures forall j :: from <= j && (k == -1 || j < k) ==> !OccursAt(s, sub, j)
    decreases |s| - from
  {
    if from + |sub| > |s| then -1
    else if s[from..from + |sub|] == sub then from
    else Find(s, sub, from + 1)
  }

  /** `sep.join(parts)`. */
  function Join(parts: seq<string>, sep: string): string {
    if parts == [] then []
    else if |parts| == 1 then parts[0]
    else parts[0] + sep + Join(parts[1..], sep)
  }

  /** Every character of a joined string comes from a piece or from the separator. */
  lemma {:induction false} JoinChars(parts: seq<string>, sep: string, c: char)
    requires c in Join(parts, sep)
    ensures c in sep || exists i :: 0 <= i < |parts| && c in parts[i]
    decreases |parts|
  {
    if |parts| > 1 {
      var rest := Join(parts[1..], sep);
      if c !in parts[0] && c !in sep {
        assert c in rest;
        JoinChars(parts[1..], sep, c);
        var i :| 0 <= i < |parts[1..]| && c in parts[1..][i];
        assert c in parts[i + 1];
      }
    }
  }

  /** A joined string starts like its first piece. */
  lemma {:induction false} JoinFirst(parts: seq<string>, sep: string)
    requires parts != [] && parts[0] != []
    ensures Join(parts, sep) != [] && Join(parts, sep)[0] == parts[0][0]
  {
  }

  /** A joined string ends like its last piece. */
  lemma {:induction false} JoinLast(parts: seq<string>, sep: string)
    requires parts != [] && parts[|parts| - 1] != []
    ensures Join(parts, sep) != []
    ensures Join(parts, sep)[|Join(parts, sep)| - 1] == parts[|parts| - 1][|parts[|parts| - 1]| - 1]
    decreases |parts|
  {
    if |parts| > 1 {
      JoinLast(parts[1..], sep);
    }
  }

  /** `s.split(sep)` for a non-empty separator: the pieces between the occurrences of
      `sep`, found left to right. */
  function Split(s: string, sep: string): (parts: seq<string>)
    requires sep != []
    ensures |parts| >= 1
    decreases |s|
  {
    var k := Find(s, sep, 0);
    if k == -1 then [s] else [s[..k]] + Split(s[k + |sep|..], sep)
  }

  /** Joining the pieces of a split with the separator gives back the string. */
  lemma {:induction false} SplitJoinBack(s: string, sep: string)
    requires sep != []
    ensures Join(Split(s, sep), sep) == s
    decreases |s|
  {
    var k := Find(s, sep, 0);
    if k != -1 {
      var head, rest := s[..k], s[k + |sep|..];
      var parts := Split(s, sep);
      assert parts == [head] + Split(rest, sep);
      assert parts[1..] == Split(rest, sep);
      SplitJoinBack(rest, sep);
      assert Join(parts, sep) == head + sep + Join(Split(rest, sep), sep);
      assert s == head + sep + rest;
    }
  }

  /** The text before the first occurrence found does not hold the separator. */
  lemma {:induction false} FindHead(s: string, sep: string)
    requires sep != []
    ensures var k := Find(s, sep, 0); !Contains(if k == -1 then s else s[..k], sep)
  {
    var k := Find(s, sep, 0);
    var head := if k == -1 then s else s[..k];
    forall j | 0 <= j <= |head| - |sep|
      ensures !OccursAt(head, sep, j)
    {
      assert !OccursAt(s, sep, j);
      assert head[j..j + |sep|] == s[j..j + |sep|];
    }
  }

  /** No piece of a split holds the separator. */
  lemma {:induction false} SplitPieces(s: string, sep: string)
    requires sep != []
    ensures forall i :: 0 <= i < |Split(s, sep)| ==> !Contains(Split(s, sep)[i], sep)
    decreases |s|
  {
    var k := Find(s, sep, 0);
    FindHead(s, sep);
    if k != -1 {
      var parts, tail := Split(s, sep), Split(s[k + |sep|..], sep);
      assert parts == [s[..k]] + tail;
      SplitPieces(s[k + |sep|..], sep);
      forall i | 1 <= i < |parts|
        ensures !Contains(parts[i], sep)
      {
        assert parts[i] == tail[i - 1];
      }
    }
  }

  /** A string without the separator is its own single piece. */
  lemma {:induction false} SplitNoSeparator(s: string, sep: string)
    requires sep != [] && !Contains(s, sep)
    ensures Split(s, sep) == [s]
  {
  }

  /** `split` cuts at the leftmost occurrence of the separator: when `k` is the
      first index where `sep` occurs, the first piece is `s[..k]` and the split
      goes on after that occurrence, even where a later occurrence overlaps it. */
  lemma {:induction false} SplitLeftmost(s: string, sep: string, k: nat)
    requires sep != [] && OccursAt(s, sep, k)
    requires forall j :: 0 <= j < k ==> !OccursAt(s, sep, j)
    ensures var parts := Split(s, sep);
      |parts| >= 2 && parts[0] == s[..k] && parts[1..] == Split(s[k + |sep|..], sep)
  {
    assert Find(s, sep, 0) == k;
  }

  /** The overlapping case: `"x -> -> y".split(" -> ")` is `["x", "-> y"]`. */
  lemma {:induction false} SplitOverlapExample()
    ensures Split("x -> -> y", " -> ") == ["x", "-> y"]
  {
    SplitOverlap("x -> -> y", " -> ");
  }

  /** Proof helper for `SplitOverlapExample`, with the two strings as parameters. */
  lemma {:induction false} SplitOverlap(s: string, sep: string)
    requires s == "x -> -> y" && sep == " -> "
    ensures Split(s, sep) == ["x", "-> y"]
  {
    assert !OccursAt(s, sep, 0) by { assert s[0] != sep[0]; }
    assert s[1..5] == sep;
    SplitLeftmost(s, sep, 1);
    var tail := s[5..];
    assert s[..1] == "x" && tail == "-> y";
    assert !Contains(tail, sep) by {
      assert !OccursAt(tail, sep, 0) by { assert tail[0] != sep[0]; }
    }
    SplitNoSeparator(tail, sep);
  }

  /** A string missing one character of `sub` does not contain `sub`. */
  lemma {:induction false} MissingCharNotContains(s: string, sub: string, k: nat)
    requires k < |sub| && sub[k] !in s
    ensures !Contains(s, sub)
  {
    forall i | 0 <= i <= |s| - |sub|
      ensures !OccursAt(s, sub, i)
    {
      assert s[i + k] in s;
    }
  }

  /** When the separator has a character that occurs once in it and not at all in
      `a`, the first piece of `a + sep + rest` is `a`. */
  lemma {:induction false} SplitFirst(a: string, sep: string, rest: string, k: nat)
    requires k < |sep| && sep[k] !in a
    requires forall m :: 0 <= m < |sep| && m != k ==> sep[m] != sep[k]
    ensures Split(a + sep + rest, sep) == [a] + Split(rest, sep)
  {
    var s := a + sep + rest;
    assert s[|a|..|a| + |sep|] == sep;
    forall j | 0 <= j < |a|
      ensures !OccursAt(s, sep, j)
    {
      if j + k < |a| {
        assert s[j + k] == a[j + k];
      } else {
        assert s[j + k] == sep[j + k - |a|];
      }
    }
    assert OccursAt(s, sep, |a|);
    assert Find(s, sep, 0) == |a|;
    assert s[..|a|] == a;
    assert s[|a| + |sep|..] == rest;
  }

  /** `s.split(c)` has one more piece than `s` has occurrences of `c`; so the
      two-name unpacking `a, b = s.split(c)` succeeds exactly when `c` occurs once. */
  lemma {:induction false} SplitCount(s: string, c: char)
    ensures |Split(s, [c])| == multiset(s)[c] + 1
    decreases |s|
  {
    var k := Find(s, [c], 0);
    if k == -1 {
      if c in s {
        var i :| 0 <= i < |s| && s[i] == c;
        OccursAtChar(s, c, i);
      }
    } else {
      OccursAtChar(s, c, k);
      var head, rest := s[..k], s[k + 1..];
      assert s == head + [c] + rest;
      forall j | 0 <= j < k
        ensures s[j] != c
      {
        OccursAtChar(s, c, j);
      }
      assert c !in head;
      SplitCount(rest, c);
    }
  }

  /** The pieces of a split on a character do not hold that character. */
  lemma {:induction false} SplitPiecesChar(s: string, c: char)
    ensures forall i :: 0 <= i < |Split(s, [c])| ==> c !in Split(s, [c])[i]
  {
    var parts := Split(s, [c]);
    SplitPieces(s, [c]);
    forall i | 0 <= i < |parts|
      ensures c !in parts[i]
    {
      ContainsChar(parts[i], c);
    }
  }

  /** Splitting at the first separator found: its head, then the split of the rest. */
  lemma SplitAt(s: string, c: char, k: int)
    requires Find(s, [c], 0) == k && k != -1
    ensures 0 <= k < |s| && Split(s, [c]) == [s[..k]] + Split(s[k + 1..], [c])
  {
  }

  /** The last piece of `s.split(c)` is what follows a `c` with no `c` after it. */
  lemma {:induction false} LastPieceAfter(s: string, i: nat, c: char)
    requires i < |s| && s[i] == c && c !in s[i + 1..]
    ensures var parts := Split(s, [c]); parts[|parts| - 1] == s[i + 1..]
    decreases |s|
  {
    var k := Find(s, [c], 0);
    OccursAtChar(s, c, i);
    assert k != -1 && k <= i;
    var rest := s[k + 1..];
    SplitAt(s, c, k);
    if k == i {
      ContainsChar(rest, c);
      SplitNoSeparator(rest, [c]);
    } else {
      assert rest[i - k - 1] == c && rest[i - k..] == s[i + 1..];
      LastPieceAfter(rest, i - k - 1, c);
    }
  }

  /** The last piece of `s.split(c)` is what follows the last `c`. */
  lemma SplitLastPiece(a: string, b: string, c: char)
    requires c !in b
    ensures var parts := Split(a + [c] + b, [c]); parts[|parts| - 1] == b
  {
    var s := a + [c] + b;
    assert s[|a|] == c && s[|a| + 1..] == b;
    LastPieceAfter(s, |a|, c);
  }

  /** `s.split(c, 1)`: the text before the first `c` and the text after it, or None
      when `c` does not occur. */
  function SplitOnce(s: string, c: char): (r: Option<(string, string)>)
    ensures r.None? <==> c !in s
    ensures r.Some? ==> s == r.value.0 + [c] + r.value.1 && c !in r.value.0
  {
    if s == [] then None
    else if s[0] == c then Some(([], s[1..]))
    else match SplitOnce(s[1..], c)
      case None => None
      case Some(parts) => Some(([s[0]] + parts.0, parts.1))
  }

  /** Splitting once on `c` finds the first `c`. */
  lemma {:induction false} SplitOnceFirst(a: string, b: string, c: char)
    requires c !in a
    ensures SplitOnce(a + [c] + b, c) == Some((a, b))
    decreases |a|
  {
    var s := a + [c] + b;
    if a == [] {
      assert s[1..] == b;
    } else {
      assert s[1..] == a[1..] + [c] + b;
      SplitOnceFirst(a[1..], b, c);
      assert [a[0]] + a[1..] == a;
    }
  }

  /** Splitting on a character undoes joining on it, when no piece holds it. */
  lemma {:induction false} SplitJoin(parts: seq<string>, c: char)
    requires parts != []
    requires forall i :: 0 <= i < |parts| ==> c !in parts[i]
    ensures Split(Join(parts, [c]), [c]) == parts
    decreases |parts|
  {
    var s := Join(parts, [c]);
    var p := parts[0];
    ContainsChar(p, c);
    if |parts| == 1 {
      SplitNoSeparator(p, [c]);
    } else {
      var rest := Join(parts[1..], [c]);
      assert s == p + [c] + rest;
      OccursAtChar(s, c, |p|);
      var k := Find(s, [c], 0);
      OccursAtChar(s, c, k);
      assert k == |p|;
      assert s[..k] == p;
      assert s[k + 1..] == rest;
      SplitJoin(parts[1..], c);
    }
  }

  /** `s.replace(c, "")`: `s` without any `c`, the other characters in order. */
  function RemoveChar(s: string, c: char): (r: string)
    ensures forall x :: x in r <==> x in s && x != c
    ensures c !in s ==> r == s
  {
    if s == [] then []
    else
      assert forall x :: x in s <==> x == s[0] || x in s[1..];
      assert [s[0]] + s[1..] == s;
      (if s[0] == c then [] else [s[0]]) + RemoveChar(s[1..], c)
  }

  /** `replace` keeps every other character as often as it occurs. */
  lemma {:induction false} RemoveCharCount(s: string, c: char)
    ensures multiset(RemoveChar(s, c)) == multiset(s)[c := 0]
  {
    if s != [] {
      RemoveCharCount(s[1..], c);
      assert s == [s[0]] + s[1..];
    }
  }

  /** `replace` works left to right: removing from a concatenation removes from
      each part, so the characters kept stay in their order. */
  lemma {:induction false} RemoveCharAppend(a: string, b: string, c: char)
    ensures RemoveChar(a + b, c) == RemoveChar(a, c) + RemoveChar(b, c)
    decreases |a|
  {
    if a == [] {
      assert a + b == b;
    } else {
      assert (a + b)[1..] == a[1..] + b;
      RemoveCharAppend(a[1..], b, c);
    }
  }

  // ---------------------------------------------------------------------------
  // slicing, max, min
  // ---------------------------------------------------------------------------

  /** `s[::-1]`. */
  function Reverse<T>(s: seq<T>): (r: seq<T>)
    ensures |r| == |s| && forall i :: 0 <= i < |s| ==> r[i] == s[|s| - 1 - i]
  {
    seq(|s|, i requires 0 <= i < |s| => s[|s| - 1 - i])
  }

  /** `s[:-n]` for n > 0: everything but the last `n` items, or nothing. */
  function DropLast<T>(s: seq<T>, n: nat): (r: seq<T>)
    ensures |s| >= n ==> r == s[..|s| - n]
    ensures |s| < n ==> r == []
  {
    if |s| >= n then s[..|s| - n] else []
  }

  /** `max(xs)` on a non-empty list. */
  function Max(xs: seq<int>): (m: int)
    requires xs != []
    ensures m in xs && forall x :: x in xs ==> x <= m
  {
    if |xs| == 1 then xs[0]
    else
      var m := Max(xs[1..]);
      assert xs == [xs[0]] + xs[1..];
      if xs[0] >= m then xs[0] else m
  }

  /** `min(xs)` on a non-empty list. */
  function Min(xs: seq<int>): (m: int)
    requires xs != []
    ensures m in xs && forall x :: x in xs ==> m <= x
  {
    if |xs| == 1 then xs[0]
    else
      var m := Min(xs[1..]);
      assert xs == [xs[0]] + xs[1..];
      if xs[0] <= m then xs[0] else m
  }

  // ---------------------------------------------------------------------------
  // lower
  // ---------------------------------------------------------------------------

  function LowerChar(c: char): char {
    if 'A' <= c <= 'Z' then (c as int + 32) as char else c
  }

  /** `s.lower()` for ASCII letters. The only characters whose lower-case form is an
      ASCII letter `a`..`z` other than the letters themselves are the ASCII upper-case
      letters and the Kelvin sign (whose lower-case form is `k`), so comparing the
      result with an all-`a`..`z` word other than ones containing `k` is exact. */
  function Lower(s: string): (r: string)
    ensures |r| == |s|
    ensures forall i :: 0 <= i < |s| ==> r[i] == LowerChar(s[i])
  {
    seq(|s|, i requires 0 <= i < |s| => LowerChar(s[i]))
  }

  // ---------------------------------------------------------------------------
  // int(text) and str(n)
  // ---------------------------------------------------------------------------

  predicate IsDigit(c: char) {
    '0' <= c <= '9'
  }

  /** Decimal digits with single underscores between digits, as `int()` accepts them. */
  predicate IsDigitRun(b: string) {
    && |b| > 0
    && IsDigit(b[0])
    && IsDigit(b[|b| - 1])
    && (forall i :: 0 <= i < |b| ==> IsDigit(b[i]) || b[i] == '_')
    && !Contains(b, "__")
  }

  /** The number the digits of `b` spell, underscores ignored. */
  function DigitsValue(b: string): nat
    decreases |b|
  {
    if b == [] then 0
    else if IsDigit(b[|b| - 1]) then DigitsValue(b[..|b| - 1]) * 10 + (b[|b| - 1] as int - '0' as int)
    else DigitsValue(b[..|b| - 1])
  }

  /** Python's `int(x)` for a `str` argument: whitespace around, an optional sign,
      then a run of ASCII digits with single underscores between them; anything
      else is None, where Python raises ValueError. Python also takes the decimal
      digits of other scripts; those are read as None here. */
  function ParseInt(x: string): Option<int> {
    ParseTrimmed(Strip(x))
  }

  /** What `int()` accepts, once the surrounding whitespace is gone: a sign only
      in front, otherwise digits and underscores; a negative result has a `-`. */
  lemma ParseIntChars(x: string)
    requires ParseInt(x).Some?
    ensures var t := Strip(x);
      && t != [] && (IsDigit(t[0]) || t[0] == '+' || t[0] == '-')
      && (forall i :: 1 <= i < |t| ==> IsDigit(t[i]) || t[i] == '_')
      && (ParseInt(x).value < 0 ==> t[0] == '-')
  {
    var t := Strip(x);
    if t != [] && (t[0] == '+' || t[0] == '-') {
      assert forall i :: 1 <= i < |t| ==> t[i] == t[1..][i - 1];
    }
  }

  /** `int()` once the surrounding whitespace is gone. */
  function ParseTrimmed(t: string): Option<int> {
    if t != [] && (t[0] == '+' || t[0] == '-') then
      if IsDigitRun(t[1..]) then
        Some(if t[0] == '-' then -(DigitsValue(t[1..]) as int) else DigitsValue(t[1..]))
      else None
    else if IsDigitRun(t) then Some(DigitsValue(t))
    else None
  }

  function DigitChar(d: nat): char
    requires d < 10
  {
    ('0' as int + d) as char
  }

  /** `str(n)` for a natural number: decimal digits, most significant first. */
  function NatToString(n: nat): (s: string)
    ensures s != [] && forall i :: 0 <= i < |s| ==> IsDigit(s[i])
    decreases n
  {
    if n < 10 then [DigitChar(n)] else NatToString(n / 10) + [DigitChar(n % 10)]
  }

  /** `str(n)` for an integer. */
  function IntToString(n: int): (s: string)
    ensures s != [] && 'V' !in s && ',' !in s
    ensures s[0] == '-' || IsDigit(s[0])
    ensures Trimmed(s)
  {
    var d := NatToString(if n < 0 then -n else n);
    var s := if n < 0 then "-" + d else d;
    assert forall i :: 0 <= i < |s| ==> IsDigit(s[i]) || s[i] == '-';
    NotSpace(s[0]);
    NotSpace(s[|s| - 1]);
    s
  }

  /** `str(n)` is written with digits and a minus sign only. */
  lemma {:induction false} IntToStringChars(n: int)
    ensures forall c :: c in IntToString(n) ==> IsDigit(c) || c == '-'
  {
    var d := NatToString(if n < 0 then -n else n);
    assert forall i :: 0 <= i < |d| ==> IsDigit(d[i]);
    if n < 0 {
      assert IntToString(n) == "-" + d;
    }
  }

  lemma NotSpace(c: char)
    requires IsDigit(c) || c == '-'
    ensures c !in Whitespace
  {
  }

  lemma {:induction false} NatToStringValue(n: nat)
    ensures DigitsValue(NatToString(n)) == n
    decreases n
  {
    if n >= 10 {
      NatToStringValue(n / 10);
      var s := NatToString(n / 10);
      var t := s + [DigitChar(n % 10)];
      assert t[..|t| - 1] == s;
    }
  }

  /** A plain digit string is a digit run. */
  lemma {:induction false} DigitsAreRun(d: string)
    requires d != [] && forall i :: 0 <= i < |d| ==> IsDigit(d[i])
    ensures IsDigitRun(d)
  {
    forall i | 0 <= i <= |d| - 2
      ensures !OccursAt(d, "__", i)
    {
      assert d[i..i + 2][0] == d[i];
    }
  }

  lemma {:induction false} ParseTrimmedIntToString(n: int)
    ensures ParseTrimmed(IntToString(n)) == Some(n)
  {
    var s := IntToString(n);
    if n < 0 {
      var d := NatToString(-n);
      assert s[1..] == d;
      DigitsAreRun(d);
      NatToStringValue(-n);
    } else {
      DigitsAreRun(s);
      NatToStringValue(n);
    }
  }

  lemma {:induction false} ParseStripped(s: string, v: int)
    requires Trimmed(s) && ParseTrimmed(s) == Some(v)
    ensures ParseInt(s) == Some(v)
  {
    StripTrimmed(s);
  }

  /** `int(str(n)) == n`. */
  lemma {:induction false} ParseIntRoundTrip(n: int)
    ensures ParseInt(IntToString(n)) == Some(n)
  {
    ParseTrimmedIntToString(n);
    ParseStripped(IntToString(n), n);
  }
}

/** 03_parse_dictionary.py: the whitespace clean-up of `clean_description`
    and the filter / variable / latest-definition / sort pipeline of
    `parse_mdrm` that turns the Federal Reserve's MDRM listing into the
    data dictionary of FR Y-9 variables. */
module Mdrm {
  import opened Wrappers
  import opened Text
  import opened Seqs

  // ---------------------------------------------------------------------
  // clean_description

  /** `p` starts at position `i` of `s`. */
  predicate OccursAt(s: string, p: string, i: nat) {
    i + |p| <= |s| && s[i..i + |p|] == p
  }

  predicate Contains(s: string, p: string) {
    exists i: nat :: i <= |s| && OccursAt(s, p, i)
  }

  predicate NoSpace(s: string) {
    forall j :: 0 <= j < |s| ==> !IsSpace(s[j])
  }

  predicate HasSpace(s: string) {
    exists j :: 0 <= j < |s| && IsSpace(s[j])
  }

  /** `s.replace(pat, rep)`: every occurrence, scanning left to right
      without overlaps. */
  function Replace(s: string, pat: string, rep: string): (r: string)
    requires pat != []
    ensures |rep| <= |pat| ==> |r| <= |s|
    decreases |s|
  {
    if |s| < |pat| then s
    else if s[..|pat|] == pat then rep + Replace(s[|pat|..], pat, rep)
    else [s[0]] + Replace(s[1..], pat, rep)
  }

  /** `re.sub(r'\s+', ' ', s)`: each run of whitespace becomes one space. */
  function Collapse(s: string): (r: string)
    ensures |r| <= |s|
    ensures forall i :: 0 <= i < |r| && IsSpace(r[i]) ==> r[i] == ' '
    ensures forall i :: 0 <= i < |r| - 1 ==> !(IsSpace(r[i]) && IsSpace(r[i + 1]))
    ensures r != [] && IsSpace(r[0]) ==> IsSpace(s[0])
    decreases |s|
  {
    if s == [] then []
    else if IsSpace(s[0]) then
      var rest := TrimLeft(s);
      assert rest == [] || rest[0] != s[0];
      [' '] + Collapse(rest)
    else [s[0]] + Collapse(s[1..])
  }

  /** The text `clean_description` leaves after decoding entities: the
      literal `&#x0D;` and the line breaks replaced by spaces, whitespace
      runs collapsed to one space, and the ends stripped. */
  function Normalize(s: string): string {
    var a := Replace(s, "&#x0D;", " ");
    var b := Replace(a, "\r\n", " ");
    var c := Replace(b, "\r", " ");
    var d := Replace(c, "\n", " ");
    Strip(Collapse(d))
  }

  /** What a cleaned description looks like: no whitespace at either end,
      no whitespace other than single spaces, and no `&#x0D;` left. */
  predicate Normalized(s: string) {
    && (s == [] || (!IsSpace(s[0]) && !IsSpace(s[|s| - 1])))
    && SingleSpaced(s)
  }

  /** `clean_description`: a missing value gives the empty string, anything
      else is decoded by `html.unescape` and normalised. */
  function CleanDescription(text: Option<string>, unescape: string -> string): (r: string)
    ensures Normalized(r)
    ensures '\r' !in r && '\n' !in r
  {
    match text
    case None => ""
    case Some(t) =>
      NormalizeNormalized(unescape(t));
      Normalize(unescape(t))
  }

  /** Every normalised text is in the shape `Normalized` describes. */
  lemma NormalizeNormalized(s: string)
    ensures Normalized(Normalize(s))
    ensures '\r' !in Normalize(s) && '\n' !in Normalize(s)
  {
    var d := Replace(Replace(Replace(Replace(s, "&#x0D;", " "), "\r\n", " "), "\r", " "), "\n", " ");
    MarkerRemoved(s);
    StripCollapsed(Collapse(d));
  }

  /** Whitespace only as single spaces, and no `&#x0D;` left. */
  predicate SingleSpaced(s: string) {
    && (forall i :: 0 <= i < |s| && IsSpace(s[i]) ==> s[i] == ' ')
    && (forall i :: 0 <= i < |s| - 1 ==> !(IsSpace(s[i]) && IsSpace(s[i + 1])))
    && !Contains(s, "&#x0D;")
  }

  /** Stripping a collapsed text keeps its shape and adds the clean ends. */
  lemma StripCollapsed(e: string)
    requires SingleSpaced(e)
    ensures Normalized(Strip(e))
    ensures '\r' !in Strip(e) && '\n' !in Strip(e)
  {
    var t := TrimLeft(e);
    TrimLeftIsSlice(e);
    SingleSpacedSlice(e, |e| - |t|, |e|);
    TrimRightIsSlice(t);
    SingleSpacedSlice(t, 0, |TrimRight(t)|);
  }

  lemma SingleSpacedSlice(e: string, a: nat, b: nat)
    requires a <= b <= |e| && SingleSpaced(e)
    ensures SingleSpaced(e[a..b]) && '\r' !in e[a..b] && '\n' !in e[a..b]
  {
    SliceShape(e, a, b);
    SliceNoNew(e, "&#x0D;", a, b);
  }

  /** A slice of a text whose whitespace is single spaces is one too. */
  lemma SliceShape(e: string, a: nat, b: nat)
    requires a <= b <= |e|
    requires forall i :: 0 <= i < |e| && IsSpace(e[i]) ==> e[i] == ' '
    requires forall i :: 0 <= i < |e| - 1 ==> !(IsSpace(e[i]) && IsSpace(e[i + 1]))
    ensures var r := e[a..b];
            && (forall i :: 0 <= i < |r| && IsSpace(r[i]) ==> r[i] == ' ')
            && (forall i :: 0 <= i < |r| - 1 ==> !(IsSpace(r[i]) && IsSpace(r[i + 1])))
            && '\r' !in r && '\n' !in r
  {
    var r := e[a..b];
    assert forall i :: 0 <= i < |r| ==> r[i] == e[a + i];
    forall i | 0 <= i < |r|
      ensures r[i] != '\r' && r[i] != '\n'
    {
      assert r[i] == e[a + i];
    }
  }

  /** None of the replacements and not the collapse leaves an `&#x0D;`. */
  lemma MarkerRemoved(s: string)
    ensures var d := Replace(Replace(Replace(Replace(s, "&#x0D;", " "), "\r\n", " "), "\r", " "), "\n", " ");
            !Contains(Collapse(d), "&#x0D;")
  {
    var p := "&#x0D;";
    assert NoSpace(p);
    var a := Replace(s, p, " ");
    var b := Replace(a, "\r\n", " ");
    var c := Replace(b, "\r", " ");
    var d := Replace(c, "\n", " ");
    ReplaceNoNew(s, p, p);
    ReplaceNoNew(a, "\r\n", p);
    ReplaceNoNew(b, "\r", p);
    ReplaceNoNew(c, "\n", p);
    CollapseNoNew(d, p);
  }

  /** Normalising a normalised text changes nothing, so the whitespace
      clean-up is idempotent. `html.unescape` before it is not: it can
      decode a text twice. */
  lemma NormalizeIdempotent(s: string)
    ensures Normalize(Normalize(s)) == Normalize(s)
  {
    NormalizeNormalized(s);
    NormalizeFixes(Normalize(s));
  }

  lemma NormalizeFixes(s: string)
    requires Normalized(s)
    ensures Normalize(s) == s
  {
    ReplaceAbsent(s, "&#x0D;", " ");
    NoLineBreakPattern(s, "\r\n");
    ReplaceAbsent(s, "\r\n", " ");
    NoLineBreakPattern(s, "\r");
    ReplaceAbsent(s, "\r", " ");
    NoLineBreakPattern(s, "\n");
    ReplaceAbsent(s, "\n", " ");
    CollapseSingleSpaces(s);
  }

  /** A text whose only whitespace is spaces holds no pattern that starts
      with another whitespace character. */
  lemma NoLineBreakPattern(s: string, p: string)
    requires forall i :: 0 <= i < |s| && IsSpace(s[i]) ==> s[i] == ' '
    requires p != [] && IsSpace(p[0]) && p[0] != ' '
    ensures !Contains(s, p)
  {
    forall i: nat | i + |p| <= |s|
      ensures !OccursAt(s, p, i)
    {
      assert s[i..i + |p|][0] == s[i];
    }
  }

  /** Replacing a pattern that does not occur changes nothing. */
  lemma {:induction false} ReplaceAbsent(s: string, pat: string, rep: string)
    requires pat != [] && !Contains(s, pat)
    ensures Replace(s, pat, rep) == s
    decreases |s|
  {
    if |s| >= |pat| {
      assert !OccursAt(s, pat, 0);
      SuffixNoNew(s, pat, 1);
      ReplaceAbsent(s[1..], pat, rep);
    }
  }

  /** Text whose only whitespace is single spaces is left alone by the
      whitespace collapse. */
  lemma {:induction false} CollapseSingleSpaces(s: string)
    requires forall i :: 0 <= i < |s| && IsSpace(s[i]) ==> s[i] == ' '
    requires forall i :: 0 <= i < |s| - 1 ==> !(IsSpace(s[i]) && IsSpace(s[i + 1]))
    ensures Collapse(s) == s
    decreases |s|
  {
    if s != [] {
      if IsSpace(s[0]) {
        var rest := TrimLeft(s);
        assert rest == [] || rest[0] != s[0];
        assert |s| > 1 ==> !IsSpace(s[1]);
        assert rest == s[1..];
        CollapseSingleSpaces(s[1..]);
      } else {
        CollapseSingleSpaces(s[1..]);
      }
    }
  }

  /** A suffix of a text without `p` has no `p` either. */
  lemma SuffixNoNew(s: string, p: string, k: nat)
    requires k <= |s| && !Contains(s, p)
    ensures !Contains(s[k..], p)
  {
    SliceNoNew(s, p, k, |s|);
    assert s[k..|s|] == s[k..];
  }

  lemma SliceNoNew(s: string, p: string, a: nat, b: nat)
    requires a <= b <= |s| && !Contains(s, p)
    ensures !Contains(s[a..b], p)
  {
    forall i: nat | i + |p| <= b - a
      ensures !OccursAt(s[a..b], p, i)
    {
      var x, y := s[a..b][i..i + |p|], s[a + i..a + i + |p|];
      forall k | 0 <= k < |p|
        ensures x[k] == y[k]
      {
      }
      assert x == y;
      assert !OccursAt(s, p, a + i);
    }
  }

  /** A text with whitespace is not a space-free pattern. */
  lemma SpaceNotPattern(x: string, p: string)
    requires NoSpace(p) && HasSpace(x)
    ensures x != p
  {
  }

  /** Up to the first space it inserts, replacing by a space copies the
      text. */
  lemma {:induction false} ReplacePrefix(t: string, q: string, k: nat)
    requires q != [] && k <= |Replace(t, q, " ")|
    ensures k <= |t|
    ensures Replace(t, q, " ")[..k] == t[..k] || HasSpace(Replace(t, q, " ")[..k])
    decreases |t|
  {
    var r := Replace(t, q, " ");
    if |t| >= |q| && k > 0 {
      if t[..|q|] == q {
        assert r[..k][0] == ' ';
      } else {
        ReplacePrefix(t[1..], q, k - 1);
        var r' := Replace(t[1..], q, " ");
        assert r == [t[0]] + r';
        assert r[..k] == [t[0]] + r'[..k - 1];
        assert t[..k] == [t[0]] + t[1..][..k - 1];
        if HasSpace(r'[..k - 1]) {
          var j :| 0 <= j < k - 1 && IsSpace(r'[..k - 1][j]);
          assert IsSpace(r[..k][j + 1]);
        }
      }
    }
  }

  /** Replacing any pattern by a space creates no occurrence of a
      space-free pattern, and replacing that pattern itself removes it. */
  lemma {:induction false} ReplaceNoNew(t: string, q: string, p: string)
    requires q != [] && p != [] && NoSpace(p)
    requires q == p || !Contains(t, p)
    ensures !Contains(Replace(t, q, " "), p)
    decreases |t|
  {
    if |t| < |q| {
      assert Replace(t, q, " ") == t;
      forall i: nat | i + |p| <= |t|
        ensures !OccursAt(t, p, i)
      {
        assert q != p;
      }
    } else if t[..|q|] == q {
      var rest := t[|q|..];
      if q != p {
        SuffixNoNew(t, p, |q|);
      }
      ReplaceNoNew(rest, q, p);
      SpaceThenNoNew(Replace(rest, q, " "), p);
    } else {
      if q != p {
        SuffixNoNew(t, p, 1);
      }
      ReplaceNoNew(t[1..], q, p);
      ReplaceCopyNoNew(t, q, p);
    }
  }

  /** A space followed by a text without a space-free pattern has none. */
  lemma SpaceThenNoNew(r': string, p: string)
    requires p != [] && NoSpace(p) && !Contains(r', p)
    ensures !Contains(" " + r', p)
  {
    var r := " " + r';
    if |p| <= |r| {
      assert r[..|p|][0] == ' ';
      SpaceNotPattern(r[..|p|], p);
    }
    PrependNoNew(' ', r', p);
  }

  /** A character in front of a text without `p` can only make `p` occur
      at the very start. */
  lemma PrependNoNew(c: char, r': string, p: string)
    requires !Contains(r', p) && !OccursAt([c] + r', p, 0)
    ensures !Contains([c] + r', p)
  {
    var r := [c] + r';
    forall i: nat | 0 < i && i + |p| <= |r|
      ensures !OccursAt(r, p, i)
    {
      assert r[i..i + |p|] == r'[i - 1..i - 1 + |p|];
      assert !OccursAt(r', p, i - 1);
    }
    assert !OccursAt(r, p, 0);
  }

  /** The step of `ReplaceNoNew` where the first character is copied. */
  lemma ReplaceCopyNoNew(t: string, q: string, p: string)
    requires q != [] && p != [] && NoSpace(p)
    requires |t| >= |q| && t[..|q|] != q
    requires q == p || !Contains(t, p)
    requires !Contains(Replace(t[1..], q, " "), p)
    ensures !Contains(Replace(t, q, " "), p)
  {
    var r := Replace(t, q, " ");
    var r' := Replace(t[1..], q, " ");
    assert r == [t[0]] + r';
    if |p| <= |r| {
      ReplacePrefix(t, q, |p|);
      assert !OccursAt(t, p, 0);
      if HasSpace(r[..|p|]) {
        SpaceNotPattern(r[..|p|], p);
      }
    }
    PrependNoNew(t[0], r', p);
  }

  /** Up to the first whitespace it produces, the collapse copies the text. */
  lemma {:induction false} CollapsePrefix(t: string, k: nat)
    requires k <= |Collapse(t)|
    ensures k <= |t|
    ensures Collapse(t)[..k] == t[..k] || HasSpace(Collapse(t)[..k])
    decreases |t|
  {
    if t != [] && k > 0 {
      if IsSpace(t[0]) {
        CollapseLeadingSpace(t, k);
      } else {
        assert Collapse(t) == [t[0]] + Collapse(t[1..]);
        assert t == [t[0]] + t[1..];
        CollapsePrefix(t[1..], k - 1);
        ConsPrefix(t[0], Collapse(t[1..]), t[1..], k);
      }
    }
  }

  lemma CollapseLeadingSpace(t: string, k: nat)
    requires t != [] && IsSpace(t[0]) && 0 < k <= |Collapse(t)|
    ensures HasSpace(Collapse(t)[..k])
  {
    assert Collapse(t)[..k][0] == ' ';
  }

  /** Putting the same character in front of two texts keeps "equal
      prefixes, or whitespace in the first". */
  lemma ConsPrefix(c: char, r: string, u: string, k: nat)
    requires 0 < k <= |r| + 1 && k <= |u| + 1
    requires r[..k - 1] == u[..k - 1] || HasSpace(r[..k - 1])
    ensures ([c] + r)[..k] == ([c] + u)[..k] || HasSpace(([c] + r)[..k])
  {
    assert ([c] + r)[..k] == [c] + r[..k - 1];
    assert ([c] + u)[..k] == [c] + u[..k - 1];
    if HasSpace(r[..k - 1]) {
      var j :| 0 <= j < k - 1 && IsSpace(r[..k - 1][j]);
      assert IsSpace(([c] + r)[..k][j + 1]);
    }
  }


  /** Collapsing whitespace creates no occurrence of a space-free pattern. */
  lemma {:induction false} CollapseNoNew(t: string, p: string)
    requires p != [] && NoSpace(p) && !Contains(t, p)
    ensures !Contains(Collapse(t), p)
    decreases |t|
  {
    if t != [] {
      if IsSpace(t[0]) {
        var rest := TrimLeft(t);
        SuffixNoNew(t, p, |t| - |rest|);
        CollapseNoNew(rest, p);
        SpaceThenNoNew(Collapse(rest), p);
      } else {
        SuffixNoNew(t, p, 1);
        CollapseNoNew(t[1..], p);
        CollapseCopyNoNew(t, p);
      }
    }
  }

  /** The step of `CollapseNoNew` where the first character is copied. */
  lemma CollapseCopyNoNew(t: string, p: string)
    requires p != [] && NoSpace(p) && !Contains(t, p)
    requires t != [] && !IsSpace(t[0])
    requires !Contains(Collapse(t[1..]), p)
    ensures !Contains(Collapse(t), p)
  {
    var r := Collapse(t);
    var r' := Collapse(t[1..]);
    assert r == [t[0]] + r';
    if |p| <= |r| {
      CollapsePrefix(t, |p|);
      assert !OccursAt(t, p, 0);
      if HasSpace(r[..|p|]) {
        SpaceNotPattern(r[..|p|], p);
      }
    }
    PrependNoNew(t[0], r', p);
  }

  // ---------------------------------------------------------------------
  // parse_mdrm

  /** A row of the MDRM listing read as text; an empty cell is `None`. */
  datatype MdrmRow = MdrmRow(
    mnemonic: Option<string>, itemCode: Option<string>, itemName: Option<string>,
    description: Option<string>, startDate: Option<string>, endDate: Option<string>,
    reportingForm: Option<string>)

  /** `FR_Y9_MNEMONICS`. */
  const Y9Mnemonics: seq<string> := ["BHCK", "BHCP", "BHSP"]

  /** `df['Mnemonic'].isin(FR_Y9_MNEMONICS)`. */
  predicate IsY9Row(r: MdrmRow) {
    r.mnemonic.Some? && r.mnemonic.value in Y9Mnemonics
  }

  /** `pd.to_datetime(..., errors='coerce')` on one `End Date` text: a
      timestamp, or `None` for NaT. */
  type DateParser = string -> Option<int>

  /** A filtered row with its `Variable` and `EndDateParsed` columns. */
  datatype Candidate = Candidate(row: MdrmRow, variable: Option<string>, endParsed: Option<int>)

  /** `Mnemonic + Item Code.str.strip()`; missing when either part is. */
  function VariableOf(r: MdrmRow): (v: Option<string>)
    ensures v.Some? <==> r.mnemonic.Some? && r.itemCode.Some?
    ensures v.Some? ==> StartsWith(v.value, r.mnemonic.value)
  {
    if r.mnemonic.Some? && r.itemCode.Some? then
      var v := r.mnemonic.value + Strip(r.itemCode.value);
      assert v[..|r.mnemonic.value|] == r.mnemonic.value;
      Some(v)
    else None
  }

  function CandidateOf(r: MdrmRow, parse: DateParser): Candidate {
    Candidate(r, VariableOf(r), if r.endDate.Some? then parse(r.endDate.value) else None)
  }

  /** The rows of the three mnemonics, in listing order, with their
      variable and parsed end date. */
  function Candidates(rows: seq<MdrmRow>, parse: DateParser): (r: seq<Candidate>)
    ensures forall c :: c in r ==> c.row in rows && IsY9Row(c.row) && c == CandidateOf(c.row, parse)
    ensures forall x :: x in rows && IsY9Row(x) ==> CandidateOf(x, parse) in r
  {
    var f := Filter(rows, IsY9Row);
    var r := seq(|f|, i requires 0 <= i < |f| => CandidateOf(f[i], parse));
    assert forall x :: x in f ==> CandidateOf(x, parse) in r by {
      forall x | x in f ensures CandidateOf(x, parse) in r {
        var i :| 0 <= i < |f| && f[i] == x;
        assert r[i] == CandidateOf(x, parse);
      }
    }
    r
  }

  /** `sort_values('EndDateParsed', ascending=False)`: later end dates
      first, unparsable dates after all others. */
  predicate LaterFirst(a: Candidate, b: Candidate) {
    b.endParsed.None? || (a.endParsed.Some? && a.endParsed.value >= b.endParsed.value)
  }

  lemma LaterFirstIsTotalPreorder()
    ensures TotalPreorder(LaterFirst)
  {
  }

  /** `drop_duplicates(subset=['Variable'], keep='first')`, with `seen`
      the variables already taken. */
  function KeepFirst(s: seq<Candidate>, seen: set<Option<string>>): (r: seq<Candidate>)
    ensures forall i :: 0 <= i < |r| ==> r[i] in s && r[i].variable !in seen
    ensures forall i, j :: 0 <= i < j < |r| ==> r[i].variable != r[j].variable
    decreases |s|
  {
    if s == [] then []
    else if s[0].variable in seen then KeepFirst(s[1..], seen)
    else [s[0]] + KeepFirst(s[1..], seen + {s[0].variable})
  }

  /** On a list sorted latest-first, every variable not yet seen is kept,
      through an entry whose end date is no earlier than any of its
      duplicates'. */
  lemma {:induction false} KeepFirstKeepsLatest(s: seq<Candidate>, seen: set<Option<string>>, x: Candidate)
    requires SortedBy(s, LaterFirst)
    requires x in s && x.variable !in seen
    ensures exists c :: c in KeepFirst(s, seen) && c.variable == x.variable && LaterFirst(c, x)
    decreases |s|
  {
    var r := KeepFirst(s, seen);
    if s[0].variable in seen {
      assert x in s[1..];
      KeepFirstKeepsLatest(s[1..], seen, x);
    } else if x.variable == s[0].variable {
      var k :| 0 <= k < |s| && s[k] == x;
      assert LaterFirst(s[0], s[k]);
      assert r[0] == s[0];
    } else {
      assert x in s[1..];
      KeepFirstKeepsLatest(s[1..], seen + {s[0].variable}, x);
      var c :| c in KeepFirst(s[1..], seen + {s[0].variable}) && c.variable == x.variable && LaterFirst(c, x);
      assert c in r;
    }
  }

  /** The candidates in the order the deduplication sees them. */
  function ByEndDate(rows: seq<MdrmRow>, parse: DateParser): seq<Candidate> {
    Sort(Candidates(rows, parse), LaterFirst)
  }

  /** In that order end dates never increase, and an end date that does
      not parse comes after every one that does. */
  lemma ByEndDateOrder(rows: seq<MdrmRow>, parse: DateParser, i: nat, j: nat)
    requires i < j < |ByEndDate(rows, parse)|
    ensures var s := ByEndDate(rows, parse);
            && (s[i].endParsed.Some? && s[j].endParsed.Some? ==> s[i].endParsed.value >= s[j].endParsed.value)
            && (s[i].endParsed.None? ==> s[j].endParsed.None?)
  {
    LaterFirstIsTotalPreorder();
    SortIsSorted(Candidates(rows, parse), LaterFirst);
  }

  /** The candidates left after keeping the latest definition of every
      variable. */
  function LatestDefinitions(rows: seq<MdrmRow>, parse: DateParser): seq<Candidate> {
    KeepFirst(ByEndDate(rows, parse), {})
  }

  /** Every variable of a listed FR Y-9 row is kept, with an end date no
      earlier than that row's: the latest definition wins. */
  lemma LatestDefinitionKept(rows: seq<MdrmRow>, parse: DateParser, x: MdrmRow)
    requires x in rows && IsY9Row(x)
    ensures exists c :: c in LatestDefinitions(rows, parse) && c.variable == VariableOf(x)
                        && LaterFirst(c, CandidateOf(x, parse))
  {
    var cands := Candidates(rows, parse);
    var sorted := Sort(cands, LaterFirst);
    LaterFirstIsTotalPreorder();
    SortIsSorted(cands, LaterFirst);
    assert CandidateOf(x, parse) in multiset(sorted);
    KeepFirstKeepsLatest(sorted, {}, CandidateOf(x, parse));
  }

  /** A kept candidate is one of the FR Y-9 rows. */
  lemma LatestDefinitionsFromRows(rows: seq<MdrmRow>, parse: DateParser, c: Candidate)
    requires c in LatestDefinitions(rows, parse)
    ensures c.row in rows && IsY9Row(c.row) && c == CandidateOf(c.row, parse)
  {
    var cands := Candidates(rows, parse);
    assert c in multiset(Sort(cands, LaterFirst));
  }

  /** A row of the output dictionary. */
  datatype Entry = Entry(
    variable: Option<string>, mnemonic: Option<string>, itemCode: Option<string>,
    itemName: string, description: string, startDate: Option<string>,
    endDate: Option<string>, reportingForm: Option<string>)

  /** The output columns of a kept candidate, with its name and
      description cleaned. */
  function EntryOf(c: Candidate, unescape: string -> string): (e: Entry)
    ensures e.variable == c.variable && e.mnemonic == c.row.mnemonic
    ensures Normalized(e.itemName) && Normalized(e.description)
  {
    Entry(c.variable, c.row.mnemonic, c.row.itemCode,
          CleanDescription(c.row.itemName, unescape), CleanDescription(c.row.description, unescape),
          c.row.startDate, c.row.endDate, c.row.reportingForm)
  }

  function EntryVariable(e: Entry): Option<string> {
    e.variable
  }

  /** `sort_values('Variable')`: by code point, a missing variable last. */
  predicate VariableOrder(a: Entry, b: Entry) {
    b.variable.None? || (a.variable.Some? && LexLe(a.variable.value, b.variable.value))
  }

  lemma VariableOrderIsTotalPreorder()
    ensures TotalPreorder(VariableOrder)
  {
    forall a, b ensures VariableOrder(a, b) || VariableOrder(b, a) {
      if a.variable.Some? && b.variable.Some? {
        LexLeTotal(a.variable.value, b.variable.value);
      }
    }
    forall a, b, c | VariableOrder(a, b) && VariableOrder(b, c) ensures VariableOrder(a, c) {
      if a.variable.Some? && b.variable.Some? && c.variable.Some? {
        LexLeTransitive(a.variable.value, b.variable.value, c.variable.value);
      }
    }
  }

  function EntriesOf(cs: seq<Candidate>, unescape: string -> string): (r: seq<Entry>)
    ensures |r| == |cs|
    ensures forall i :: 0 <= i < |cs| ==> r[i] == EntryOf(cs[i], unescape)
  {
    seq(|cs|, i requires 0 <= i < |cs| => EntryOf(cs[i], unescape))
  }

  /** The data dictionary `parse_mdrm` writes: the latest definition of
      every FR Y-9 variable, cleaned and sorted by variable. */
  function Dictionary(rows: seq<MdrmRow>, parse: DateParser, unescape: string -> string): (r: seq<Entry>)
    ensures multiset(r) == multiset(EntriesOf(LatestDefinitions(rows, parse), unescape))
  {
    Sort(EntriesOf(LatestDefinitions(rows, parse), unescape), VariableOrder)
  }

  /** Each variable appears once, in code-point order with a missing one
      last. */
  lemma DictionarySortedUnique(rows: seq<MdrmRow>, parse: DateParser, unescape: string -> string)
    ensures SortedBy(Dictionary(rows, parse, unescape), VariableOrder)
    ensures DistinctBy(Dictionary(rows, parse, unescape), EntryVariable)
  {
    var es := EntriesOf(LatestDefinitions(rows, parse), unescape);
    VariableOrderIsTotalPreorder();
    SortIsSorted(es, VariableOrder);
    assert DistinctBy(es, EntryVariable);
    SortKeepsDistinct(es, VariableOrder, EntryVariable);
  }

  /** Every entry is of one of the three mnemonics, its variable starts
      with that mnemonic, and its texts are cleaned. */
  lemma DictionaryEntries(rows: seq<MdrmRow>, parse: DateParser, unescape: string -> string, e: Entry)
    requires e in Dictionary(rows, parse, unescape)
    ensures e.mnemonic.Some? && e.mnemonic.value in Y9Mnemonics
    ensures e.variable.Some? ==> StartsWith(e.variable.value, e.mnemonic.value)
    ensures Normalized(e.itemName) && Normalized(e.description)
  {
    var latest := LatestDefinitions(rows, parse);
    var es := EntriesOf(latest, unescape);
    assert e in multiset(es);
    var i :| 0 <= i < |es| && es[i] == e;
    LatestDefinitionsFromRows(rows, parse, latest[i]);
  }

  /** Every variable of a listed FR Y-9 row has an entry. */
  lemma DictionaryComplete(rows: seq<MdrmRow>, parse: DateParser, unescape: string -> string, x: MdrmRow)
    requires x in rows && IsY9Row(x)
    ensures exists e :: e in Dictionary(rows, parse, unescape) && e.variable == VariableOf(x)
  {
    LatestDefinitionKept(rows, parse, x);
    var latest := LatestDefinitions(rows, parse);
    var c :| c in latest && c.variable == VariableOf(x) && LaterFirst(c, CandidateOf(x, parse));
    var i :| 0 <= i < |latest| && latest[i] == c;
    var es := EntriesOf(latest, unescape);
    assert es[i] in multiset(Dictionary(rows, parse, unescape));
  }

  /** `output_df['Mnemonic'] == mnemonic`. */
  function WithMnemonic(m: string): Entry -> bool {
    (e: Entry) => e.mnemonic == Some(m)
  }

  function MnemonicCount(d: seq<Entry>, m: string): nat {
    |Filter(d, WithMnemonic(m))|
  }

  /** The per-mnemonic counts of the summary add up to the total. */
  lemma DictionaryCounts(rows: seq<MdrmRow>, parse: DateParser, unescape: string -> string)
    ensures var d := Dictionary(rows, parse, unescape);
            MnemonicCount(d, "BHCK") + MnemonicCount(d, "BHCP") + MnemonicCount(d, "BHSP") == |d|
  {
    var d := Dictionary(rows, parse, unescape);
    forall e | e in d ensures e.mnemonic.Some? && e.mnemonic.value in Y9Mnemonics {
      DictionaryEntries(rows, parse, unescape, e);
    }
    CountsAddUp(d);
  }

  lemma {:induction false} CountsAddUp(d: seq<Entry>)
    requires forall e :: e in d ==> e.mnemonic.Some? && e.mnemonic.value in Y9Mnemonics
    ensures MnemonicCount(d, "BHCK") + MnemonicCount(d, "BHCP") + MnemonicCount(d, "BHSP") == |d|
  {
    if d != [] {
      CountsAddUp(d[1..]);
      assert d[0] in d;
    }
  }
}

/**
 * The index-description matcher of test.py: a row of the broker's symbol
 * master is kept when its symbol names an index and its description,
 * normalised, is one of a fixed list of sector names.
 */
module SectorMatch {
  import opened Wrappers
  import opened Strings

  // ---------------------------------------------------------------------
  // Constants
  // ---------------------------------------------------------------------

  /** The sector names looked for, in the order they are tried. */
  const Targets: seq<string> := [
    "NIFTY AUTO",
    "NIFTY BANK",
    "NIFTY CHEMICALS",
    "NIFTY FINANCIAL SERVICES",
    "NIFTY FINANCIAL SERVICES 25/50",
    "NIFTY FINANCIAL SERVICES EX BANK",
    "NIFTY FMCG",
    "NIFTY HEALTHCARE",
    "NIFTY IT",
    "NIFTY MEDIA",
    "NIFTY METAL",
    "NIFTY PHARMA",
    "NIFTY PRIVATE BANK",
    "NIFTY PSU BANK",
    "NIFTY REALTY",
    "NIFTY CONSUMER DURABLES",
    "NIFTY OIL AND GAS",
    "NIFTY500 HEALTHCARE",
    "NIFTY MIDSMALL FINANCIAL SERVICES",
    "NIFTY MIDSMALL HEALTHCARE",
    "NIFTY MIDSMALL IT & TELECOM"
  ]

  /** The broker's abbreviations and their full forms, in the order they are expanded. */
  const Abbreviations: seq<(string, string)> := [
    ("CONSR DURBL", "CONSUMER DURABLES"),
    ("PVT BANK", "PRIVATE BANK"),
    ("FINSRV25 50", "FINANCIAL SERVICES 25/50"),
    ("FINSEREXBNK", "FINANCIAL SERVICES EX BANK"),
    ("MS IT TELCM", "MIDSMALL IT & TELECOM"),
    ("MIDSML HLTH", "MIDSMALL HEALTHCARE"),
    ("MS FIN SERV", "MIDSMALL FINANCIAL SERVICES")
  ]

  /** The symbol suffix that marks an index. */
  const IndexSuffix: string := "-INDEX"

  // ---------------------------------------------------------------------
  // Normalisation
  // ---------------------------------------------------------------------

  /** One left-to-right pass turning each non-overlapping pair of spaces into one space. */
  function Collapse(s: string): (r: string)
    ensures |r| <= |s|
    ensures NoPair(s, ' ', ' ') ==> r == s
  {
    ReplaceShorter(s, "  ", " ");
    var r := Replace(s, "  ", " ");
    if !NoPair(s, ' ', ' ') then r
    else NotContainsByPair(s, "  ", 0); ReplaceAbsent(s, "  ", " "); r
  }

  /** Upper-case, collapse double spaces, strip: the first line of the matcher. */
  function Clean(d: string): string {
    Strip(Collapse(Upper(d)))
  }

  /** `if short in d: d = d.replace(short, full)` */
  function ExpandOne(d: string, short: string, full: string): string
    requires |short| > 0
  {
    if Contains(d, short) then Replace(d, short, full) else d
  }

  /** The expansions of `abbrs` applied one after the other, first to last. */
  function ExpandAll(d: string, abbrs: seq<(string, string)>): string
    requires forall j :: 0 <= j < |abbrs| ==> |abbrs[j].0| > 0
    decreases |abbrs|
  {
    if abbrs == [] then d else ExpandAll(ExpandOne(d, abbrs[0].0, abbrs[0].1), abbrs[1..])
  }

  /** Every abbreviation is a non-empty pattern, as `Replace` needs. */
  lemma AbbreviationsNonEmpty()
    ensures forall j :: 0 <= j < |Abbreviations| ==> |Abbreviations[j].0| > 0
  {
  }

  function Normalize(d: string): string {
    AbbreviationsNonEmpty();
    ExpandAll(Clean(d), Abbreviations)
  }

  /** `s.replace("&", "AND")` */
  function AmpToAnd(s: string): (r: string)
    ensures |r| >= |s|
    ensures !Contains(s, "&") ==> r == s
  {
    ReplaceLonger(s, "&", "AND");
    var r := Replace(s, "&", "AND");
    if Contains(s, "&") then r else ReplaceAbsent(s, "&", "AND"); r
  }

  /** The test made against one target: equal as they are, or equal once every `&` reads `AND`. */
  predicate SameSector(desc: string, target: string)
    ensures SameSector(desc, target) <==> AmpToAnd(desc) == AmpToAnd(target)
  {
    desc == target || AmpToAnd(desc) == AmpToAnd(target)
  }

  /** The `for target in target_sectors` search, returning at the first target that agrees. */
  function AnyTarget(desc: string, targets: seq<string>): (found: bool)
    ensures found <==> exists i :: 0 <= i < |targets| && SameSector(desc, targets[i])
  {
    if targets == [] then false
    else if SameSector(desc, targets[0]) then true
    else
      assert forall i :: 1 <= i < |targets| ==> targets[i] == targets[1..][i - 1];
      AnyTarget(desc, targets[1..])
  }

  /** `check_match` on a description that is present. */
  predicate Matches(d: string) {
    AnyTarget(Normalize(d), Targets)
  }

  /** `str(row_desc)`: a missing cell is the float NaN, which prints as "nan". */
  function CellText(cell: Option<string>): string {
    match cell
    case Some(s) => s
    case None => "nan"
  }

  /** `check_match` as the script applies it to the Description column. */
  predicate CheckMatch(cell: Option<string>) {
    Matches(CellText(cell))
  }

  // ---------------------------------------------------------------------
  // Row filters
  // ---------------------------------------------------------------------

  /** The columns of the symbol master the script names; the others are not modelled. */
  datatype Row = Row(fyToken: string, description: Option<string>, symbol: Option<string>, shortSymbol: string)

  /** `str.endswith('-INDEX', na=False)`: a missing symbol does not qualify. */
  predicate IsIndexRow(r: Row) {
    r.symbol.Some? && EndsWith(r.symbol.value, IndexSuffix)
  }

  predicate IsMySector(r: Row) {
    CheckMatch(r.description)
  }

  /** Boolean-mask selection: the rows that satisfy `p`, in their original order. */
  function Filter<T>(s: seq<T>, p: T -> bool): (r: seq<T>)
    ensures |r| <= |s|
    ensures forall i :: 0 <= i < |r| ==> r[i] in s && p(r[i])
    ensures forall i :: 0 <= i < |s| && p(s[i]) ==> s[i] in r
  {
    if s == [] then []
    else if p(s[0]) then [s[0]] + Filter(s[1..], p)
    else Filter(s[1..], p)
  }

  function IndexRows(rows: seq<Row>): seq<Row> {
    Filter(rows, IsIndexRow)
  }

  /** `final_list`: the index rows whose description matches. */
  function FinalList(rows: seq<Row>): seq<Row> {
    Filter(IndexRows(rows), IsMySector)
  }

  // ---------------------------------------------------------------------
  // Properties of the filters
  // ---------------------------------------------------------------------

  lemma {:induction false} FilterAppend<T>(a: seq<T>, b: seq<T>, p: T -> bool)
    ensures Filter(a + b, p) == Filter(a, p) + Filter(b, p)
  {
    if a == [] {
      assert a + b == b;
    } else {
      assert (a + b)[1..] == a[1..] + b;
      FilterAppend(a[1..], b, p);
    }
  }

  lemma {:induction false} FilterTwice<T>(s: seq<T>, p: T -> bool, q: T -> bool, both: T -> bool)
    requires forall x :: both(x) == (p(x) && q(x))
    ensures Filter(Filter(s, p), q) == Filter(s, both)
  {
    if s != [] {
      FilterTwice(s[1..], p, q, both);
    }
  }

  /** The rows `final_list` keeps. */
  predicate IsFinalRow(r: Row) {
    IsIndexRow(r) && IsMySector(r)
  }

  /**
   * The final list is the one-pass selection of the rows that are indices
   * and match, in the order of the file; a row without a symbol never
   * appears in it.
   */
  lemma FinalListIsSelection(rows: seq<Row>)
    ensures FinalList(rows) == Filter(rows, IsFinalRow)
    ensures forall r :: r in FinalList(rows) <==> r in rows && IsFinalRow(r)
    ensures forall r :: r in FinalList(rows) ==> r.symbol.Some?
  {
    FilterTwice(rows, IsIndexRow, IsMySector, IsFinalRow);
    var f := FinalList(rows);
    forall r | r in f ensures r in rows && IsFinalRow(r) {
      var i :| 0 <= i < |f| && f[i] == r;
    }
    forall r | r in rows && IsFinalRow(r) ensures r in f {
      var i :| 0 <= i < |rows| && rows[i] == r;
    }
  }

  /** Selecting from two batches of rows is selecting from each, in order. */
  lemma FinalListAppend(a: seq<Row>, b: seq<Row>)
    ensures FinalList(a + b) == FinalList(a) + FinalList(b)
  {
    FilterAppend(a, b, IsIndexRow);
    FilterAppend(IndexRows(a), IndexRows(b), IsMySector);
  }

  // ---------------------------------------------------------------------
  // Properties of the normalisation
  // ---------------------------------------------------------------------

  function Spaces(n: nat): (s: string)
    ensures |s| == n && forall i :: 0 <= i < n ==> s[i] == ' '
  {
    if n == 0 then "" else Spaces(n - 1) + " "
  }

  /** A run of n spaces collapses to ceil(n/2) spaces: the pass is not a fixed point. */
  lemma {:induction false} CollapseSpaces(n: nat)
    ensures Collapse(Spaces(n)) == Spaces((n + 1) / 2)
    decreases n
  {
    if n >= 2 {
      assert Spaces(n)[..2] == "  ";
      assert Spaces(n)[2..] == Spaces(n - 2);
      CollapseSpaces(n - 2);
      assert " " + Spaces((n - 1) / 2) == Spaces((n + 1) / 2);
    } else if n == 1 {
      assert Spaces(1) == " ";
    }
  }

  lemma CollapseNotIdempotent()
    ensures Collapse("   ") == "  " && Collapse(Collapse("   ")) == " "
  {
    assert Spaces(3) == "   " && Spaces(2) == "  " && Spaces(1) == " ";
    CollapseSpaces(3);
    CollapseSpaces(2);
  }

  /** Collapsing keeps a trimmed string trimmed, and whitespace whitespace. */
  lemma CollapseTrimmed(x: string)
    requires Trimmed(x)
    ensures Trimmed(Collapse(x))
  {
    if x != [] {
      var n := |x|;
      assert x == [x[0]] + x[1..];
      ReplaceAppend([x[0]], x[1..], "  ", " ");
      assert x == x[..n - 1] + [x[n - 1]];
      ReplaceAppend(x[..n - 1], [x[n - 1]], "  ", " ");
    }
  }

  lemma CollapseOfSpace(w: string)
    requires AllSpace(w)
    ensures AllSpace(Collapse(w))
  {
    ReplaceChars(w, "  ", " ");
    var c := Collapse(w);
    forall i | 0 <= i < |c| ensures IsSpace(c[i]) {
      assert c[i] in c;
      if c[i] in w {
        var j :| 0 <= j < |w| && w[j] == c[i];
      }
    }
  }

  /** Collapsing a trimmed core between whitespace collapses each part on its own. */
  lemma CollapsePadded(w1: string, core: string, w2: string)
    requires AllSpace(w1) && AllSpace(w2) && Trimmed(core) && core != []
    ensures Collapse(w1 + core + w2) == Collapse(w1) + Collapse(core) + Collapse(w2)
  {
    assert core[0] !in "  " && core[|core| - 1] !in "  ";
    assert w1 + core + w2 == w1 + (core + w2);
    ReplaceAppend(w1, core + w2, "  ", " ");
    ReplaceAppend(core, w2, "  ", " ");
  }

  /** Stripping first or last gives the same: collapsing cannot create or move edge whitespace. */
  lemma StripCollapseCommute(x: string)
    ensures Strip(Collapse(x)) == Collapse(Strip(x))
  {
    var w1, w2 := StripSplit(x);
    var core := Strip(x);
    if core == [] {
      assert x == w1 + w2;
      CollapseOfSpace(x);
      assert Collapse(x) == [] + [] + Collapse(x);
      StripOfPadded([], [], Collapse(x));
    } else {
      CollapseOfSpace(w1);
      CollapseOfSpace(w2);
      CollapseTrimmed(core);
      CollapsePadded(w1, core, w2);
      StripOfPadded(Collapse(w1), Collapse(core), Collapse(w2));
    }
  }

  /** Leading and trailing whitespace never changes the cleaned description. */
  lemma CleanIgnoresPadding(w1: string, d: string, w2: string)
    requires AllSpace(w1) && AllSpace(w2)
    ensures Clean(w1 + d + w2) == Clean(d)
  {
    UpperAppend(w1 + d, w2);
    UpperAppend(w1, d);
    UpperOfSpace(w1);
    UpperOfSpace(w2);
    var u := Upper(d);
    assert Upper(w1 + d + w2) == w1 + u + w2;
    StripCollapseCommute(w1 + u + w2);
    StripIgnoresPadding(w1, u, w2);
    StripCollapseCommute(u);
  }

  lemma MatchIgnoresPadding(w1: string, d: string, w2: string)
    requires AllSpace(w1) && AllSpace(w2)
    ensures Matches(w1 + d + w2) == Matches(d)
  {
    CleanIgnoresPadding(w1, d, w2);
  }

  /** The description is upper-cased before anything else looks at it. */
  lemma MatchIgnoresCase(d: string)
    ensures Matches(Upper(d)) == Matches(d)
  {
    UpperIdempotent(d);
  }

  /** The `if short in d` guards are redundant: replacing an absent abbreviation changes nothing. */
  lemma {:induction false} ExpandOneIsReplace(d: string, short: string, full: string)
    requires |short| > 0
    ensures ExpandOne(d, short, full) == Replace(d, short, full)
  {
    if !Contains(d, short) {
      ReplaceAbsent(d, short, full);
    }
  }

  // ---------------------------------------------------------------------
  // Canonical descriptions: the targets are fixed points of the normalisation
  // ---------------------------------------------------------------------

  /** No `x` directly followed by `y` anywhere in `s`. */
  predicate NoPair(s: string, x: char, y: char) {
    forall i :: 0 <= i < |s| - 1 ==> !(s[i] == x && s[i + 1] == y)
  }

  predicate NoAbbreviation(s: string, abbrs: seq<(string, string)>) {
    forall j :: 0 <= j < |abbrs| ==> !Contains(s, abbrs[j].0)
  }

  /** Already upper-case, single-spaced, trimmed and free of abbreviations. */
  predicate Canonical(s: string) {
    NoLower(s) && NoPair(s, ' ', ' ') && Trimmed(s) && NoAbbreviation(s, Abbreviations)
  }

  lemma {:induction false} ExpandAllAbsent(d: string, abbrs: seq<(string, string)>)
    requires forall j :: 0 <= j < |abbrs| ==> |abbrs[j].0| > 0
    requires NoAbbreviation(d, abbrs)
    ensures ExpandAll(d, abbrs) == d
  {
    if abbrs != [] {
      assert !Contains(d, abbrs[0].0);
      NoAbbreviationTail(d, abbrs);
      ExpandAllAbsent(d, abbrs[1..]);
    }
  }

  /** A description already upper-case, single-spaced and trimmed comes out of the first line unchanged. */
  lemma CleanFixed(s: string)
    requires NoLower(s) && NoPair(s, ' ', ' ') && Trimmed(s)
    ensures Clean(s) == s
  {
    UpperResult(s);
    NotContainsByPair(s, "  ", 0);
    ReplaceAbsent(s, "  ", " ");
    StripOfPadded([], s, []);
    assert [] + s + [] == s;
  }

  lemma CanonicalIsFixed(s: string)
    requires Canonical(s)
    ensures Clean(s) == s && Normalize(s) == s
  {
    CleanFixed(s);
    ExpandAllAbsent(s, Abbreviations);
  }

  /**
   * Each abbreviation holds a pair of adjacent letters that a description
   * can lack: SR, PV, SR, XB, MS, ML and MS respectively.
   */
  lemma NoAbbreviationByPairs(s: string)
    requires NoPair(s, 'S', 'R') && NoPair(s, 'P', 'V') && NoPair(s, 'X', 'B')
    requires NoPair(s, 'M', 'S') && NoPair(s, 'M', 'L')
    ensures NoAbbreviation(s, Abbreviations)
  {
    NotContainsByPair(s, Abbreviations[0].0, 3);
    NotContainsByPair(s, Abbreviations[1].0, 0);
    NotContainsByPair(s, Abbreviations[2].0, 3);
    NotContainsByPair(s, Abbreviations[3].0, 7);
    NotContainsByPair(s, Abbreviations[4].0, 0);
    NotContainsByPair(s, Abbreviations[5].0, 4);
    NotContainsByPair(s, Abbreviations[6].0, 0);
  }

  /**
   * A character followed by its neighbour, as found in a canonical
   * description: not lower-case, and not the start of a double space or of
   * SR, PV, XB, MS or ML.
   */
  predicate PlainChar(x: char, y: char) {
    !IsLower(x) && !(x == ' ' && y == ' ') && !(x == 'S' && y == 'R') && !(x == 'P' && y == 'V')
    && !(x == 'X' && y == 'B') && !(x == 'M' && (y == 'S' || y == 'L'))
  }

  /** A sufficient condition for `Canonical` that is checked one character at a time. */
  predicate PlainText(t: string) {
    Trimmed(t) && (t == [] || !IsLower(t[|t| - 1]))
    && forall i :: 0 <= i < |t| - 1 ==> PlainChar(t[i], t[i + 1])
  }

  lemma PlainIsCanonical(t: string)
    requires PlainText(t)
    ensures Canonical(t)
  {
    assert NoLower(t) by {
      forall i | 0 <= i < |t| ensures !IsLower(t[i]) {
        if i < |t| - 1 {
          assert PlainChar(t[i], t[i + 1]);
        }
      }
    }
    NoAbbreviationByPairs(t);
  }

  /** The targets, three at a time, pass the character-level check. */
  lemma TargetsPlainA()
    ensures PlainText("NIFTY AUTO")
      && PlainText("NIFTY BANK")
      && PlainText("NIFTY CHEMICALS")
  {
    var t0 := "NIFTY AUTO";
    assert forall i :: 0 <= i < |t0| - 1 ==> PlainChar(t0[i], t0[i + 1]);
    var t1 := "NIFTY BANK";
    assert forall i :: 0 <= i < |t1| - 1 ==> PlainChar(t1[i], t1[i + 1]);
    var t2 := "NIFTY CHEMICALS";
    assert forall i :: 0 <= i < |t2| - 1 ==> PlainChar(t2[i], t2[i + 1]);
  }

  lemma TargetsPlainB()
    ensures PlainText("NIFTY FINANCIAL SERVICES")
      && PlainText("NIFTY FINANCIAL SERVICES 25/50")
      && PlainText("NIFTY FINANCIAL SERVICES EX BANK")
  {
    var t0 := "NIFTY FINANCIAL SERVICES";
    assert forall i :: 0 <= i < |t0| - 1 ==> PlainChar(t0[i], t0[i + 1]);
    var t1 := "NIFTY FINANCIAL SERVICES 25/50";
    assert forall i :: 0 <= i < |t1| - 1 ==> PlainChar(t1[i], t1[i + 1]);
    var t2 := "NIFTY FINANCIAL SERVICES EX BANK";
    assert forall i :: 0 <= i < |t2| - 1 ==> PlainChar(t2[i], t2[i + 1]);
  }

  lemma TargetsPlainC()
    ensures PlainText("NIFTY FMCG")
      && PlainText("NIFTY HEALTHCARE")
      && PlainText("NIFTY IT")
  {
    var t0 := "NIFTY FMCG";
    assert forall i :: 0 <= i < |t0| - 1 ==> PlainChar(t0[i], t0[i + 1]);
    var t1 := "NIFTY HEALTHCARE";
    assert forall i :: 0 <= i < |t1| - 1 ==> PlainChar(t1[i], t1[i + 1]);
    var t2 := "NIFTY IT";
    assert forall i :: 0 <= i < |t2| - 1 ==> PlainChar(t2[i], t2[i + 1]);
  }

  lemma TargetsPlainD()
    ensures PlainText("NIFTY MEDIA")
      && PlainText("NIFTY METAL")
      && PlainText("NIFTY PHARMA")
  {
    var t0 := "NIFTY MEDIA";
    assert forall i :: 0 <= i < |t0| - 1 ==> PlainChar(t0[i], t0[i + 1]);
    var t1 := "NIFTY METAL";
    assert forall i :: 0 <= i < |t1| - 1 ==> PlainChar(t1[i], t1[i + 1]);
    var t2 := "NIFTY PHARMA";
    assert forall i :: 0 <= i < |t2| - 1 ==> PlainChar(t2[i], t2[i + 1]);
  }

  lemma TargetsPlainE()
    ensures PlainText("NIFTY PRIVATE BANK")
      && PlainText("NIFTY PSU BANK")
      && PlainText("NIFTY REALTY")
  {
    var t0 := "NIFTY PRIVATE BANK";
    assert forall i :: 0 <= i < |t0| - 1 ==> PlainChar(t0[i], t0[i + 1]);
    var t1 := "NIFTY PSU BANK";
    assert forall i :: 0 <= i < |t1| - 1 ==> PlainChar(t1[i], t1[i + 1]);
    var t2 := "NIFTY REALTY";
    assert forall i :: 0 <= i < |t2| - 1 ==> PlainChar(t2[i], t2[i + 1]);
  }

  lemma TargetsPlainF()
    ensures PlainText("NIFTY CONSUMER DURABLES")
      && PlainText("NIFTY OIL AND GAS")
      && PlainText("NIFTY500 HEALTHCARE")
  {
    var t0 := "NIFTY CONSUMER DURABLES";
    assert forall i :: 0 <= i < |t0| - 1 ==> PlainChar(t0[i], t0[i + 1]);
    var t1 := "NIFTY OIL AND GAS";
    assert forall i :: 0 <= i < |t1| - 1 ==> PlainChar(t1[i], t1[i + 1]);
    var t2 := "NIFTY500 HEALTHCARE";
    assert forall i :: 0 <= i < |t2| - 1 ==> PlainChar(t2[i], t2[i + 1]);
  }

  lemma TargetsPlainG()
    ensures PlainText("NIFTY MIDSMALL FINANCIAL SERVICES")
      && PlainText("NIFTY MIDSMALL HEALTHCARE")
  {
    var t0 := "NIFTY MIDSMALL FINANCIAL SERVICES";
    assert forall i :: 0 <= i < |t0| - 1 ==> PlainChar(t0[i], t0[i + 1]);
    var t1 := "NIFTY MIDSMALL HEALTHCARE";
    assert forall i :: 0 <= i < |t1| - 1 ==> PlainChar(t1[i], t1[i + 1]);
  }

  lemma TargetsPlainH()
    ensures PlainText("NIFTY MIDSMALL IT & TELECOM")
  {
    var t0 := "NIFTY MIDSMALL IT & TELECOM";
    assert forall i :: 0 <= i < |t0| - 1 ==> PlainChar(t0[i], t0[i + 1]);
  }

  /** Every target is already in normal form. */
  lemma TargetsCanonical()
    ensures forall t :: t in Targets ==> Canonical(t)
  {
    TargetsPlainA();
    TargetsPlainB();
    TargetsPlainC();
    TargetsPlainD();
    TargetsPlainE();
    TargetsPlainF();
    TargetsPlainG();
    TargetsPlainH();
    forall t | t in Targets ensures Canonical(t) {
      PlainIsCanonical(t);
    }
  }

  /** Every entry of the target list matches itself. */
  lemma TargetsMatchThemselves()
    ensures forall t :: t in Targets ==> Matches(t)
  {
    TargetsCanonical();
    forall t | t in Targets ensures Matches(t) {
      CanonicalIsFixed(t);
      var i :| 0 <= i < |Targets| && Targets[i] == t;
      assert SameSector(Normalize(t), Targets[i]);
    }
  }

  // ---------------------------------------------------------------------
  // Only whole equality counts
  // ---------------------------------------------------------------------

  lemma TargetsLength()
    ensures forall t :: t in Targets ==> |t| >= 8
  {
  }

  /** The search succeeds as soon as some target agrees with the description. */
  lemma AnyTargetMember(desc: string, targets: seq<string>, t: string)
    requires t in targets && SameSector(desc, t)
    ensures AnyTarget(desc, targets)
  {
    var i :| 0 <= i < |targets| && targets[i] == t;
  }

  /** A description without `&` that is shorter than every target agrees with none of them. */
  lemma ShorterThanAll(s: string, targets: seq<string>)
    requires forall i :: 0 <= i < |s| ==> s[i] != '&'
    requires forall t :: t in targets ==> |t| > |s|
    ensures !AnyTarget(s, targets)
  {
    NotContainsByChar(s, "&", 0);
    ReplaceAbsent(s, "&", "AND");
    forall i | 0 <= i < |targets| ensures !SameSector(s, targets[i]) {
      assert targets[i] in targets;
      ReplaceLonger(targets[i], "&", "AND");
    }
  }

  /**
   * Each `&` becomes `AND`: two characters longer, and one more `D`.
   */
  lemma {:induction false} AmpToAndCounts(s: string)
    ensures |AmpToAnd(s)| == |s| + 2 * multiset(s)['&']
    ensures multiset(AmpToAnd(s))['D'] == multiset(s)['D'] + multiset(s)['&']
    decreases |s|
  {
    if s != [] {
      assert s == [s[0]] + s[1..];
      AmpToAndCounts(s[1..]);
      if s[0] == '&' {
        assert s[..1] == "&";
        assert AmpToAnd(s) == "AND" + AmpToAnd(s[1..]);
      } else {
        assert s[..1] != "&";
        assert AmpToAnd(s) == [s[0]] + AmpToAnd(s[1..]);
      }
    }
  }

  /**
   * Reading `&` as `AND` cannot make a string of under 8 characters agree
   * with one that is long for its number of `D`s: every `AND` it gains
   * brings a `D` with it.
   */
  lemma AmpFormsDiffer(s: string, t: string)
    requires |s| < 8 && FewD(t)
    ensures AmpToAnd(s) != AmpToAnd(t)
  {
    AmpToAndCounts(s);
    AmpToAndCounts(t);
  }

  /** Longer than 7 characters plus two for each `D`. */
  predicate FewD(t: string) {
    2 * multiset(t)['D'] + 7 < |t|
  }

  /** No `D` in `t` except, possibly, at index `j`. */
  predicate DOnlyAt(t: string, j: int) {
    forall i :: 0 <= i < |t| && i != j ==> t[i] != 'D'
  }

  lemma DOnlyAtFew(t: string, j: int)
    requires FewDAt(t, j)
    ensures FewD(t)
  {
    if 0 <= j < |t| {
      assert t == t[..j] + [t[j]] + t[j + 1..];
      assert forall i :: 0 <= i < j ==> t[..j][i] == t[i];
      assert forall k :: j < k < |t| ==> t[j + 1..][k - j - 1] == t[k];
      assert 'D' !in multiset(t[..j]) && 'D' !in multiset(t[j + 1..]);
      assert multiset(t) == multiset(t[..j]) + multiset{t[j]} + multiset(t[j + 1..]);
    } else {
      assert 'D' !in multiset(t);
    }
  }

  /** Where each target holds its one `D`, or -1 when it has none. */
  const TargetDIndex: seq<int> := [-1, -1, -1, -1, -1, -1, -1, -1, -1, 8, -1, -1, -1, -1, -1, 15, 12, -1, 8, 8, 8]

  /** Long for its number of `D`s, as `DOnlyAtFew` needs. */
  predicate FewDAt(t: string, j: int) {
    DOnlyAt(t, j) && (|t| >= 10 || (|t| >= 8 && !(0 <= j < |t|)))
  }

  lemma TargetsFewDAtA()
    ensures forall k :: 0 <= k < 7 ==> FewDAt(Targets[k], TargetDIndex[k])
  {
  }

  lemma TargetsFewDAtB()
    ensures forall k :: 7 <= k < 14 ==> FewDAt(Targets[k], TargetDIndex[k])
  {
  }

  lemma TargetsFewDAtC()
    ensures forall k :: 14 <= k < 21 ==> FewDAt(Targets[k], TargetDIndex[k])
  {
  }

  lemma TargetsFewDAt()
    ensures |TargetDIndex| == |Targets|
    ensures forall k :: 0 <= k < |Targets| ==> FewDAt(Targets[k], TargetDIndex[k])
  {
    TargetsFewDAtA();
    TargetsFewDAtB();
    TargetsFewDAtC();
  }

  /** A description under 8 characters agrees with none of a list of targets that are long for their `D`s. */
  lemma {:induction false} ShortAgreesWithNone(s: string, ts: seq<string>, js: seq<int>)
    requires |s| < 8 && |js| == |ts|
    requires forall k :: 0 <= k < |ts| ==> FewDAt(ts[k], js[k])
    ensures !AnyTarget(s, ts)
  {
    forall k | 0 <= k < |ts| ensures !SameSector(s, ts[k]) {
      DOnlyAtFew(ts[k], js[k]);
      AmpFormsDiffer(s, ts[k]);
    }
  }

  /**
   * A canonical description shorter than every target is rejected, even when
   * it is a prefix of a target, and whatever `&`s it holds.
   */
  lemma TooShortToMatch(s: string)
    requires Canonical(s) && |s| < 8
    ensures !Matches(s)
  {
    CanonicalIsFixed(s);
    TargetsFewDAt();
    ShortAgreesWithNone(s, Targets, TargetDIndex);
  }

  lemma NoAbbreviationTail(s: string, abbrs: seq<(string, string)>)
    requires abbrs != [] && NoAbbreviation(s, abbrs)
    ensures NoAbbreviation(s, abbrs[1..])
  {
    forall j | 0 <= j < |abbrs[1..]| ensures !Contains(s, abbrs[1..][j].0) {
      assert abbrs[1..][j] == abbrs[j + 1];
    }
  }

  // ---------------------------------------------------------------------
  // Worked descriptions
  // ---------------------------------------------------------------------

  /** Case is ignored: the broker's "Nifty Bank" is the target "NIFTY BANK". */
  lemma NiftyBankMatches()
    ensures Matches("Nifty Bank")
  {
    assert Upper("Nifty Bank") == "NIFTY BANK";
    MatchIgnoresCase("Nifty Bank");
    TargetsMatchThemselves();
    assert "NIFTY BANK" in Targets;
  }

  lemma ConsumerDurablesClean()
    ensures Clean("NIFTY CONSR DURBL") == "NIFTY CONSR DURBL"
  {
    var d := "NIFTY CONSR DURBL";
    assert NoLower(d) && NoPair(d, ' ', ' ') && Trimmed(d);
    CleanFixed(d);
  }

  /** Normal form after the first expansion alone, when what it yields is canonical. */
  lemma NormalizeByFirst(d: string, t: string)
    requires Clean(d) == d
    requires ExpandOne(d, Abbreviations[0].0, Abbreviations[0].1) == t
    requires Canonical(t)
    ensures Normalize(d) == t
  {
    AbbreviationsNonEmpty();
    var abbrs := Abbreviations;
    assert Normalize(d) == ExpandAll(d, abbrs);
    assert ExpandAll(d, abbrs) == ExpandAll(t, abbrs[1..]);
    NoAbbreviationTail(t, abbrs);
    ExpandAllAbsent(t, abbrs[1..]);
  }

  lemma ConsumerDurablesExpand()
    ensures ExpandOne("NIFTY CONSR DURBL", "CONSR DURBL", "CONSUMER DURABLES") == "NIFTY CONSUMER DURABLES"
  {
    ReplaceOnce("NIFTY ", "CONSR DURBL", "", "CONSUMER DURABLES");
    assert "NIFTY " + "CONSR DURBL" + "" == "NIFTY CONSR DURBL";
    assert "NIFTY " + "CONSUMER DURABLES" + "" == "NIFTY CONSUMER DURABLES";
    assert OccursAt("NIFTY CONSR DURBL", "CONSR DURBL", 6);
    ContainsIffOccurs("NIFTY CONSR DURBL", "CONSR DURBL");
  }

  /** The abbreviated "NIFTY CONSR DURBL" is expanded to the target "NIFTY CONSUMER DURABLES". */
  lemma ConsumerDurablesMatches()
    ensures Normalize("NIFTY CONSR DURBL") == "NIFTY CONSUMER DURABLES"
    ensures Matches("NIFTY CONSR DURBL")
  {
    var t := "NIFTY CONSUMER DURABLES";
    ConsumerDurablesClean();
    ConsumerDurablesExpand();
    TargetsCanonical();
    TargetsMatchThemselves();
    assert t in Targets;
    NormalizeByFirst("NIFTY CONSR DURBL", t);
  }

  lemma OilAndGasPlain()
    ensures PlainText("NIFTY OIL & GAS")
  {
    var d := "NIFTY OIL & GAS";
    assert forall i :: 0 <= i < |d| - 1 ==> PlainChar(d[i], d[i + 1]);
  }

  lemma OilAndGasAmp()
    ensures AmpToAnd("NIFTY OIL & GAS") == "NIFTY OIL AND GAS"
    ensures AmpToAnd("NIFTY OIL AND GAS") == "NIFTY OIL AND GAS"
  {
    ReplaceOnce("NIFTY OIL ", "&", " GAS", "AND");
    assert "NIFTY OIL " + "&" + " GAS" == "NIFTY OIL & GAS";
    assert "NIFTY OIL " + "AND" + " GAS" == "NIFTY OIL AND GAS";
    NotContainsByChar("NIFTY OIL AND GAS", "&", 0);
    ReplaceAbsent("NIFTY OIL AND GAS", "&", "AND");
  }
  /** "NIFTY OIL & GAS" matches "NIFTY OIL AND GAS" once `&` reads `AND`. */
  lemma OilAndGasMatches()
    ensures Matches("NIFTY OIL & GAS")
  {
    var d := "NIFTY OIL & GAS";
    OilAndGasPlain();
    PlainIsCanonical(d);
    CanonicalIsFixed(d);
    OilAndGasAmp();
    assert "NIFTY OIL AND GAS" in Targets;
    AnyTargetMember(d, Targets, "NIFTY OIL AND GAS");
  }

  /** A proper prefix of the targets is not a match. */
  lemma PrefixDoesNotMatch()
    ensures !Matches("NIFTY")
  {
    var d := "NIFTY";
    assert forall i :: 0 <= i < |d| - 1 ==> PlainChar(d[i], d[i + 1]);
    PlainIsCanonical(d);
    TooShortToMatch(d);
  }

  lemma NanPlain()
    ensures Upper("nan") == "NAN" && PlainText("NAN")
  {
    var d := "NAN";
    assert forall i :: 0 <= i < |d| - 1 ==> PlainChar(d[i], d[i + 1]);
  }

  /** A description whose upper-case form is canonical and short is rejected. */
  lemma RejectedThroughUpper(d: string, u: string)
    requires Upper(d) == u && Canonical(u) && |u| < 8
    ensures !Matches(d)
  {
    MatchIgnoresCase(d);
    TooShortToMatch(u);
  }

  /** A row with no description is compared as "NAN" and never kept. */
  lemma MissingDescriptionDoesNotMatch()
    ensures !CheckMatch(None)
  {
    NanPlain();
    PlainIsCanonical("NAN");
    RejectedThroughUpper("nan", "NAN");
  }
}

/** The options of the manager drop-down: "TODOS OS GERENTES" followed by the
    distinct, trimmed, non-empty manager names of the sheet, in ascending
    order. */
module Managers {
  import opened Wrappers
  import opened Text
  import opened Cells
  import opened Header
  import opened Columns
  import opened Readiness
  import opened Seqs

  /** Column `col` of the rows from `from` on (`iloc[from:, col]`). */
  function ColumnFrom(t: Table, col: nat, from: nat): (cs: seq<Cell>)
    ensures |cs| == if from < |t.rows| then |t.rows| - from else 0
    ensures forall k :: 0 <= k < |cs| ==> cs[k] == At(t, from + k, col)
  {
    if |t.rows| <= from then [] else seq(|t.rows| - from, k requires 0 <= k < |t.rows| - from => At(t, from + k, col))
  }

  predicate Present(c: Cell) {
    !c.Blank?
  }

  /** `unique()`: each distinct value once, in order of first appearance. */
  function Unique(cs: seq<Cell>): (r: seq<Cell>)
    ensures forall c :: c in r <==> c in cs
    ensures forall i, j :: 0 <= i < j < |r| ==> r[i] != r[j]
    decreases |cs|
  {
    if cs == [] then []
    else
      var init := cs[..|cs| - 1];
      var last := cs[|cs| - 1];
      assert cs == init + [last];
      var rest := Unique(init);
      if last in rest then rest else rest + [last]
  }

  /** The trimmed text of a cell (`str(g).strip()`). */
  function Trimmed(c: Cell, conv: Conversions): string {
    Strip(CellText(c, conv))
  }

  /** The trimmed texts of the cells, the empty ones dropped. */
  function Names(cs: seq<Cell>, conv: Conversions): (ns: seq<string>)
    ensures |ns| <= |cs|
    ensures forall n :: n in ns ==> n != "" && Stripped(n)
  {
    MapFilter(cs, (c: Cell) => Trimmed(c, conv) != "", (c: Cell) => Trimmed(c, conv))
  }

  lemma NamesMembership(cs: seq<Cell>, conv: Conversions, n: string)
    ensures n in Names(cs, conv) <==> n != "" && exists c :: c in cs && Trimmed(c, conv) == n
  {
  }

  /** Python's `<=` on strings. */
  predicate NameLe(a: string, b: string) {
    a == b || Less(a, b)
  }

  lemma NameLeTransitive(a: string, b: string, c: string)
    requires NameLe(a, b) && NameLe(b, c)
    ensures NameLe(a, c)
  {
    if a != b && b != c {
      LessTransitive(a, b, c);
    }
  }

  predicate Ascending(ns: seq<string>) {
    forall i, j :: 0 <= i < j < |ns| ==> NameLe(ns[i], ns[j])
  }

  predicate StrictlyAscending(ns: seq<string>) {
    forall i, j :: 0 <= i < j < |ns| ==> Less(ns[i], ns[j])
  }

  /** A name at or below every element of an ascending sequence may lead it. */
  lemma AscendingCons(h: string, t: seq<string>)
    requires Ascending(t)
    requires forall y :: y in t ==> NameLe(h, y)
    ensures Ascending([h] + t)
  {
    forall i, j | 0 <= i < j < |[h] + t| ensures NameLe(([h] + t)[i], ([h] + t)[j]) {
      assert ([h] + t)[j] == t[j - 1];
      if i > 0 {
        assert ([h] + t)[i] == t[i - 1];
      }
    }
  }

  /** The head of an ascending sequence is at or below all its elements. */
  lemma HeadLowest(s: seq<string>)
    requires |s| > 0 && Ascending(s)
    ensures forall y :: y in s ==> NameLe(s[0], y)
  {
    forall y | y in s ensures NameLe(s[0], y) {
      var j :| 0 <= j < |s| && s[j] == y;
    }
  }

  /** `n` inserted into the ascending `s` before the first name not below it. */
  function InsertName(n: string, s: seq<string>): (r: seq<string>)
    requires Ascending(s)
    ensures Ascending(r)
    ensures multiset(r) == multiset(s) + multiset{n}
    decreases |s|
  {
    if |s| == 0 then [n]
    else if NameLe(n, s[0]) then
      HeadLowest(s);
      assert forall y :: y in s ==> NameLe(n, y) by {
        forall y | y in s ensures NameLe(n, y) {
          NameLeTransitive(n, s[0], y);
        }
      }
      AscendingCons(n, s);
      [n] + s
    else
      assert s == [s[0]] + s[1..];
      var t := InsertName(n, s[1..]);
      HeadLowest(s);
      assert forall y :: y in t ==> NameLe(s[0], y) by {
        forall y | y in t ensures NameLe(s[0], y) {
          assert y in multiset(t);
          if y == n {
            LessTotal(n, s[0]);
          } else {
            assert y in multiset(s[1..]);
          }
        }
      }
      AscendingCons(s[0], t);
      [s[0]] + t
  }

  /** `sorted(...)`: an ascending permutation of `ns`. */
  function SortNames(ns: seq<string>): (r: seq<string>)
    ensures Ascending(r)
    ensures multiset(r) == multiset(ns)
    decreases |ns|
  {
    if ns == [] then []
    else
      assert ns == [ns[0]] + ns[1..];
      InsertName(ns[0], SortNames(ns[1..]))
  }

  /** `n` added to the strictly ascending `s` unless already there. */
  function InsertNew(n: string, s: seq<string>): (r: seq<string>)
    requires StrictlyAscending(s)
    ensures StrictlyAscending(r)
    ensures forall x :: x in r <==> x == n || x in s
    decreases |s|
  {
    if |s| == 0 then [n]
    else if n == s[0] then s
    else if Less(n, s[0]) then
      assert forall j :: 0 <= j < |s| ==> Less(n, s[j]) by {
        forall j | 0 <= j < |s| ensures Less(n, s[j]) {
          if j > 0 {
            LessTransitive(n, s[0], s[j]);
          }
        }
      }
      assert forall i :: 0 < i < |[n] + s| ==> ([n] + s)[i] == s[i - 1];
      [n] + s
    else
      assert s == [s[0]] + s[1..];
      var t := InsertNew(n, s[1..]);
      assert forall y :: y in t ==> Less(s[0], y) by {
        forall y | y in t ensures Less(s[0], y) {
          if y == n {
            LessTotal(n, s[0]);
          } else {
            var j :| 0 <= j < |s[1..]| && s[1..][j] == y;
            assert s[j + 1] == y;
          }
        }
      }
      assert forall i :: 0 < i < |[s[0]] + t| ==> ([s[0]] + t)[i] in t;
      [s[0]] + t
  }

  /** The distinct names of `ns`, strictly ascending. */
  function SortDistinct(ns: seq<string>): (r: seq<string>)
    ensures StrictlyAscending(r)
    ensures forall x :: x in r <==> x in ns
    decreases |ns|
  {
    if ns == [] then []
    else
      assert ns == [ns[0]] + ns[1..];
      InsertNew(ns[0], SortDistinct(ns[1..]))
  }

  /** The drop-down as the programs build it: blanks dropped, raw values made
      unique, then trimmed, emptied ones dropped, and sorted. Two raw values
      that differ only in surrounding space survive `unique()` and trim to the
      same name, so a name can be offered twice. */
  function OptionsAsWritten(column: seq<Cell>, conv: Conversions): (opts: seq<string>)
    ensures |opts| >= 1 && opts[0] == AllManagers
    ensures Ascending(opts[1..])
  {
    [AllManagers] + SortNames(Names(Unique(Filter(column, Present)), conv))
  }

  /** The drop-down with duplicates removed after trimming, so that each
      manager is offered once. */
  function Options(column: seq<Cell>, conv: Conversions): (opts: seq<string>)
    ensures |opts| >= 1 && opts[0] == AllManagers
    ensures StrictlyAscending(opts[1..])
  {
    [AllManagers] + SortDistinct(Names(Unique(Filter(column, Present)), conv))
  }

  /** A name is offered exactly when some non-blank cell of the column trims
      to it and it is not empty. */
  predicate Offered(column: seq<Cell>, conv: Conversions, n: string) {
    n != "" && exists c :: c in column && Present(c) && Trimmed(c, conv) == n
  }

  lemma ListedNames(column: seq<Cell>, conv: Conversions, n: string)
    ensures n in Names(Unique(Filter(column, Present)), conv) <==> Offered(column, conv, n)
  {
    NamesMembership(Unique(Filter(column, Present)), conv, n);
  }

  /** The distinct non-blank raw values of the column that trim to `n`. */
  function RawVariants(column: seq<Cell>, conv: Conversions, n: string): set<Cell> {
    set c | c in column && Present(c) && Trimmed(c, conv) == n
  }

  /** The cells of `cs` that trim to `n`. */
  function NameVariants(cs: seq<Cell>, conv: Conversions, n: string): set<Cell> {
    set c | c in cs && Trimmed(c, conv) == n
  }

  lemma VariantsCons(cs: seq<Cell>, conv: Conversions, n: string)
    requires |cs| > 0
    ensures NameVariants(cs, conv, n) ==
      NameVariants(cs[1..], conv, n) + if Trimmed(cs[0], conv) == n then {cs[0]} else {}
  {
    assert cs == [cs[0]] + cs[1..];
  }

  /** Trimming cells without repeats lists a non-empty name once per cell
      trimming to it. */
  lemma {:induction false} NamesCount(cs: seq<Cell>, conv: Conversions, n: string)
    requires Distinct(cs) && n != ""
    ensures multiset(Names(cs, conv))[n] == |NameVariants(cs, conv, n)|
    decreases |cs|
  {
    if |cs| == 0 {
      assert NameVariants(cs, conv, n) == {};
    } else {
      DistinctTail(cs);
      NamesCount(cs[1..], conv, n);
      VariantsCons(cs, conv, n);
      NamesCons(cs, conv);
      var rest := Names(cs[1..], conv);
      if Trimmed(cs[0], conv) == n {
        assert multiset(Names(cs, conv))[n] == multiset(rest)[n] + 1 by {
          assert multiset(Names(cs, conv)) == multiset{n} + multiset(rest);
        }
        assert |NameVariants(cs, conv, n)| == |NameVariants(cs[1..], conv, n)| + 1 by {
          assert cs[0] !in NameVariants(cs[1..], conv, n);
        }
      } else {
        assert multiset(Names(cs, conv))[n] == multiset(rest)[n];
      }
    }
  }

  lemma NamesCons(cs: seq<Cell>, conv: Conversions)
    requires |cs| > 0
    ensures Names(cs, conv) ==
      (if Trimmed(cs[0], conv) != "" then [Trimmed(cs[0], conv)] else []) + Names(cs[1..], conv)
  {
  }

  /** The distinct non-blank values `unique()` keeps are the distinct
      non-blank values of the column. */
  lemma UniqueVariants(column: seq<Cell>, conv: Conversions, n: string)
    ensures NameVariants(Unique(Filter(column, Present)), conv, n) == RawVariants(column, conv, n)
  {
  }

  /** `unique()` runs before `strip()`: a non-empty name is listed once for
      every distinct raw value that trims to it. */
  lemma ListedCount(column: seq<Cell>, conv: Conversions, n: string)
    ensures multiset(Names(Unique(Filter(column, Present)), conv))[n] ==
      if n == "" then 0 else |RawVariants(column, conv, n)|
  {
    var u := Unique(Filter(column, Present));
    if n == "" {
      assert n !in Names(u, conv);
    } else {
      NamesCount(u, conv, n);
      UniqueVariants(column, conv, n);
    }
  }

  /** The as-written list: "TODOS OS GERENTES" first, then the offered names
      in ascending order, each trimmed and non-empty, and nothing else; a
      name appears once per distinct raw value trimming to it. */
  lemma OptionsAsWrittenContents(column: seq<Cell>, conv: Conversions)
    ensures var opts := OptionsAsWritten(column, conv);
      && opts[0] == AllManagers
      && Ascending(opts[1..])
      && (forall n :: n in opts[1..] ==> n != "" && Stripped(n))
      && (forall n :: n in opts[1..] <==> Offered(column, conv, n))
      && (forall n :: multiset(opts[1..])[n] == if n == "" then 0 else |RawVariants(column, conv, n)|)
  {
    var ns := Names(Unique(Filter(column, Present)), conv);
    var opts := OptionsAsWritten(column, conv);
    assert opts[1..] == SortNames(ns);
    forall n ensures n in opts[1..] <==> Offered(column, conv, n) {
      assert n in opts[1..] <==> n in multiset(SortNames(ns));
      ListedNames(column, conv, n);
    }
    forall n ensures multiset(opts[1..])[n] == if n == "" then 0 else |RawVariants(column, conv, n)| {
      ListedCount(column, conv, n);
    }
  }

  /** The corrected list offers the same names, each exactly once, in strictly
      ascending order: an offered name once, any other never. */
  lemma OptionsContents(column: seq<Cell>, conv: Conversions)
    ensures var opts := Options(column, conv);
      && opts[0] == AllManagers
      && StrictlyAscending(opts[1..])
      && (forall i, j :: 1 <= i < j < |opts| ==> opts[i] != opts[j])
      && (forall n :: n in opts[1..] ==> n != "" && Stripped(n))
      && (forall n :: n in opts[1..] <==> Offered(column, conv, n))
      && (forall n :: multiset(opts[1..])[n] == if Offered(column, conv, n) then 1 else 0)
  {
    var opts := Options(column, conv);
    forall i, j | 1 <= i < j < |opts| ensures opts[i] != opts[j] {
      assert Less(opts[1..][i - 1], opts[1..][j - 1]);
      LessIrreflexive(opts[i]);
    }
    forall n ensures n in opts[1..] <==> Offered(column, conv, n) {
      ListedNames(column, conv, n);
    }
    assert Distinct(opts[1..]) by {
      forall i, j | 0 <= i < j < |opts[1..]| ensures opts[1..][i] != opts[1..][j] {
        assert opts[1..][i] == opts[i + 1] && opts[1..][j] == opts[j + 1];
      }
    }
    forall n ensures multiset(opts[1..])[n] == if Offered(column, conv, n) then 1 else 0 {
      DistinctCount(opts[1..], n);
    }
  }

  /** The correction only removes repeats: both lists offer the same names. */
  lemma CorrectionKeepsNames(column: seq<Cell>, conv: Conversions)
    ensures forall n :: n in Options(column, conv) <==> n in OptionsAsWritten(column, conv)
  {
    OptionsContents(column, conv);
    OptionsAsWrittenContents(column, conv);
    var a := Options(column, conv);
    var b := OptionsAsWritten(column, conv);
    assert a == [a[0]] + a[1..] && b == [b[0]] + b[1..];
  }

  lemma TrimExamples(conv: Conversions)
    ensures Trimmed(Str("ANA"), conv) == "ANA"
    ensures Trimmed(Str("ANA "), conv) == "ANA"
  {
    StripKeepsStripped("ANA");
    assert LeadRun("ANA ", IsSpace) == 0;
    assert "ANA "[..3] == "ANA";
    assert TrailRun("ANA ", IsSpace) == 1;
    assert "ANA "[0..3] == "ANA";
  }

  lemma PresentExample()
    ensures Filter([Str("ANA"), Str("ANA ")], Present) == [Str("ANA"), Str("ANA ")]
  {
    assert [Str("ANA"), Str("ANA ")][1..] == [Str("ANA ")];
    assert Filter([Str("ANA ")], Present) == [Str("ANA ")];
  }

  lemma UniqueExample()
    ensures Unique([Str("ANA"), Str("ANA ")]) == [Str("ANA"), Str("ANA ")]
  {
    assert |"ANA"| != |"ANA "|;
    assert [Str("ANA"), Str("ANA ")][..1] == [Str("ANA")];
    assert [Str("ANA")][..0] == [];
    assert Unique([Str("ANA")]) == [Str("ANA")];
  }

  lemma NamesExample(conv: Conversions)
    ensures Names([Str("ANA"), Str("ANA ")], conv) == ["ANA", "ANA"]
  {
    TrimExamples(conv);
    assert [Str("ANA"), Str("ANA ")][1..] == [Str("ANA ")];
    assert Names([Str("ANA ")], conv) == ["ANA"];
  }

  lemma SortExamples()
    ensures SortNames(["ANA", "ANA"]) == ["ANA", "ANA"]
    ensures SortDistinct(["ANA", "ANA"]) == ["ANA"]
  {
    assert ["ANA", "ANA"][1..] == ["ANA"];
    assert SortNames(["ANA"]) == ["ANA"];
    assert SortDistinct(["ANA"]) == ["ANA"];
  }

  lemma ListedExample(conv: Conversions)
    ensures Names(Unique(Filter([Str("ANA"), Str("ANA ")], Present)), conv) == ["ANA", "ANA"]
  {
    PresentExample();
    UniqueExample();
    NamesExample(conv);
  }

  /** "ANA" and "ANA " are two values for `unique()`, one name after `strip()`:
      the as-written list offers "ANA" twice. */
  lemma DuplicateOption(conv: Conversions)
    ensures OptionsAsWritten([Str("ANA"), Str("ANA ")], conv) == [AllManagers] + ["ANA", "ANA"]
  {
    ListedExample(conv);
    SortExamples();
  }

  /** The corrected list offers "ANA" once for the same column. */
  lemma SingleOption(conv: Conversions)
    ensures Options([Str("ANA"), Str("ANA ")], conv) == [AllManagers] + ["ANA"]
  {
    ListedExample(conv);
    SortExamples();
  }

  /** The label the header-searching programs look for. */
  const ManagerLabel := "GERENTE"

  /** The column of the first `ManagerLabel` in header row `h`. */
  function ManagerColumn(t: Table, h: nat, conv: Conversions): (j: nat)
    requires h < |t.rows| && IsHeader(t, h, [ManagerLabel], conv)
    ensures j < t.width && RowLabels(t, h, conv)[j] == ManagerLabel
    ensures forall k :: 0 <= k < j ==> RowLabels(t, h, conv)[k] != ManagerLabel
  {
    assert [ManagerLabel][0] == ManagerLabel;
    IndexOf(RowLabels(t, h, conv), ManagerLabel)
  }

  /** The fixed-position programs: column 3 from the second row on, which
      fails when the sheet has fewer than four columns. */
  function PositionalOptions(t: Table, conv: Conversions): (r: Result<seq<string>, Problem>)
    ensures r.Failure? <==> t.width < 4
    ensures r.Success? ==> |r.value| >= 1 && r.value[0] == AllManagers
  {
    if t.width < 4 then Failure(TooFewColumns)
    else Success(OptionsAsWritten(ColumnFrom(t, 3, 1), conv))
  }

  /** The header-searching programs: the first of the first ten rows with a
      "GERENTE" label gives the column, read from the row below it on; with
      no such row only "TODOS OS GERENTES" is offered. */
  function HeaderOptions(t: Table, conv: Conversions): (opts: seq<string>)
    ensures |opts| >= 1 && opts[0] == AllManagers
    ensures FindHeader(t, [ManagerLabel], conv).None? ==> opts == [AllManagers]
  {
    match FindHeader(t, [ManagerLabel], conv)
    case None => [AllManagers]
    case Some(h) => OptionsAsWritten(ColumnFrom(t, ManagerColumn(t, h, conv), h + 1), conv)
  }

  /** `PositionalOptions` with each name offered once. */
  function PositionalOptionsDistinct(t: Table, conv: Conversions): (r: Result<seq<string>, Problem>)
    ensures r.Failure? <==> t.width < 4
    ensures r.Success? ==> |r.value| >= 1 && r.value[0] == AllManagers
  {
    if t.width < 4 then Failure(TooFewColumns)
    else Success(Options(ColumnFrom(t, 3, 1), conv))
  }

  /** `HeaderOptions` with each name offered once. */
  function HeaderOptionsDistinct(t: Table, conv: Conversions): (opts: seq<string>)
    ensures |opts| >= 1 && opts[0] == AllManagers
    ensures FindHeader(t, [ManagerLabel], conv).None? ==> opts == [AllManagers]
  {
    match FindHeader(t, [ManagerLabel], conv)
    case None => [AllManagers]
    case Some(h) => Options(ColumnFrom(t, ManagerColumn(t, h, conv), h + 1), conv)
  }

  /** `n` is the non-empty trimmed text of a non-blank cell of column `col`
      at or below row `from`. */
  predicate CellName(t: Table, col: nat, from: nat, conv: Conversions, n: string) {
    n != "" && exists i :: from <= i < |t.rows| && Present(At(t, i, col)) && Trimmed(At(t, i, col), conv) == n
  }

  /** The names offered from a slice of a column are the names of its cells. */
  lemma ColumnOffered(t: Table, col: nat, from: nat, conv: Conversions, n: string)
    ensures Offered(ColumnFrom(t, col, from), conv, n) <==> CellName(t, col, from, conv, n)
  {
    var column := ColumnFrom(t, col, from);
    if Offered(column, conv, n) {
      var c :| c in column && Present(c) && Trimmed(c, conv) == n;
      var k :| 0 <= k < |column| && column[k] == c;
      assert At(t, from + k, col) == c;
    }
    if CellName(t, col, from, conv, n) {
      var i :| from <= i < |t.rows| && Present(At(t, i, col)) && Trimmed(At(t, i, col), conv) == n;
      assert column[i - from] == At(t, i, col);
    }
  }

  /** The distinct non-blank raw values of column `col` at or below row
      `from` that trim to `n`. */
  function CellVariants(t: Table, col: nat, from: nat, conv: Conversions, n: string): set<Cell> {
    set i | from <= i < |t.rows| && Present(At(t, i, col)) && Trimmed(At(t, i, col), conv) == n :: At(t, i, col)
  }

  lemma ColumnVariants(t: Table, col: nat, from: nat, conv: Conversions, n: string)
    ensures RawVariants(ColumnFrom(t, col, from), conv, n) == CellVariants(t, col, from, conv, n)
  {
    var column := ColumnFrom(t, col, from);
    forall c | c in RawVariants(column, conv, n) ensures c in CellVariants(t, col, from, conv, n) {
      var k :| 0 <= k < |column| && column[k] == c;
      assert At(t, from + k, col) == c;
    }
    forall c | c in CellVariants(t, col, from, conv, n) ensures c in RawVariants(column, conv, n) {
      var i :| from <= i < |t.rows| && Present(At(t, i, col)) && Trimmed(At(t, i, col), conv) == n && c == At(t, i, col);
      assert column[i - from] == c;
    }
  }

  /** How often the as-written list for a column slice offers `n`: once per
      distinct raw value of the slice trimming to it. */
  lemma OptionsCount(t: Table, col: nat, from: nat, conv: Conversions, n: string)
    ensures multiset(OptionsAsWritten(ColumnFrom(t, col, from), conv)[1..])[n] ==
      if n == "" then 0 else |CellVariants(t, col, from, conv, n)|
  {
    OptionsAsWrittenContents(ColumnFrom(t, col, from), conv);
    ColumnVariants(t, col, from, conv, n);
  }

  /** How often the corrected list for a column slice offers `n`: once when
      it is a name of the slice, else never. */
  lemma DistinctOptionsCount(t: Table, col: nat, from: nat, conv: Conversions, n: string)
    ensures multiset(Options(ColumnFrom(t, col, from), conv)[1..])[n] ==
      if CellName(t, col, from, conv, n) then 1 else 0
  {
    OptionsContents(ColumnFrom(t, col, from), conv);
    ColumnOffered(t, col, from, conv, n);
  }

  /** As the programs build it, the list for a column slice is the sentinel
      followed, in ascending order, by exactly the names of the slice's cells,
      each once per distinct raw value trimming to it. */
  lemma OptionsSource(t: Table, col: nat, from: nat, conv: Conversions)
    ensures var opts := OptionsAsWritten(ColumnFrom(t, col, from), conv);
      && Ascending(opts[1..])
      && (forall n :: n in opts[1..] <==> CellName(t, col, from, conv, n))
      && (forall n :: multiset(opts[1..])[n] == if n == "" then 0 else |CellVariants(t, col, from, conv, n)|)
  {
    var column := ColumnFrom(t, col, from);
    OptionsAsWrittenContents(column, conv);
    forall n ensures n in OptionsAsWritten(column, conv)[1..] <==> CellName(t, col, from, conv, n) {
      ColumnOffered(t, col, from, conv, n);
    }
    forall n ensures multiset(OptionsAsWritten(column, conv)[1..])[n] ==
      if n == "" then 0 else |CellVariants(t, col, from, conv, n)|
    {
      OptionsCount(t, col, from, conv, n);
    }
  }

  /** The corrected list for a column slice offers the same names as the
      as-written one, each once. */
  lemma DistinctOptionsSource(t: Table, col: nat, from: nat, conv: Conversions)
    ensures var opts := Options(ColumnFrom(t, col, from), conv);
      && (forall i, j :: 1 <= i < j < |opts| ==> opts[i] != opts[j])
      && (forall n :: n in opts <==> n in OptionsAsWritten(ColumnFrom(t, col, from), conv))
      && (forall n :: multiset(opts[1..])[n] == if CellName(t, col, from, conv, n) then 1 else 0)
  {
    OptionsContents(ColumnFrom(t, col, from), conv);
    CorrectionKeepsNames(ColumnFrom(t, col, from), conv);
    forall n ensures multiset(Options(ColumnFrom(t, col, from), conv)[1..])[n] ==
      if CellName(t, col, from, conv, n) then 1 else 0
    {
      DistinctOptionsCount(t, col, from, conv, n);
    }
  }

  /** The header-searching programs offer, after "TODOS OS GERENTES" and in
      ascending order, exactly the trimmed non-empty texts of the non-blank
      cells below the first "GERENTE" label, in the first column so labelled,
      each once per distinct raw value trimming to it. */
  lemma HeaderOptionsSource(t: Table, conv: Conversions)
    ensures |HeaderOptions(t, conv)| > 1 ==> FindHeader(t, [ManagerLabel], conv).Some?
    ensures FindHeader(t, [ManagerLabel], conv).Some? ==>
      var h := FindHeader(t, [ManagerLabel], conv).value;
      var j := ManagerColumn(t, h, conv);
      && Ascending(HeaderOptions(t, conv)[1..])
      && (forall n :: n in HeaderOptions(t, conv)[1..] <==> CellName(t, j, h + 1, conv, n))
      && (forall n :: multiset(HeaderOptions(t, conv)[1..])[n] ==
            if n == "" then 0 else |CellVariants(t, j, h + 1, conv, n)|)
  {
    if FindHeader(t, [ManagerLabel], conv).Some? {
      var h := FindHeader(t, [ManagerLabel], conv).value;
      OptionsSource(t, ManagerColumn(t, h, conv), h + 1, conv);
    }
  }

  /** The fixed-position programs offer, after "TODOS OS GERENTES" and in
      ascending order, exactly the trimmed non-empty texts of the non-blank
      column-3 cells below the first row, each once per distinct raw value
      trimming to it. */
  lemma PositionalOptionsSource(t: Table, conv: Conversions)
    ensures PositionalOptions(t, conv).Success? ==>
      && Ascending(PositionalOptions(t, conv).value[1..])
      && (forall n :: n in PositionalOptions(t, conv).value[1..] <==> CellName(t, 3, 1, conv, n))
      && (forall n :: multiset(PositionalOptions(t, conv).value[1..])[n] ==
            if n == "" then 0 else |CellVariants(t, 3, 1, conv, n)|)
  {
    OptionsSource(t, 3, 1, conv);
  }

  /** The corrected header drop-down offers the same names, each once: a name
      of the cells below the first "GERENTE" label exactly once, any other
      never. */
  lemma HeaderOptionsDistinctSource(t: Table, conv: Conversions)
    ensures var opts := HeaderOptionsDistinct(t, conv);
      && (forall i, j :: 1 <= i < j < |opts| ==> opts[i] != opts[j])
      && forall n :: n in opts <==> n in HeaderOptions(t, conv)
    ensures FindHeader(t, [ManagerLabel], conv).Some? ==>
      var h := FindHeader(t, [ManagerLabel], conv).value;
      var j := ManagerColumn(t, h, conv);
      forall n :: multiset(HeaderOptionsDistinct(t, conv)[1..])[n] == if CellName(t, j, h + 1, conv, n) then 1 else 0
  {
    if FindHeader(t, [ManagerLabel], conv).Some? {
      var h := FindHeader(t, [ManagerLabel], conv).value;
      DistinctOptionsSource(t, ManagerColumn(t, h, conv), h + 1, conv);
    }
  }

  /** The corrected fixed-position drop-down offers the same names, each once:
      a name of the column-3 cells below the first row exactly once, any other
      never. */
  lemma PositionalOptionsDistinctSource(t: Table, conv: Conversions)
    ensures PositionalOptionsDistinct(t, conv).Success? <==> PositionalOptions(t, conv).Success?
    ensures PositionalOptionsDistinct(t, conv).Success? ==>
      var opts := PositionalOptionsDistinct(t, conv).value;
      && (forall i, j :: 1 <= i < j < |opts| ==> opts[i] != opts[j])
      && (forall n :: n in opts <==> n in PositionalOptions(t, conv).value)
      && (forall n :: multiset(opts[1..])[n] == if CellName(t, 3, 1, conv, n) then 1 else 0)
  {
    DistinctOptionsSource(t, 3, 1, conv);
  }
}

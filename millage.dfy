/** The reference dataset of millage rates (app.py load_millage_data) and
    the fuzzy matcher that ranks its rows against a resolved jurisdiction
    (app.py find_top_matches). Reading the table from SQLite is left out:
    the loaded table is an input. The fuzzy score is an input function. */
module Millage {
  import opened Wrappers
  import opened Text
  import opened Search
  import opened Normalize

  /** One table row: column name to cell, None standing for SQL NULL. */
  type Row = map<string, Option<string>>

  /** A loaded table: its column names and its rows. */
  datatype Table = Table(columns: seq<string>, rows: seq<Row>)

  const TownshipColumn := "Township/City"
  const SchoolColumn := "School District"
  const HomesteadColumn := "Total Homestead Millage Rate"
  const NonHomesteadColumn := "Total Non-Homestead Millage Rate"
  const Required: seq<string> := [TownshipColumn, SchoolColumn, HomesteadColumn, NonHomesteadColumn]

  /** A row with the four derived columns. */
  datatype ReferenceRow = ReferenceRow(
    cells: Row,
    townshipClean: string,   // Township_Clean
    schoolClean: string,     // School_Clean
    combinedClean: string,   // Combined_Clean
    combinedKey: string)     // Combined Key

  datatype LoadError = MissingColumns(missing: seq<string>)

  /** The cell of a column, None when the row has no value there. */
  function Cell(row: Row, column: string): Option<string> {
    if column in row then row[column] else None
  }

  /** pandas astype(str) of a text cell: NULL becomes "None". */
  function AsText(cell: Option<string>): string {
    match cell
    case None => "None"
    case Some(v) => v
  }

  /** [c for c in required if c not in columns], in the order of required. */
  function Missing(required: seq<string>, columns: seq<string>): (r: seq<string>)
    ensures forall c :: c in r <==> c in required && c !in columns
    ensures |r| <= |required|
  {
    if required == [] then []
    else if required[0] in columns then Missing(required[1..], columns)
    else [required[0]] + Missing(required[1..], columns)
  }

  /** The derived columns of one row. */
  function Derive(row: Row): (r: ReferenceRow)
    ensures r.cells == row
    ensures r.townshipClean == CleanedPlace(Cell(row, TownshipColumn))
    ensures r.schoolClean == CleanSchool(Cell(row, SchoolColumn))
    ensures r.combinedClean == r.townshipClean + " - " + r.schoolClean
    ensures r.combinedKey == AsText(Cell(row, TownshipColumn)) + " - " + AsText(Cell(row, SchoolColumn))
    ensures CleanName(r.townshipClean) && CleanName(r.schoolClean)
  {
    DeriveFrom(row, Cell(row, TownshipColumn), Cell(row, SchoolColumn))
  }

  /** The derived columns from the township and school cells of a row. */
  function DeriveFrom(row: Row, township: Option<string>, school: Option<string>): (r: ReferenceRow)
    ensures r.cells == row
    ensures r.townshipClean == CleanedPlace(township) && r.schoolClean == CleanSchool(school)
    ensures r.combinedClean == r.townshipClean + " - " + r.schoolClean
    ensures r.combinedKey == AsText(township) + " - " + AsText(school)
  {
    ReferenceRow(row, CleanedPlace(township), CleanSchool(school),
      CleanedPlace(township) + " - " + CleanSchool(school), AsText(township) + " - " + AsText(school))
  }

  /** load_millage_data after the table is read: fails exactly when a
      required column is absent, naming every absent one; otherwise derives
      the four columns for every row, in order. */
  function Load(table: Table): (r: Result<seq<ReferenceRow>, LoadError>)
    ensures r.Failure? <==> exists k :: 0 <= k < |Required| && Required[k] !in table.columns
    ensures r.Failure? ==> forall c :: c in r.error.missing <==> c in Required && c !in table.columns
    ensures r.Success? ==> |r.value| == |table.rows|
    ensures r.Success? ==> forall i :: 0 <= i < |table.rows| ==> r.value[i] == Derive(table.rows[i])
  {
    var missing := Missing(Required, table.columns);
    if missing != [] then
      assert missing[0] in Required;
      Failure(MissingColumns(missing))
    else
      assert forall k :: 0 <= k < |Required| ==> Required[k] !in missing;
      Success(seq(|table.rows|, i requires 0 <= i < |table.rows| => Derive(table.rows[i])))
  }

  /** Combined_Clean determines both cleaned names: cleaned names have no
      hyphen, so the first " - " is the separator. */
  lemma CombinedCleanSplits(t1: string, s1: string, t2: string, s2: string)
    requires CleanName(t1) && CleanName(s1) && CleanName(t2) && CleanName(s2)
    requires t1 + " - " + s1 == t2 + " - " + s2
    ensures t1 == t2 && s1 == s2
  {
    var c1 := t1 + " - " + s1;
    NoHyphen(t1);
    NoHyphen(t2);
    HyphenAt(t1, s1);
    HyphenAt(t2, s2);
    assert BeforeFirst(c1, '-') == t1 + " " == t2 + " ";
    assert t1 == (t1 + " ")[..|t1|] == (t2 + " ")[..|t2|] == t2;
    assert s1 == c1[|t1| + 3..] == s2;
  }

  lemma NoHyphen(t: string)
    requires CleanName(t)
    ensures '-' !in t + " "
  {
  }

  lemma HyphenAt(t: string, s: string)
    requires '-' !in t + " "
    ensures BeforeFirst(t + " - " + s, '-') == t + " "
  {
    var c := t + " - " + s;
    assert c == (t + " ") + ['-'] + (" " + s);
    BeforeFirstAt(t + " ", " " + s, '-');
  }

  // ---------------------------------------------------------------------
  // Ranking

  /** fuzz.token_set_ratio returns a whole number from 0 to 100. */
  type Score = x: int | 0 <= x <= 100

  /** A row of the result frame: the reference row and its Score column. */
  datatype Match = Match(row: ReferenceRow, score: Score)

  /** The frame with the Score column added, before sorting. */
  function Scored(rows: seq<ReferenceRow>, target: string, score: (string, string) -> Score): (r: seq<Match>)
    ensures |r| == |rows|
    ensures forall i :: 0 <= i < |rows| ==> r[i] == Match(rows[i], score(target, rows[i].combinedClean))
  {
    seq(|rows|, i requires 0 <= i < |rows| => Match(rows[i], score(target, rows[i].combinedClean)))
  }

  predicate Descending(s: seq<Match>) {
    forall i, j :: 0 <= i < j < |s| ==> s[i].score >= s[j].score
  }

  /** Puts m in front of the first entry that does not score higher. */
  function Insert(m: Match, s: seq<Match>): seq<Match> {
    if s == [] then [m]
    else if m.score >= s[0].score then [m] + s
    else [s[0]] + Insert(m, s[1..])
  }

  lemma {:induction false} InsertKeeps(m: Match, s: seq<Match>)
    ensures multiset(Insert(m, s)) == multiset(s) + multiset{m}
  {
    if s != [] && m.score < s[0].score {
      InsertKeeps(m, s[1..]);
      assert s == [s[0]] + s[1..];
    }
  }

  lemma {:induction false} InsertSorted(m: Match, s: seq<Match>)
    requires Descending(s)
    ensures Descending(Insert(m, s))
  {
    if s != [] && m.score < s[0].score {
      InsertSorted(m, s[1..]);
      InsertBounded(m, s[1..], s[0].score);
      ConsDescending(s[0], Insert(m, s[1..]));
    } else if s != [] {
      ConsDescending(m, s);
    }
  }

  /** Inserting keeps every score under a common bound. */
  lemma {:induction false} InsertBounded(m: Match, s: seq<Match>, b: Score)
    requires m.score <= b && forall k :: 0 <= k < |s| ==> s[k].score <= b
    ensures forall k :: 0 <= k < |Insert(m, s)| ==> Insert(m, s)[k].score <= b
  {
    if s != [] && m.score < s[0].score {
      InsertBounded(m, s[1..], b);
      assert Insert(m, s) == [s[0]] + Insert(m, s[1..]);
    }
  }

  lemma ConsDescending(a: Match, s: seq<Match>)
    requires Descending(s) && forall k :: 0 <= k < |s| ==> s[k].score <= a.score
    ensures Descending([a] + s)
  {
    var r := [a] + s;
    forall i, j | 0 <= i < j < |r| ensures r[i].score >= r[j].score {
      if i == 0 {
        assert r[j] == s[j - 1];
      } else {
        assert r[i] == s[i - 1] && r[j] == s[j - 1];
      }
    }
  }

  /** sort_values("Score", ascending=False): the same rows, highest score
      first. The order among equal scores is not specified by the source and
      is not promised here. */
  function SortByScore(s: seq<Match>): (r: seq<Match>)
    ensures multiset(r) == multiset(s)
    ensures Descending(r)
  {
    if s == [] then [] else
      var rest := SortByScore(s[1..]);
      InsertKeeps(s[0], rest);
      InsertSorted(s[0], rest);
      assert s == [s[0]] + s[1..];
      Insert(s[0], rest)
  }

  /** How many rows pandas head(n) keeps: all but the last -n when n is
      negative. */
  function HeadCount(n: int, len: nat): (k: nat)
    ensures k <= len
    ensures n >= 0 ==> k == if n <= len then n else len
    ensures n < 0 ==> k == if len + n >= 0 then len + n else 0
  {
    if n >= 0 then (if n <= len then n else len)
    else if len + n >= 0 then len + n else 0
  }

  /** sort_values("Score", ascending=False).head(n). */
  function Rank(scores: seq<Match>, n: int): (top: seq<Match>)
    ensures IsTopN(scores, n, top)
  {
    var sorted := SortByScore(scores);
    assert |sorted| == |multiset(sorted)| == |multiset(scores)| == |scores|;
    TopAndRest(sorted, HeadCount(n, |scores|));
    sorted[..HeadCount(n, |scores|)]
  }

  /** What sort_values("Score", ascending=False).head(n) promises of its
      result, whatever order it leaves among equal scores: HeadCount(n) rows,
      highest score first, all taken from the scored frame, and no row left
      out scores higher than a row kept. */
  predicate IsTopN(scores: seq<Match>, n: int, top: seq<Match>) {
    && |top| == HeadCount(n, |scores|)
    && Descending(top)
    && multiset(top) <= multiset(scores)
    && forall m :: m in multiset(scores) - multiset(top) ==>
      forall j :: 0 <= j < |top| ==> m.score <= top[j].score
  }

  /** find_top_matches: cleans the resolved township and school into the
      target, scores every reference row against it, and keeps the
      HeadCount(topN) best. The input rows are values and are not changed. */
  method FindTopMatches(rows: seq<ReferenceRow>, township: Option<string>, school: Option<string>,
                        topN: int, score: (string, string) -> Score)
    returns (target: string, top: seq<Match>)
    ensures target == CleanedPlace(township) + " - " + CleanSchool(school)
    ensures IsTopN(Scored(rows, target, score), topN, top)
  {
    var t := CleanCityTwp(township);
    var s := CleanSchool(school);
    target := t + " - " + s;
    top := TopMatches(rows, target, topN, score);
  }

  /** The scoring and ranking half of find_top_matches. */
  method TopMatches(rows: seq<ReferenceRow>, target: string, topN: int, score: (string, string) -> Score)
    returns (top: seq<Match>)
    ensures IsTopN(Scored(rows, target, score), topN, top)
  {
    var scores := ScoreRows(rows, target, score);
    top := Rank(scores, topN);
  }

  /** The loop that scores every reference row against the target. */
  method ScoreRows(rows: seq<ReferenceRow>, target: string, score: (string, string) -> Score)
    returns (scores: seq<Match>)
    ensures scores == Scored(rows, target, score)
  {
    ghost var all := Scored(rows, target, score);
    scores := [];
    for i := 0 to |rows|
      invariant scores == all[..i]
    {
      assert all[i] == Match(rows[i], score(target, rows[i].combinedClean));
      TakeOneMore(all, i);
      scores := scores + [Match(rows[i], score(target, rows[i].combinedClean))];
    }
    TakeAll(all);
  }

  lemma TakeOneMore<T>(s: seq<T>, i: nat)
    requires i < |s|
    ensures s[..i + 1] == s[..i] + [s[i]]
  {
  }

  lemma TakeAll<T>(s: seq<T>)
    ensures s[..|s|] == s
  {
  }

  /** Every kept row, whichever order the sort leaves among ties, is an
      input row carrying the score of its own Combined_Clean against the
      target. */
  lemma RankedScores(rows: seq<ReferenceRow>, target: string, score: (string, string) -> Score, n: int, top: seq<Match>)
    requires IsTopN(Scored(rows, target, score), n, top)
    ensures forall j :: 0 <= j < |top| ==>
      top[j].score == score(target, top[j].row.combinedClean) && top[j].row in rows
  {
    var scores := Scored(rows, target, score);
    forall j | 0 <= j < |top| ensures top[j].score == score(target, top[j].row.combinedClean) && top[j].row in rows {
      assert top[j] in multiset(scores);
      var i :| 0 <= i < |scores| && scores[i] == top[j];
    }
  }

  /** Cutting a descending sequence: the head holds part of it and every
      entry left out scores no higher than every entry kept. */
  lemma TopAndRest(sorted: seq<Match>, k: nat)
    requires k <= |sorted| && Descending(sorted)
    ensures Descending(sorted[..k])
    ensures multiset(sorted[..k]) <= multiset(sorted)
    ensures multiset(sorted) - multiset(sorted[..k]) == multiset(sorted[k..])
    ensures forall m :: m in multiset(sorted[k..]) ==> forall j :: 0 <= j < k ==> m.score <= sorted[j].score
  {
    assert sorted == sorted[..k] + sorted[k..];
    forall m | m in multiset(sorted[k..]) ensures forall j :: 0 <= j < k ==> m.score <= sorted[j].score {
      var i :| 0 <= i < |sorted[k..]| && sorted[k..][i] == m;
      assert m == sorted[k + i];
    }
  }
}

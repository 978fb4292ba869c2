/** The parsing and ranking core of the package-statistics tool: a Contents
    file is a list of rows `<file path> <whitespace> <location>[,<location>...]`;
    each location names the qualified package that installs the file. The
    tool counts, for every package, how many files it is associated with, and
    reports the `list_count` packages with the most files. */
module App {

  import opened Wrappers
  import opened ByteStrings
  import opened Counters
  import opened Seqs

  /** The number of packages listed when the caller names none. */
  const DEFAULT_LIST_COUNT: nat := 10

  /** The exceptions the `try` block of the row parser can meet. Only
      `ValueError` is caught; nothing in the block raises it. */
  datatype Exception = IndexError | ValueError

  /** An exception that escaped the parser, and the row that raised it. */
  datatype Crash = Crash(row: nat, exception: Exception)

  /** What the parser returns: the counter and the number of error lines. */
  datatype Parsed = Parsed(counter: Counter, errLines: nat)

  /** A row with at least one whitespace-delimited token. */
  predicate HasToken(row: bytes)
  {
    |Split(row)| > 0
  }

  predicate AllHaveTokens(rows: seq<bytes>)
  {
    forall i :: 0 <= i < |rows| ==> HasToken(rows[i])
  }

  /** The final whitespace-delimited token of a row. */
  function LastToken(row: bytes): bytes
    requires HasToken(row)
  {
    Split(row)[|Split(row)| - 1]
  }

  /** The body of the `try`: `row.split()[-1].strip()`. Indexing an empty
      split raises `IndexError`; nothing here raises `ValueError`. */
  function Locations(row: bytes): (r: Result<bytes, Exception>)
    ensures r.Failure? <==> !HasToken(row)
    ensures r.Failure? ==> r.error == IndexError
    ensures r.Success? ==> r.value == LastToken(row) && r.value != [] && NoSpace(r.value)
  {
    var rowSplit := Split(row);
    if |rowSplit| == 0 then Failure(IndexError)
    else
      StripNoSpace(rowSplit[|rowSplit| - 1]);
      Success(Strip(rowSplit[|rowSplit| - 1]))
  }

  /** The package identifiers one row contributes:
      `locations.strip().split(b",")`. */
  function RowPackages(row: bytes): (r: seq<bytes>)
    requires HasToken(row)
  {
    var locations := Locations(row).value;
    SplitOn(Strip(locations), COMMA)
  }

  /** `package_files` after the loop has seen `rows`. */
  function PackageFiles(rows: seq<bytes>): seq<bytes>
    requires AllHaveTokens(rows)
  {
    if |rows| == 0 then []
    else PackageFiles(rows[..|rows| - 1]) + RowPackages(rows[|rows| - 1])
  }

  /** `parse_file_rows`: for every row, extend the list of package
      identifiers with the comma-separated pieces of its last token, then
      count the list. A blank or whitespace-only row raises `IndexError`,
      which the `except ValueError` does not catch: the call fails at the
      first such row. When it returns, its error-line count is 0. */
  method ParseFileRows(fileRows: seq<bytes>) returns (r: Result<Parsed, Crash>)
    ensures r.Success? <==> AllHaveTokens(fileRows)
    ensures r.Success? ==> r.value.errLines == 0
    ensures r.Success? ==> r.value.counter == Tally(PackageFiles(fileRows))
    ensures r.Failure? ==>
              && r.error.exception == IndexError
              && r.error.row < |fileRows|
              && !HasToken(fileRows[r.error.row])
              && AllHaveTokens(fileRows[..r.error.row])
  {
    var packageFiles: seq<bytes> := [];
    var errLines := 0;
    for i := 0 to |fileRows|
      invariant AllHaveTokens(fileRows[..i])
      invariant packageFiles == PackageFiles(fileRows[..i])
      invariant errLines == 0
    {
      var row := fileRows[i];
      TakeSnoc(fileRows, i);
      match Locations(row)
      case Failure(IndexError) =>
        assert !AllHaveTokens(fileRows) by { assert !HasToken(fileRows[i]); }
        return Failure(Crash(i, IndexError));
      case Failure(ValueError) =>
        // `Locations` never raises `ValueError`: this handler is dead code.
        assert false;
        errLines := errLines + 1;
      case Success(locations) =>
        var locationsSplit := SplitOn(Strip(locations), COMMA);
        PackageFilesSnoc(fileRows[..i], row);
        packageFiles := packageFiles + locationsSplit;
    }
    assert fileRows[..|fileRows|] == fileRows;
    var counter := CountElements(packageFiles);
    r := Success(Parsed(counter, errLines));
  }

  // ---------------------------------------------------------------------------
  // What one row contributes

  /** A row contributes exactly the comma-separated pieces of its last token:
      one more piece than the token has commas, none containing a comma or
      whitespace, and joined with commas they give the token back. */
  lemma RowPackagesSpec(row: bytes)
    requires HasToken(row)
    ensures |RowPackages(row)| == multiset(LastToken(row))[COMMA] + 1
    ensures Join(RowPackages(row), COMMA) == LastToken(row)
    ensures forall i :: 0 <= i < |RowPackages(row)| ==>
              COMMA !in RowPackages(row)[i] && NoSpace(RowPackages(row)[i])
  {
    var t := LastToken(row);
    StripNoSpace(t);
    JoinSplitOn(t, COMMA);
    var ps := RowPackages(row);
    forall i | 0 <= i < |ps| ensures NoSpace(ps[i]) {
      JoinPieceNoSpace(ps, i);
    }
  }

  /** A piece of a whitespace-free join is whitespace-free. */
  lemma {:induction false} JoinPieceNoSpace(ps: seq<bytes>, i: nat)
    requires i < |ps| && NoSpace(Join(ps, COMMA))
    ensures NoSpace(ps[i])
  {
    if |ps| > 1 {
      var j := Join(ps, COMMA);
      assert j == ps[0] + [COMMA] + Join(ps[1..], COMMA);
      if i == 0 {
        assert forall k :: 0 <= k < |ps[0]| ==> ps[0][k] == j[k];
      } else {
        assert forall k :: 0 <= k < |Join(ps[1..], COMMA)| ==>
          Join(ps[1..], COMMA)[k] == j[|ps[0]| + 1 + k];
        JoinPieceNoSpace(ps[1..], i - 1);
      }
    }
  }

  /** Only the last token is looked at: whatever precedes it (other tokens,
      a file path with embedded spaces), the row contributes the same. */
  lemma OnlyLastToken(prefix: bytes, w: byte, row: bytes)
    requires IsSpace(w) && HasToken(row)
    ensures HasToken(prefix + [w] + row)
    ensures LastToken(prefix + [w] + row) == LastToken(row)
    ensures RowPackages(prefix + [w] + row) == RowPackages(row)
  {
    SplitConcat(prefix, w, row);
  }

  /** A row whose last token is the comma-join of `pieces` contributes
      exactly `pieces`, empty ones included: a leading, trailing or doubled
      comma yields the empty identifier and it is kept. */
  lemma RowOfPieces(path: bytes, w: byte, pieces: seq<bytes>)
    requires IsSpace(w) && |pieces| >= 1
    requires forall i :: 0 <= i < |pieces| ==> COMMA !in pieces[i] && NoSpace(pieces[i])
    requires Join(pieces, COMMA) != []
    ensures HasToken(path + [w] + Join(pieces, COMMA))
    ensures RowPackages(path + [w] + Join(pieces, COMMA)) == pieces
  {
    var t := Join(pieces, COMMA);
    JoinNoSpace(pieces);
    SplitToken(t);
    OnlyLastToken(path, w, t);
    StripNoSpace(t);
    SplitOnJoin(pieces, COMMA);
  }

  /** Whitespace-free pieces joined with commas are whitespace-free. */
  lemma {:induction false} JoinNoSpace(ps: seq<bytes>)
    requires forall i :: 0 <= i < |ps| ==> NoSpace(ps[i])
    ensures NoSpace(Join(ps, COMMA))
  {
    if |ps| > 1 {
      JoinNoSpace(ps[1..]);
      var j := Join(ps, COMMA);
      assert j == ps[0] + [COMMA] + Join(ps[1..], COMMA);
      forall k | 0 <= k < |j| ensures !IsSpace(j[k]) {
        if k < |ps[0]| {
          assert j[k] == ps[0][k];
        } else if k > |ps[0]| {
          assert j[k] == Join(ps[1..], COMMA)[k - |ps[0]| - 1];
        }
      }
    }
  }

  /** A row of one token without commas, such as `bad-line-no-package`, is
      not an error line: its token is counted as a package identifier. */
  lemma SingleTokenRow(token: bytes)
    requires token != [] && NoSpace(token) && COMMA !in token
    ensures HasToken(token)
    ensures RowPackages(token) == [token]
  {
    SplitToken(token);
    StripNoSpace(token);
    SplitOnFree(token, COMMA);
  }

  /** A row with no token — empty, or whitespace only — is exactly the row
      that makes the parser fail. */
  lemma BlankRowIff(row: bytes)
    ensures !HasToken(row) <==> AllSpace(row)
  {
    SplitEmptyIff(row);
  }

  // ---------------------------------------------------------------------------
  // What all rows contribute

  /** Rows all have a token exactly when both halves of a split do. */
  lemma AllHaveTokensConcat(a: seq<bytes>, b: seq<bytes>)
    ensures AllHaveTokens(a + b) <==> AllHaveTokens(a) && AllHaveTokens(b)
  {
    if AllHaveTokens(a + b) {
      forall i | 0 <= i < |a| ensures HasToken(a[i]) { assert a[i] == (a + b)[i]; }
      forall i | 0 <= i < |b| ensures HasToken(b[i]) { assert b[i] == (a + b)[|a| + i]; }
    }
    if AllHaveTokens(a) && AllHaveTokens(b) {
      forall i | 0 <= i < |a + b| ensures HasToken((a + b)[i]) {
        if i >= |a| { assert (a + b)[i] == b[i - |a|]; }
      }
    }
  }

  /** One more row adds its pieces at the end. */
  lemma PackageFilesSnoc(rows: seq<bytes>, x: bytes)
    requires AllHaveTokens(rows) && HasToken(x)
    ensures AllHaveTokens(rows + [x])
    ensures PackageFiles(rows + [x]) == PackageFiles(rows) + RowPackages(x)
  {
    AllHaveTokensConcat(rows, [x]);
    assert (rows + [x])[..|rows|] == rows;
  }

  /** A single row contributes its own pieces. */
  lemma PackageFilesSingle(row: bytes)
    requires HasToken(row)
    ensures AllHaveTokens([row])
    ensures PackageFiles([row]) == RowPackages(row)
  {
    assert [row][..0] == [];
  }

  /** Rows that contribute one identifier each contribute them in order. */
  lemma {:induction false} PackageFilesSingles(rows: seq<bytes>, tokens: seq<bytes>)
    requires |rows| == |tokens|
    requires forall i :: 0 <= i < |rows| ==> HasToken(rows[i]) && RowPackages(rows[i]) == [tokens[i]]
    ensures AllHaveTokens(rows)
    ensures PackageFiles(rows) == tokens
  {
    if |rows| > 0 {
      var n := |rows| - 1;
      PackageFilesSingles(rows[..n], tokens[..n]);
      TakeSnoc(rows, n);
      TakeSnoc(tokens, n);
      PackageFilesSnoc(rows[..n], rows[n]);
    }
  }

  /** The pieces of consecutive runs of rows are concatenated. */
  lemma {:induction false} PackageFilesConcat(a: seq<bytes>, b: seq<bytes>)
    requires AllHaveTokens(a) && AllHaveTokens(b)
    ensures AllHaveTokens(a + b)
    ensures PackageFiles(a + b) == PackageFiles(a) + PackageFiles(b)
    decreases |b|
  {
    AllHaveTokensConcat(a, b);
    if |b| == 0 {
      assert a + b == a;
    } else {
      var b', x := b[..|b| - 1], b[|b| - 1];
      assert b == b' + [x];
      assert a + b == (a + b') + [x];
      AllHaveTokensConcat(b', [x]);
      PackageFilesConcat(a, b');
      PackageFilesSnoc(a + b', x);
      PackageFilesSnoc(b', x);
      AppendAssoc(PackageFiles(a), PackageFiles(b'), RowPackages(x));
    }
  }

  /** The number of identifiers the rows contribute: for each row, one more
      than the number of commas in its last token. */
  function PieceCount(rows: seq<bytes>): nat
    requires AllHaveTokens(rows)
  {
    if |rows| == 0 then 0
    else PieceCount(rows[..|rows| - 1]) + multiset(LastToken(rows[|rows| - 1]))[COMMA] + 1
  }

  /** The counts of the parser's counter add up to the number of
      (file, package) associations in the rows. */
  lemma {:induction false} TotalCount(rows: seq<bytes>)
    requires AllHaveTokens(rows)
    ensures |PackageFiles(rows)| == PieceCount(rows)
    ensures SumCounts(Items(Tally(PackageFiles(rows)))) == PieceCount(rows)
  {
    if |rows| > 0 {
      TotalCount(rows[..|rows| - 1]);
      RowPackagesSpec(rows[|rows| - 1]);
    }
    TallyTotal(PackageFiles(rows));
  }

  /** Rows whose last tokens agree give the same counter, whatever else
      they hold. */
  lemma {:induction false} SameLastTokens(rows1: seq<bytes>, rows2: seq<bytes>)
    requires AllHaveTokens(rows1) && AllHaveTokens(rows2) && |rows1| == |rows2|
    requires forall i :: 0 <= i < |rows1| ==> LastToken(rows1[i]) == LastToken(rows2[i])
    ensures PackageFiles(rows1) == PackageFiles(rows2)
    ensures Tally(PackageFiles(rows1)) == Tally(PackageFiles(rows2))
  {
    if |rows1| > 0 {
      var n := |rows1| - 1;
      SameLastTokens(rows1[..n], rows2[..n]);
    }
  }

  /** The package counts depend only on the multiset of rows, not on their
      order. (The order of the counter's keys, which only breaks ties in the
      ranking, does depend on it.) */
  lemma OrderIndependent(rows1: seq<bytes>, rows2: seq<bytes>)
    requires AllHaveTokens(rows1) && AllHaveTokens(rows2)
    requires multiset(rows1) == multiset(rows2)
    ensures Tally(PackageFiles(rows1)).counts == Tally(PackageFiles(rows2)).counts
  {
    PackageFilesMultiset(rows1, rows2);
    TallyPermutation(PackageFiles(rows1), PackageFiles(rows2));
  }

  lemma {:induction false} PackageFilesMultiset(rows1: seq<bytes>, rows2: seq<bytes>)
    requires AllHaveTokens(rows1) && AllHaveTokens(rows2)
    requires multiset(rows1) == multiset(rows2)
    ensures multiset(PackageFiles(rows1)) == multiset(PackageFiles(rows2))
    decreases |rows1|
  {
    if |rows1| > 0 {
      var n := |rows1| - 1;
      var x, rows1' := rows1[n], rows1[..n];
      assert rows1 == rows1' + [x];
      assert x in multiset(rows2);
      var j :| 0 <= j < |rows2| && rows2[j] == x;
      var left, right := rows2[..j], rows2[j + 1..];
      assert rows2 == left + [x] + right;
      var rest := left + right;
      assert multiset(rows1) == multiset(rows1') + multiset{x};
      assert multiset(rows2) == multiset(left) + multiset{x} + multiset(right);
      assert multiset(rest) == multiset(left) + multiset(right);
      MultisetCancel(multiset(rows1'), multiset(rest), x);
      AllHaveTokensConcat(rows1', [x]);
      AllHaveTokensConcat(left + [x], right);
      AllHaveTokensConcat(left, [x]);
      AllHaveTokensConcat(left, right);
      PackageFilesMultiset(rows1', rest);
      PackageFilesSnoc(rows1', x);
      PackageFilesSnoc(left, x);
      PackageFilesConcat(left + [x], right);
      PackageFilesConcat(left, right);
      var p, q, rx := PackageFiles(left), PackageFiles(right), RowPackages(x);
      assert PackageFiles(rows1) == PackageFiles(rows1') + rx;
      assert PackageFiles(rows2) == p + rx + q;
      assert multiset(PackageFiles(rows1)) == multiset(p) + multiset(q) + multiset(rx);
      assert multiset(PackageFiles(rows2)) == multiset(p) + multiset(rx) + multiset(q);
      MultisetSwap(multiset(p), multiset(q), multiset(rx));
    } else {
      assert |rows2| == 0;
    }
  }

  // ---------------------------------------------------------------------------
  // Ranking and report

  /** One printed line of the ranking: `print(i + 1, package, file_count)`. */
  datatype RankedEntry = RankedEntry(rank: nat, package: bytes, fileCount: nat)

  /** What `main` reports once the rows are loaded. */
  datatype Report = Report(rowCount: nat, errLines: nat, ranking: seq<RankedEntry>)

  /** The `enumerate` loop of `main`: ranks start at 1 and follow the order
      of `most_common`. */
  method NumberRanking(top: seq<(bytes, nat)>) returns (lines: seq<RankedEntry>)
    ensures |lines| == |top|
    ensures forall i :: 0 <= i < |lines| ==>
              lines[i].rank == i + 1 && (lines[i].package, lines[i].fileCount) == top[i]
  {
    lines := [];
    for i := 0 to |top|
      invariant |lines| == i
      invariant forall j :: 0 <= j < i ==>
                  lines[j].rank == j + 1 && (lines[j].package, lines[j].fileCount) == top[j]
    {
      var (package, fileCount) := top[i];
      lines := lines + [RankedEntry(i + 1, package, fileCount)];
    }
  }

  /** `main` after the data is loaded: count the rows, parse them, rank the
      counter with `most_common(list_count)` and number the result. */
  method Statistics(data: seq<bytes>, listCount: nat) returns (r: Result<Report, Crash>)
    ensures r.Success? <==> AllHaveTokens(data)
    ensures r.Success? ==> r.value.rowCount == |data| && r.value.errLines == 0
    ensures r.Success? ==>
              var top := MostCommon(Tally(PackageFiles(data)), listCount);
              && |r.value.ranking| == |top|
              && forall i :: 0 <= i < |top| ==>
                   r.value.ranking[i] == RankedEntry(i + 1, top[i].0, top[i].1)
    ensures r.Failure? ==> r.error.exception == IndexError && r.error.row < |data|
                           && !HasToken(data[r.error.row])
                           && AllHaveTokens(data[..r.error.row])
  {
    var rowCount := |data|;
    var parsed := ParseFileRows(data);
    match parsed
    case Failure(crash) =>
      return Failure(crash);
    case Success(Parsed(counter, errLines)) =>
      var top := MostCommon(counter, listCount);
      var ranking := NumberRanking(top);
      r := Success(Report(rowCount, errLines, ranking));
  }

  /** The ranking has `min(list_count, distinct packages)` entries, each a
      package of the rows with its file count, no package twice, counts
      non-increasing. */
  lemma RankingEntries(rows: seq<bytes>, n: nat)
    requires AllHaveTokens(rows)
    ensures var xs := PackageFiles(rows);
            var top := MostCommon(Tally(xs), n);
            && |top| == Min(n, |Tally(xs).keys|)
            && (forall i :: 0 <= i < |top| ==> top[i].0 in xs && top[i].1 == multiset(xs)[top[i].0])
            && DistinctKeys(top)
            && SortedDesc(top)
  {
    var xs := PackageFiles(rows);
    var c := Tally(xs);
    var top := MostCommon(c, n);
    TallySpec(xs);
    MostCommonShape(c, n);
    forall i | 0 <= i < |top| ensures top[i].0 in xs && top[i].1 == multiset(xs)[top[i].0] {
      assert Count(c, top[i].0) == multiset(xs)[top[i].0];
    }
  }

  /** No package left out of the ranking has more files than one listed. */
  lemma RankingTop(rows: seq<bytes>, n: nat)
    requires AllHaveTokens(rows)
    ensures var xs := PackageFiles(rows);
            var top := MostCommon(Tally(xs), n);
            forall k, i :: k in xs && k !in KeysOf(top) && 0 <= i < |top| ==>
              multiset(xs)[k] <= top[i].1
  {
    var xs := PackageFiles(rows);
    var c := Tally(xs);
    var top := MostCommon(c, n);
    TallyValid(xs);
    TallyKeys(xs);
    TallyCounts(xs);
    MostCommonTop(c, n);
    forall k, i | k in xs && k !in KeysOf(top) && 0 <= i < |top|
      ensures multiset(xs)[k] <= top[i].1
    {
      assert k in c.counts;
      assert c.counts[k] <= top[i].1;
      assert Count(c, k) == multiset(xs)[k];
    }
  }

  /** Packages with equal counts are ranked in the order they were first met
      in the rows. */
  lemma RankingTies(rows: seq<bytes>, n: nat)
    requires AllHaveTokens(rows)
    ensures var xs := PackageFiles(rows);
            var top := MostCommon(Tally(xs), n);
            forall i, j :: 0 <= i < j < |top| && top[i].1 == top[j].1 ==>
              IndexOf(xs, top[i].0) < IndexOf(xs, top[j].0)
  {
    var xs := PackageFiles(rows);
    var c := Tally(xs);
    var top := MostCommon(c, n);
    TallySpec(xs);
    MostCommonShape(c, n);
    MostCommonTieOrder(c, n);
    forall i, j | 0 <= i < j < |top| && top[i].1 == top[j].1
      ensures IndexOf(xs, top[i].0) < IndexOf(xs, top[j].0)
    {
      var a, b := IndexOf(c.keys, top[i].0), IndexOf(c.keys, top[j].0);
      assert a < b;
      assert c.keys[a] == top[i].0 && c.keys[b] == top[j].0;
    }
  }
}

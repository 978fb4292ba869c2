/** The example data of the repository's own tests, and a three-row example
    (`a/path file1.txt pkg/one,pkg/two`, `b/path file2.txt pkg/one`,
    `bad-line-no-package`), worked through the model. */
module Scenarios {

  import opened ByteStrings
  import opened Seqs
  import opened Counters
  import opened App

  /** A package field as a Contents row holds it: one package, no
      whitespace, no comma. */
  predicate IsPackageToken(t: bytes)
  {
    |t| > 0 && NoSpace(t) && COMMA !in t
  }

  /** `n` copies of `x`. */
  function Repeat(x: Key, n: nat): (r: seq<Key>)
    ensures |r| == n && forall i :: 0 <= i < n ==> r[i] == x
  {
    seq(n, _ => x)
  }

  lemma RepeatSnoc(x: Key, n: nat)
    requires n > 0
    ensures Repeat(x, n) == Repeat(x, n - 1) + [x]
  {
  }

  /** `n` times `c[x] += 1`. */
  function AddRepeat(c: Counter, x: Key, n: nat): Counter
  {
    if n == 0 then c else Add(AddRepeat(c, x, n - 1), x)
  }

  lemma {:induction false} TallyRepeat(xs: seq<Key>, x: Key, n: nat)
    ensures Tally(xs + Repeat(x, n)) == AddRepeat(Tally(xs), x, n)
  {
    if n == 0 {
      assert xs + Repeat(x, 0) == xs;
    } else {
      TallyRepeat(xs, x, n - 1);
      RepeatSnoc(x, n);
      AppendAssoc(xs, Repeat(x, n - 1), [x]);
      TallySnoc(xs + Repeat(x, n - 1), x);
    }
  }

  /** Adding `n` copies of a new key appends it with count `n`. */
  lemma {:induction false} AddRepeatNew(c: Counter, x: Key, n: nat)
    requires n > 0 && x !in c.counts
    ensures AddRepeat(c, x, n) == Counter(c.keys + [x], c.counts[x := n])
  {
    if n > 1 {
      AddRepeatNew(c, x, n - 1);
      assert c.counts[x := n - 1][x := n] == c.counts[x := n];
    }
  }

  /** Counting a run of `n` copies of a new key appends it with count `n`. */
  lemma TallyRun(xs: seq<Key>, x: Key, n: nat, keys: seq<Key>, counts: map<Key, nat>)
    requires n > 0 && x !in xs
    requires Tally(xs) == Counter(keys, counts)
    ensures Tally(xs + Repeat(x, n)) == Counter(keys + [x], counts[x := n])
  {
    TallyKeys(xs);
    TallyRepeat(xs, x, n);
    AddRepeatNew(Tally(xs), x, n);
  }

  /** A row `<path><whitespace><package>` contributes exactly the package,
      whatever the path holds (the separator may be several whitespace bytes:
      all but the last are part of `path` here). */
  lemma PackageRow(path: bytes, w: byte, package: bytes)
    requires IsSpace(w) && IsPackageToken(package)
    ensures HasToken(path + [w] + package)
    ensures RowPackages(path + [w] + package) == [package]
  {
    SingleTokenRow(package);
    OnlyLastToken(path, w, package);
  }

  /** Rows `<path><whitespace><package>`, one per path. */
  function PackageRows(paths: seq<bytes>, w: byte, packages: seq<bytes>): (rows: seq<bytes>)
    requires |paths| == |packages|
    ensures |rows| == |paths|
    ensures forall i :: 0 <= i < |rows| ==> rows[i] == paths[i] + [w] + packages[i]
  {
    seq(|paths|, i requires 0 <= i < |paths| => paths[i] + [w] + packages[i])
  }

  /** Such rows contribute their packages, in order. */
  lemma PackageRowsFiles(paths: seq<bytes>, w: byte, packages: seq<bytes>)
    requires |paths| == |packages| && IsSpace(w)
    requires forall i :: 0 <= i < |packages| ==> IsPackageToken(packages[i])
    ensures AllHaveTokens(PackageRows(paths, w, packages))
    ensures PackageFiles(PackageRows(paths, w, packages)) == packages
  {
    var rows := PackageRows(paths, w, packages);
    forall i | 0 <= i < |rows| ensures HasToken(rows[i]) && RowPackages(rows[i]) == [packages[i]] {
      PackageRow(paths[i], w, packages[i]);
    }
    PackageFilesSingles(rows, packages);
  }

  /** The package column of the test data. */
  function TestPackages(kajiki: bytes, wimsHelp: bytes, mailman: bytes): seq<bytes>
  {
    Repeat(kajiki, 6) + Repeat(wimsHelp, 3) + Repeat(mailman, 4)
  }

  lemma NotInRepeat(x: Key, n: nat, y: Key)
    requires x != y
    ensures y !in Repeat(x, n)
  {
  }

  /** The first two runs of the test data: kajiki six times, then wims-help three times. */
  lemma TestDataFirstRuns(kajiki: bytes, wimsHelp: bytes)
    requires kajiki != wimsHelp
    ensures Tally(Repeat(kajiki, 6) + Repeat(wimsHelp, 3)) ==
              Counter([kajiki, wimsHelp], map[kajiki := 6, wimsHelp := 3])
  {
    var run1 := Repeat(kajiki, 6);
    assert [] + run1 == run1;
    TallyRun([], kajiki, 6, [], map[]);
    assert [] + [kajiki] == [kajiki];
    NotInRepeat(kajiki, 6, wimsHelp);
    TallyRun(run1, wimsHelp, 3, [kajiki], map[kajiki := 6]);
    assert [kajiki] + [wimsHelp] == [kajiki, wimsHelp];
  }

  lemma TestDataTally(kajiki: bytes, wimsHelp: bytes, mailman: bytes)
    requires kajiki != wimsHelp && kajiki != mailman && wimsHelp != mailman
    ensures Tally(TestPackages(kajiki, wimsHelp, mailman)) ==
              Counter([kajiki, wimsHelp, mailman], map[kajiki := 6, wimsHelp := 3, mailman := 4])
  {
    var first := Repeat(kajiki, 6) + Repeat(wimsHelp, 3);
    TestDataFirstRuns(kajiki, wimsHelp);
    NotInRepeat(kajiki, 6, mailman);
    NotInRepeat(wimsHelp, 3, mailman);
    assert mailman !in first;
    TallyRun(first, mailman, 4, [kajiki, wimsHelp], map[kajiki := 6, wimsHelp := 3]);
    assert [kajiki, wimsHelp] + [mailman] == [kajiki, wimsHelp, mailman];
  }

  lemma TestDataRanking(kajiki: bytes, wimsHelp: bytes, mailman: bytes)
    requires kajiki != wimsHelp && kajiki != mailman && wimsHelp != mailman
    ensures var c := Counter([kajiki, wimsHelp, mailman], map[kajiki := 6, wimsHelp := 3, mailman := 4]);
            MostCommon(c, DEFAULT_LIST_COUNT) == [(kajiki, 6), (mailman, 4), (wimsHelp, 3)]
  {
    var c := Counter([kajiki, wimsHelp, mailman], map[kajiki := 6, wimsHelp := 3, mailman := 4]);
    assert Items(c) == [(kajiki, 6), (wimsHelp, 3), (mailman, 4)];
    assert [(mailman, 4)][1..] == [];
    assert [(wimsHelp, 3), (mailman, 4)][1..] == [(mailman, 4)];
    assert Items(c)[1..] == [(wimsHelp, 3), (mailman, 4)];
    assert SortByCount([(mailman, 4)]) == [(mailman, 4)];
    assert Insert((wimsHelp, 3), []) == [(wimsHelp, 3)];
    assert SortByCount([(wimsHelp, 3), (mailman, 4)]) == [(mailman, 4), (wimsHelp, 3)];
  }

  /** The test data: six files of `python/python3-kajiki`, then three of
      `web/wims-help`, then four of `mail/mailman3`, each row a path, some
      whitespace and the package. The counter holds 6, 3 and 4 in that order
      of first appearance, and `most_common(10)` lists kajiki with 6,
      mailman3 with 4 and wims-help with 3. */
  lemma TestDataCounts(paths: seq<bytes>, w: byte, kajiki: bytes, wimsHelp: bytes, mailman: bytes)
    requires |paths| == 13 && IsSpace(w)
    requires IsPackageToken(kajiki) && IsPackageToken(wimsHelp) && IsPackageToken(mailman)
    requires kajiki != wimsHelp && kajiki != mailman && wimsHelp != mailman
    ensures var rows := PackageRows(paths, w, TestPackages(kajiki, wimsHelp, mailman));
            && AllHaveTokens(rows)
            && Tally(PackageFiles(rows)) ==
                 Counter([kajiki, wimsHelp, mailman], map[kajiki := 6, wimsHelp := 3, mailman := 4])
            && MostCommon(Tally(PackageFiles(rows)), DEFAULT_LIST_COUNT) ==
                 [(kajiki, 6), (mailman, 4), (wimsHelp, 3)]
  {
    var packages := TestPackages(kajiki, wimsHelp, mailman);
    assert forall i :: 0 <= i < |packages| ==> packages[i] in {kajiki, wimsHelp, mailman};
    PackageRowsFiles(paths, w, packages);
    TestDataTally(kajiki, wimsHelp, mailman);
    TestDataRanking(kajiki, wimsHelp, mailman);
  }

  /** The three example rows contribute, in order, both
      packages of the first row, the package of the second and the single
      token of the third. */
  lemma ThreeRowsFiles(path1: bytes, path2: bytes, w: byte, one: bytes, two: bytes, bad: bytes)
    requires IsSpace(w)
    requires IsPackageToken(one) && IsPackageToken(two) && IsPackageToken(bad)
    ensures var rows := [path1 + [w] + (one + [COMMA] + two)] + [path2 + [w] + one] + [bad];
            AllHaveTokens(rows) && PackageFiles(rows) == [one, two] + [one] + [bad]
  {
    var row1, row2 := path1 + [w] + (one + [COMMA] + two), path2 + [w] + one;
    assert Join([one, two], COMMA) == one + [COMMA] + two by {
      assert [one, two][1..] == [two];
    }
    RowOfPieces(path1, w, [one, two]);
    PackageRow(path2, w, one);
    SingleTokenRow(bad);
    PackageFilesSingle(row1);
    PackageFilesSnoc([row1], row2);
    PackageFilesSnoc([row1] + [row2], bad);
  }

  /** Counting the first row's two identifiers. */
  lemma ThreeRowsPair(one: bytes, two: bytes)
    requires one != two
    ensures Tally([one, two]) == Counter([one, two], map[one := 1, two := 1])
  {
    assert [one, two] == [one] + [two];
    TallySnoc([one], two);
    assert Add(Counter([one], map[one := 1]), two) == Counter([one, two], map[one := 1, two := 1]);
  }

  /** The second row bumps `pkg/one`; the third row adds a new key. */
  lemma ThreeRowsAdds(one: bytes, two: bytes, bad: bytes)
    requires one != two && one != bad && two != bad
    ensures Add(Add(Counter([one, two], map[one := 1, two := 1]), one), bad)
            == Counter([one, two, bad], map[one := 2, two := 1, bad := 1])
  {
    var c3 := Counter([one, two], map[one := 2, two := 1]);
    assert Add(Counter([one, two], map[one := 1, two := 1]), one) == c3 by {
      assert map[one := 1, two := 1][one := 2] == map[one := 2, two := 1];
    }
    assert [one, two] + [bad] == [one, two, bad];
    assert c3.counts[bad := 1] == map[one := 2, two := 1, bad := 1];
  }

  /** Counting the example's four identifiers: `pkg/one` twice, the others once. */
  lemma ThreeRowsTally(one: bytes, two: bytes, bad: bytes)
    requires one != two && one != bad && two != bad
    ensures Tally([one, two] + [one] + [bad]) == Counter([one, two, bad], map[one := 2, two := 1, bad := 1])
  {
    ThreeRowsPair(one, two);
    TallySnoc([one, two], one);
    TallySnoc([one, two] + [one], bad);
    ThreeRowsAdds(one, two, bad);
  }

  /** The three-row example, as the code treats it: the
      first row contributes both of its packages, the second one package, and
      the one-token row `bad-line-no-package` is counted as a package of its
      own rather than as an error line (every row has a token, so the parser
      succeeds and reports 0 error lines). */
  lemma ThreeRows(path1: bytes, path2: bytes, w: byte, one: bytes, two: bytes, bad: bytes)
    requires IsSpace(w)
    requires IsPackageToken(one) && IsPackageToken(two) && IsPackageToken(bad)
    requires one != two && one != bad && two != bad
    ensures var rows := [path1 + [w] + (one + [COMMA] + two)] + [path2 + [w] + one] + [bad];
            && AllHaveTokens(rows)
            && Tally(PackageFiles(rows)) == Counter([one, two, bad], map[one := 2, two := 1, bad := 1])
  {
    ThreeRowsFiles(path1, path2, w, one, two, bad);
    ThreeRowsTally(one, two, bad);
  }
}

# canonical-package-statistics, modelled in Dafny

The tool downloads a Debian mirror's gzip-compressed *Contents* index for one
architecture variant. That index holds one row per installed file:
`<file path> <whitespace> <location>[,<location>...]`. Each location is a
qualified package name such as `python/python3-kajiki`. The tool counts, for
every package, how many files it installs. It then prints the `list_count`
packages with the most files, numbered from 1.

This project models the non-I/O part of that pipeline and proves what it does:

- `ByteStrings`: the Python `bytes` operations the parser relies on, on
  `seq<byte>`. These are `split()` on ASCII whitespace, `split(b",")`,
  `strip()` and the line splitting of `readlines()`. The parser never joins
  anything; `Join` and `Concat` are their inverses, defined only to state the
  round trips.
- `Seqs`: general sequence and multiset facts the proofs cite step by step.
- `Counters`: `collections.Counter` as a value, with keys in insertion order
  and a map of counts.
  - `CountElements` builds it with a loop, updating the map in place.
  - `Tally` is the specification of that loop.
  - `MostCommon` ranks the counter with a stable sort by count, descending,
    then keeps the first `n` entries.
- `Mirror`: the closed `Arch` enum of variants, the file name
  `Contents-<value>.gz` and the request URL `<mirror>/<file name>`.
- `App`: `parse_file_rows` is a method with the source's loop, its list
  accumulator and its (never incremented) error counter. `Statistics` is the
  part of `main` after loading: it counts the rows, parses them, ranks the
  result and numbers the entries 1..k.
- `Scenarios`: the repository's 13-row test data and a three-row example,
  both worked through the model.

Where the code and its surrounding documentation disagree, the model follows
the code:

- The `except ValueError` handler in `parse_file_rows` is dead. Nothing in the
  `try` raises `ValueError`, so the error-line count is always 0.
- A one-token row such as `bad-line-no-package` is not a malformed line: its
  token is counted as a package.
- An empty or whitespace-only row makes `row.split()[-1]` raise `IndexError`.
  Nothing catches it, so the whole call fails. The model returns
  `Failure(Crash(i, IndexError))` for the first such row `i`.
- `main` prints `print(i + 1, package.decode(), file_count)`. That writes `1 pkg 6`. The test
  in `tests/test_app.py:71-73` looks for `1. pkg 6`. The model records ranks
  and entries, not the printed text.
- `test_parse_file_rows` (`tests/test_app.py:49-52`) asserts a non-empty dict
  literal, so the assert at `tests/test_app.py:52` is always true. In any case
  the module's import of `app` at `tests/test_app.py:10` fails, so the test
  never runs. `Scenarios.TestDataCounts` proves the counts that test evidently
  meant: kajiki 6, wims-help 3, mailman3 4.
- The default mirror ends in `/` and the URL adds another one, so default
  request URLs contain `//`.

## Model

| member | source | states |
|---|---|---|
| `ByteStrings.Split` | src/canonical_package_statistics/app.py:129 | every token of `bytes.split()` is non-empty and whitespace-free |
| `ByteStrings.SplitEmptyIff` | src/canonical_package_statistics/app.py:129-132 | the split is empty exactly when the row is empty or all whitespace |
| `ByteStrings.SplitConcat` | src/canonical_package_statistics/app.py:129-131 | a whitespace byte between two strings separates their tokens: the split of the whole is the split of the left part followed by the split of the right |
| `ByteStrings.SplitJoin` | src/canonical_package_statistics/app.py:129 | non-empty whitespace-free tokens joined by whitespace split back into the same tokens |
| `ByteStrings.SplitOn` | src/canonical_package_statistics/app.py:138 | `split(b",")` yields one more piece than there are commas, and no piece holds a comma |
| `ByteStrings.SplitOnFree` | src/canonical_package_statistics/app.py:138 | a comma-free string splits into itself alone |
| `ByteStrings.SplitOnConcat` | src/canonical_package_statistics/app.py:138 | a comma between two strings splits each of them on its own |
| `ByteStrings.JoinSplitOn` | src/canonical_package_statistics/app.py:138 | joining the pieces with commas gives the input back |
| `ByteStrings.SplitOnJoin` | src/canonical_package_statistics/app.py:138-139 | comma-free pieces, empty ones included, survive join-then-split unchanged |
| `ByteStrings.Strip` | src/canonical_package_statistics/app.py:132-138 | no contract of its own: `strip()` is `LStrip` then `RStrip`, whose contracts determine it; StripNoSpace shows it is the identity on tokens |
| `ByteStrings.LStrip` | src/canonical_package_statistics/app.py:132 | the result is a suffix of the input, all dropped bytes are whitespace, and the result does not start with whitespace |
| `ByteStrings.RStrip` | src/canonical_package_statistics/app.py:132 | the result is a prefix of the input, all dropped bytes are whitespace, and the result does not end with whitespace |
| `ByteStrings.StripNoSpace` | src/canonical_package_statistics/app.py:138 | stripping a whitespace-free token changes nothing, so the second `strip()` is a no-op |
| `ByteStrings.ReadLines` | src/canonical_package_statistics/app.py:105 | no contract of its own; ReadLinesSpec and ReadLinesConcat determine it |
| `ByteStrings.ReadLinesSpec` | src/canonical_package_statistics/app.py:97-106 | `readlines()` gives non-empty lines; each line except the last ends in a newline and none has a newline elsewhere; the lines concatenate back to the stream |
| `ByteStrings.ReadLinesConcat` | tests/test_app.py:13-19 | well-formed lines, such as the test's two lines whose last has no newline, are exactly what `readlines()` recovers from their concatenation |
| `Counters.Add` | src/canonical_package_statistics/app.py:142 | counting a key raises its count by one, leaves every other count alone, appends the key only if it is new, and keeps the counter well formed |
| `Counters.Tally` | src/canonical_package_statistics/app.py:142 | no contract of its own; TallySpec, TallyTotal and TallyPermutation determine it |
| `Counters.TallySpec` | src/canonical_package_statistics/app.py:142 | `Counter(xs)` is well formed, holds exactly the keys of `xs`, each with its number of occurrences, and orders keys by first occurrence |
| `Counters.TallyPermutation` | src/canonical_package_statistics/app.py:142 | two permutations of one list give the same counts |
| `Counters.CountElements` | src/canonical_package_statistics/app.py:142 | the counting loop builds `Counter(xs)`: well formed, with each count equal to the number of occurrences |
| `Counters.TallyTotal` | src/canonical_package_statistics/app.py:142 | the counts add up to the length of the counted list |
| `Counters.SortByCountSpec` | src/canonical_package_statistics/app.py:79 | the sort behind `most_common` permutes its input, orders by count descending, keeps the total and keeps keys distinct |
| `Counters.SortByCountStable` | src/canonical_package_statistics/app.py:79 | the sort is stable: the entries of any one count keep their input order |
| `Counters.MostCommon` | src/canonical_package_statistics/app.py:79 | no contract of its own; MostCommonShape, MostCommonTop and MostCommonTieOrder determine it |
| `Counters.MostCommonShape` | src/canonical_package_statistics/app.py:79 | `most_common(n)` has `min(n, keys)` entries; each is a key with its count; no key occurs twice; counts do not increase |
| `Counters.MostCommonTop` | src/canonical_package_statistics/app.py:79 | no key left out has a higher count than a key kept |
| `Counters.MostCommonTies` | src/canonical_package_statistics/app.py:79 | for each count, the kept entries with that count are a prefix of the counter's entries with that count, in insertion order |
| `Counters.MostCommonTieOrder` | src/canonical_package_statistics/app.py:79 | tied keys are listed in insertion order, and a dropped key comes after every kept key with its count |
| `Counters.MostCommonAll` | src/canonical_package_statistics/app.py:79 | with `n` at least the number of keys, every entry is listed and the total is kept |
| `Mirror.Value` | src/canonical_package_statistics/app.py:15-41 | no contract of its own; FromValueRoundTrip shows the 21 values are distinct and found again |
| `Mirror.FromValue` | src/canonical_package_statistics/app.py:15-41 | looking an architecture up by its value returns a member with that value, or nothing |
| `Mirror.FromValueRoundTrip` | src/canonical_package_statistics/app.py:15-41 | every member is found again from its value (for example `UdebS390` from `udeb-s390x`), so values are distinct |
| `Mirror.ContentsFileName` | src/canonical_package_statistics/app.py:55 | no contract of its own; ContentsFileNameInjective shows distinct members get distinct names |
| `Mirror.ContentsFileNameInjective` | src/canonical_package_statistics/app.py:55 | different members never share a `Contents-<value>.gz` name |
| `Mirror.Url` | src/canonical_package_statistics/app.py:62 | no contract of its own; UrlSpec and DefaultUrl state its shape |
| `Mirror.UrlSpec` | src/canonical_package_statistics/app.py:62 | the URL is the mirror, one `/`, then the file name; a mirror ending in `/` gives `//` |
| `Mirror.DefaultUrl` | src/canonical_package_statistics/app.py:11 | with the default mirror, the URL is `http://ftp.uk.debian.org/debian/dists/stable/main//Contents-<value>.gz` |
| `App.Locations` | src/canonical_package_statistics/app.py:129-132 | the `try` body fails exactly on a row without tokens, always with `IndexError`; otherwise it gives the last token, non-empty and whitespace-free |
| `App.ParseFileRows` | src/canonical_package_statistics/app.py:109-142 | succeeds exactly when every row has a token, with 0 error lines and the counter of all the rows' pieces in order; otherwise it fails with `IndexError` at the first row without a token |
| `App.RowPackages` | src/canonical_package_statistics/app.py:129-138 | no contract of its own; RowPackagesSpec, OnlyLastToken and RowOfPieces determine it |
| `App.RowPackagesSpec` | src/canonical_package_statistics/app.py:129-139 | a row gives one more identifier than its last token has commas; no identifier holds a comma or whitespace; joined with commas they give the last token |
| `App.OnlyLastToken` | src/canonical_package_statistics/app.py:127-132 | anything before the last token, including a path with spaces, changes neither the last token nor the identifiers |
| `App.RowOfPieces` | src/canonical_package_statistics/app.py:138-139 | a row whose last token is a comma join of pieces gives exactly those pieces, empty ones included |
| `App.SingleTokenRow` | src/canonical_package_statistics/app.py:124-139 | a one-token row without commas is not an error line: it gives its token as one identifier |
| `App.BlankRowIff` | src/canonical_package_statistics/app.py:129-135 | the row-level form of `ByteStrings.SplitEmptyIff`: a row has no token, so `row_split[-1]` raises, exactly when it is empty or all whitespace |
| `App.PackageFiles` | src/canonical_package_statistics/app.py:123-139 | no contract of its own; PackageFilesSnoc, PackageFilesConcat, TotalCount and PackageFilesMultiset state it |
| `App.PackageFilesSnoc` | src/canonical_package_statistics/app.py:139 | one more row extends the list with that row's identifiers |
| `App.PackageFilesConcat` | src/canonical_package_statistics/app.py:125-139 | the identifiers of two runs of rows are those of the first followed by those of the second |
| `App.TotalCount` | src/canonical_package_statistics/app.py:129-142 | the list length and the sum of all counts both equal the sum over rows of (commas in the last token + 1) |
| `App.SameLastTokens` | src/canonical_package_statistics/app.py:127-139 | rows with the same last tokens give the same list and the same counter |
| `App.PackageFilesMultiset` | src/canonical_package_statistics/app.py:123-139 | reordering the rows permutes the list of identifiers |
| `App.OrderIndependent` | src/canonical_package_statistics/app.py:123-142 | the counts depend only on the multiset of rows |
| `App.NumberRanking` | src/canonical_package_statistics/app.py:79-80 | the numbered lines follow the ranking, with ranks 1..k |
| `App.Statistics` | src/canonical_package_statistics/app.py:75-80 | succeeds exactly when every row has a token; then it reports the row count, 0 error lines and `most_common(list_count)` numbered from 1; otherwise it reports the first row without a token, with `IndexError` |
| `App.RankingEntries` | src/canonical_package_statistics/app.py:79-80 | the ranking lists `min(list_count, distinct packages)` packages of the rows, each with its number of files, none twice, counts non-increasing |
| `App.RankingTop` | src/canonical_package_statistics/app.py:79 | no package left out of the ranking has more files than a listed one |
| `App.RankingTies` | src/canonical_package_statistics/app.py:79 | packages with equal counts are ranked in the order they first occur in the rows |
| `Scenarios.PackageRowsFiles` | src/canonical_package_statistics/app.py:127-139 | rows `<path><space><package>` contribute their packages, in order |
| `Scenarios.TestDataTally` | tests/test_app.py:32-46 | the test's package column counts to kajiki 6, wims-help 3, mailman3 4, in that order of keys |
| `Scenarios.TestDataRanking` | tests/test_app.py:71-73 | that counter's `most_common(10)` is kajiki 6, mailman3 4, wims-help 3 |
| `Scenarios.TestDataCounts` | tests/test_app.py:32-52 | the 13 test rows parse to that counter and that ranking, whatever their paths |
| `Scenarios.ThreeRowsFiles` | src/canonical_package_statistics/app.py:125-139 | rows `a pkg/one,pkg/two`, `b pkg/one`, `bad-line-no-package` all have a token and contribute `pkg/one, pkg/two, pkg/one, bad-line-no-package` |
| `Scenarios.ThreeRowsTally` | src/canonical_package_statistics/app.py:142 | those identifiers count to `pkg/one` 2, `pkg/two` 1, `bad-line-no-package` 1 |
| `Scenarios.ThreeRows` | src/canonical_package_statistics/app.py:124-142 | the three rows succeed and count `bad-line-no-package` as a package, not as an error line |

## Left out

- HTTP fetch (`requests.get`, `raise_for_status`, `app.py:62-65`): network I/O. Only the URL is modelled.
- The cache directory, `mkdir`, the existence check, `resolve()` and `persist_file` (`app.py:12`, `app.py:54-57`, `app.py:83-94`): filesystem I/O. Only the file name is modelled.
- gzip decompression in `read_gzip_file` (`app.py:97-106`): modelled from the decompressed content onward, as `readlines()` on that content.
- The typer command line, its exit codes and `print` (`app.py:44-53`, `app.py:145-146`): user-interface plumbing. On success, `Statistics` returns the row count, the error-line count and the numbered ranking that `main` prints. On a crash it returns only the crash. The row count already printed at `app.py:75` and the file name printed at `app.py:78` are not returned.
- `package.decode()` (`app.py:80`): UTF-8 decoding is not modelled; entries keep the raw bytes. So is its error path: a listed package name that is not valid UTF-8 makes `main` raise `UnicodeDecodeError` after the earlier ranks are printed, while `Statistics` still succeeds.
- Negative `list_count`: `most_common` with a negative count goes to `heapq.nlargest`, which lists nothing. This is not modelled; the count is a `nat`.
- `Counters.MostCommon` is a stable sort followed by taking a prefix. That is what CPython does for `most_common(None)`. For a given `n` CPython uses `heapq.nlargest`, which is documented to give the same list as the sorted prefix.
- Counters.CountElements: the counter is a value (insertion-ordered keys and a map) rebuilt by the counting loop, not a mutable dictionary object shared by reference.
- `test_main` calls `main` with `cache` and `cache_dir` arguments (`tests/test_app.py:68`). `test_main_fail_arch` invokes an `app` object (`tests/test_app.py:77`). The source has neither, so those calls are not modelled. The ranking `test_main` expects (`tests/test_app.py:71-73`) is proved by `Scenarios.TestDataRanking`.

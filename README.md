# Hugo self-updater: a Dafny model of its decision logic

`hugo_updater.py` keeps a local `hugo` binary current. It fetches the list of
Hugo releases from GitHub. It sorts the list by `created_at`, newest first,
and drops pre-releases. It takes the first remaining release and strips the
leading `v`s from that release's tag. If the marker file `hugo_version.txt`
already holds that version and the binary exists, it stops. Otherwise it
downloads every asset whose name contains both `linux-amd64.tar.gz` and
`extended`, extracts `hugo` from each, and writes the version to the marker
file.

This project models that logic with the I/O taken out. The inputs are:

- the decoded release list;
- the marker file's text, or `None` when the file does not exist;
- whether the binary exists.

The output is a `Plan`: whether the run is up to date, the URLs it downloads
in order, and the marker it writes, if any. The error case is
`NoStableRelease`, where the script would raise `IndexError` on
`stable_releases[0]`.

Modules, one per concern:

- `Wrappers` (wrappers.dfy): `Option` and `Result`.
- `Strings` (strings.dfy): the Python `str` operations the script uses.
  These are `<` (code-point lexicographic order), `in` on strings,
  `lstrip("v")` and `strip()`.
- `Releases` (releases.dfy): the release and asset records and
  `get_latest_version`. The in-place `data.sort(...)` is a method on an
  array, an insertion sort. It is proved equal, element for element, to the
  function `SortNewestFirst`. That function is proved sorted newest first,
  a permutation of its input and stable. Filtering and `[0]` are functions.
  `LatestStableIndex` is a separate one-pass reference for which release
  should be picked. `SortThenFirstStable` proves that the script's
  sort-filter-index gives the same result.
- `Updater` (updater.dfy): tag normalisation, the marker, the up-to-date
  test, the asset loop (a method with a `for` loop, proved against
  `DownloadUrls`), and `Run`, which models `main()`. `Run` is proved equal to
  the specification function `Decide`, and the lemmas after it state what a
  run does.

Three behaviours of the code are easy to misread, and the model follows the
code in each:

- `lstrip("v")` removes every leading `v`, not just one
  (`NormaliseDropsEveryLeadingV`, `DoubledPrefixExample`).
- The asset loop has no `break`, so every matching asset is downloaded and
  extracted in list order, not only the first (`DownloadUrlsExact`).
- The marker is written even when no asset matched (`UpdateBranch`,
  `RerunIsUpToDate`).

Python's `list.sort` is Timsort. A stable sort's result is fully determined
by its input, so the insertion sort here leaves the same list. The model
proves the three properties that force that result: sorted, permutation and
stable.

## Model

| member | source | states |
|---|---|---|
| `Strings.LexLessMeaning` | hugo_updater.py:14 | the key order is the textbook lexicographic order: `a < b` exactly when `a` is a proper prefix of `b` or the first differing character of `a` is smaller |
| `Strings.LexLessTrichotomy` | hugo_updater.py:14 | any two `created_at` strings are equal or ordered one way round, never both |
| `Strings.LexLessTransitive` | hugo_updater.py:14 | the key order is transitive |
| `Strings.ContainsMeaning` | hugo_updater.py:35 | `sub in s` holds exactly when `sub` occurs in `s` at some position |
| `Strings.LStrip` | hugo_updater.py:21 | `lstrip(c)` returns a suffix of its input that does not start with `c`, and every character removed is `c` |
| `Strings.Strip` | hugo_updater.py:24 | `strip()` returns a contiguous slice of its input with no whitespace at either end, and only whitespace is cut off on either side |
| `Strings.StripIdempotent` | hugo_updater.py:24 | stripping a stripped string changes nothing |
| `Releases.SortByCreatedAt` | hugo_updater.py:14 | the in-place sort leaves the array equal to `SortNewestFirst` of its old contents |
| `Releases.InsertLast` | hugo_updater.py:14 | one insertion step: the sorted prefix plus the next element becomes their `InsertNewestFirst`, and the rest of the array is unchanged |
| `Releases.SortIsSorted` | hugo_updater.py:14 | after the sort no release has a smaller `created_at` than a later one |
| `Releases.SortIsPermutation` | hugo_updater.py:14 | the sort keeps the same releases, each as often (same multiset) |
| `Releases.SortIsStable` | hugo_updater.py:14 | for every `created_at` value, the releases carrying it come out in their input order (`reverse=True` keeps the sort stable) |
| `Releases.StableReleases` | hugo_updater.py:15 | the list comprehension keeps only releases that are not pre-releases |
| `Releases.StableReleasesComplete` | hugo_updater.py:15 | every release that is not a pre-release survives the filter |
| `Releases.StableReleasesConcat` | hugo_updater.py:15 | filtering distributes over concatenation, so the kept releases stay in their input order |
| `Releases.FirstStableFails` | hugo_updater.py:15-16 | `stable_releases[0]` fails exactly when every release is a pre-release |
| `Releases.FirstStableAt` | hugo_updater.py:15-16 | a successful `stable_releases[0]` is the first release of the sorted list that is not a pre-release |
| `Releases.LatestStableIndex` | hugo_updater.py:14-16 | reference selection: it yields a position that is stable, has a `created_at` no stable release exceeds, and beats every stable release ahead of it strictly; it yields none exactly when all releases are pre-releases |
| `Releases.LatestStableIndexExact` | hugo_updater.py:14-16 | the reference names position `i` exactly when `i` is the latest stable release (both directions) |
| `Releases.SortThenFirstStable` | hugo_updater.py:14-16 | sort newest first, filter and take `[0]` gives the reference result: the stable release with the largest `created_at`, the earliest in the input among ties, or `NoStableRelease` |
| `Releases.GetLatestVersion` | hugo_updater.py:11-16 | `get_latest_version` fails exactly when no release is stable; otherwise it returns the latest stable release, ties broken by input order |
| `Updater.NormaliseTag` | hugo_updater.py:21 | the version is a suffix of the tag, does not start with `v`, and only `v`s were removed |
| `Updater.NormaliseIdempotent` | hugo_updater.py:21 | normalising twice is normalising once |
| `Updater.NormaliseIdentity` | hugo_updater.py:21 | a tag not starting with `v` is unchanged |
| `Updater.NormaliseDropsEveryLeadingV` | hugo_updater.py:21 | any number of leading `v`s, not just one, is removed |
| `Updater.NormaliseExamples` | hugo_updater.py:21 | `v0.123.4` and `0.123.4` both normalise to `0.123.4` |
| `Updater.DoubledPrefixExample` | hugo_updater.py:21 | `vv1.0` normalises to `1.0` |
| `Updater.CurrentVersion` | hugo_updater.py:23-26 | the current version is `None` exactly when the marker file is absent; otherwise it is the file's text with surrounding whitespace removed |
| `Updater.WantedIndices` | hugo_updater.py:33-36 | the positions the loop does not skip are increasing, each names an asset whose name holds both substrings, and every such asset is among them |
| `Updater.DownloadUrlsExact` | hugo_updater.py:33-39 | the downloads are exactly the `browser_download_url`s of the assets that are not skipped, in list order and one per asset |
| `Updater.NoWantedNoDownload` | hugo_updater.py:33-36 | when no asset name holds both substrings, nothing is downloaded |
| `Updater.DownloadPlan` | hugo_updater.py:33-43 | the loop with `continue` downloads the URLs in `DownloadUrls` of the asset list |
| `Updater.WantedMeaning` | hugo_updater.py:35 | an asset is not skipped exactly when both `linux-amd64.tar.gz` and `extended` occur somewhere in its name |
| `Updater.ExtendedLinuxWanted` | hugo_updater.py:35 | a name holding `extended` and, later, `linux-amd64.tar.gz` is not skipped |
| `Updater.LinuxExtendedWanted` | hugo_updater.py:35 | a name holding `linux-amd64.tar.gz` and, later, `extended` is not skipped |
| `Updater.MissingTagNotWanted` | hugo_updater.py:35 | a name without an `e` (so no `extended`) or without an `l` (so no `linux-amd64.tar.gz`) is skipped |
| `Updater.Decide` | hugo_updater.py:19-44 | a run fails exactly when no release is stable; an up-to-date run downloads nothing and writes no marker; an updating run always writes a marker |
| `Updater.Run` | hugo_updater.py:19-44 | `main()`, with sort, filter, index and loop as the script runs them, has the outcome `Decide` specifies |
| `Updater.UpToDateExactly` | hugo_updater.py:21-28 | a run is up to date exactly when the marker file exists, its stripped text equals the latest stable release's normalised tag, and the binary exists |
| `Updater.AbsentMarkerNeverUpToDate` | hugo_updater.py:23-28 | with no marker file a run never counts as up to date |
| `Updater.UpdateBranch` | hugo_updater.py:32-44 | an updating run downloads exactly the wanted assets' URLs in order, then writes the normalised tag, also when nothing matched |
| `Updater.RerunIsUpToDate` | hugo_updater.py:23-44 | running again after an update, with the marker it wrote and the binary present, stops as up to date, provided the version has no surrounding whitespace. This holds even if the update downloaded nothing, so an old binary is then never replaced |

## Left out

- HTTP requests for the listing and the assets (hugo_updater.py:12, 39): network I/O. The decoded listing is an input, and a download is a URL in `Plan.downloads`. The missing status-code check is not modelled either.
- JSON decoding (hugo_updater.py:13) and the `KeyError` a record missing `created_at`, `prerelease`, `tag_name`, `assets`, `name` or `browser_download_url` would raise: records are typed datatypes, so every field is present.
- `tarfile`/`BytesIO` extraction of the `hugo` entry (hugo_updater.py:41-43): archive format work in a foreign library. It is modelled only as "the URL was downloaded and extracted", and its failure modes (bad archive, missing entry) are not modelled.
- File system access (hugo_updater.py:23-24, 28, 44): `exists()`, `read_text()` and `write_text()` become the `Option<string>` marker input, the `bool` binary flag and `Plan.markerWrite`. Text decoding of the marker file is not modelled, and neither is the universal-newline translation of `read_text()`: a `\r` inside a written version would read back as `\n`, which `RerunIsUpToDate` does not account for.
- `print` output (hugo_updater.py:29, 32, 38, 40): it has no effect on behaviour.
- Strings.Strip: the Unicode whitespace set is Python's `str.isspace` set written out by hand, and Dafny's `char` has no surrogate code points; a marker file text holding lone surrogates is not modelled.
- assets/js/main.js: browser analytics glue around a third-party tracker; it has no logic of its own and is not part of this model.

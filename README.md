# adp-scrape pay-stub fetcher: a Dafny model of its decision logic

The `PayCheckFetcher` in `adp.py` logs in to the ADP portal, lists the
pay statements, and downloads as PDFs the ones not yet on the local disk.
This project models the logic between the remote listing and the disk, and
proves properties of it:

- **Download-URL rewriting** (`_transform_download_url`). A link that starts
  with `/l2` has every `/l2` in it replaced by `https://my.adp.com`. This is
  Python's `str.replace`, so later occurrences are replaced too. Any other
  link is used unchanged.
- **File naming** (`_expected_file_name`): `<date>.pdf`.
- **The listing map** (`get_paystub_urls`). The date-to-link dict is rebuilt
  from the parsed statements. A later statement for the same date wins.
- **The needed filter** (`get_needed_paystubs`). A `[date, url]` entry is kept
  only if neither `<date>.pdf` nor `os.path.join(<year>, <date>.pdf)` exists.
  Here `<year>` is `date.split('-')[0]`. The kept entries are returned sorted.
- **Downloading** (`download_paystub`, `download_needed`). A 200 response
  writes its body to `<date>.pdf`, creating or overwriting it. Any other
  status leaves the disk alone. The needed list is computed once and then
  downloaded entry by entry, in order.

Files:
- `pystr.dfy`, module `PyStr`: the Python `str` operations the code uses.
  These are `startswith`, `replace`, `split(sep)[0]` and string ordering.
- `pysorted.dfy`, module `PySorted`: two-element lists, Python's list
  ordering, and `sorted` as insertion sort.
- `ospath.dfy`, module `OsPath`: POSIX `os.path.join` with two arguments.
- `adp.dfy`, module `Adp`: the fetcher itself. The local disk is a `Disk`
  object holding a path-to-bytes map. The fetcher is a `PayCheckFetcher`
  object with the `paystub_url_by_date` map as a field.

Three details of the code the model keeps exactly:
- Only the `/l2` itself is replaced, so `/l2/doc1` becomes
  `https://my.adp.com/doc1` (`Adp.TwoEntryExample`).
- The year directory is the text before the first `-`, of any length. For a
  `YYYY-MM-DD` date that is the first four characters (`Adp.IsoDateYearPath`).
- `sorted` compares whole `[date, url]` lists. That is date order, because
  no date occurs twice in the list (`Adp.PayCheckFetcher.GetNeededPaystubs`).

## Model

| member | source | states |
|---|---|---|
| `Adp.TransformDownloadUrl` | adp.py:130-134 | a link not starting with `/l2` is returned unchanged; a link starting with `/l2` becomes one that starts with `https://my.adp.com` and contains no `/l2` at all |
| `Adp.ReplaceLeavesNoRelativePrefix` | adp.py:134 | after `replace('/l2', 'https://my.adp.com')` no occurrence of `/l2` is left anywhere in the string |
| `Adp.SingleRelativePrefix` | adp.py:131-134 | a link `/l2` + rest, with no other `/l2`, becomes `https://my.adp.com` + rest |
| `Adp.EveryRelativePrefixRewritten` | adp.py:134 | `/l2/a/l2/b` becomes `https://my.adp.com/ahttps://my.adp.com/b`: the second `/l2` is replaced as well, not only the prefix |
| `Adp.TransformIdempotent` | adp.py:130-134 | rewriting an already rewritten URL changes nothing |
| `PyStr.ReplaceAbsent` | adp.py:134 | `replace` leaves a string without the pattern unchanged |
| `PyStr.Replace` | adp.py:134 | `str.replace` with a non-empty pattern, scanning left to right and replacing every non-overlapping occurrence; a string starting with the pattern gives one starting with the replacement, any other non-empty string keeps its first character; `PyStr.ReplaceAbsent` and `Adp.ReplaceLeavesNoRelativePrefix` state what it leaves and removes |
| `PyStr.StartsWith` | adp.py:131 | `url.startswith('/l2')`: the string's first characters are the prefix; `PyStr.StartsWithConcat` states the equivalent form |
| `PyStr.StartsWithConcat` | adp.py:131 | a string starts with a prefix exactly when it is that prefix followed by some rest |
| `Adp.ExpectedFileNameInjective` | adp.py:137-138 | the date is the prefix of `<date>.pdf`, and two dates have the same file name exactly when they are equal |
| `Adp.ExpectedFileName` | adp.py:137-138 | the file name `<date>.pdf`; `Adp.ExpectedFileNameInjective` states that the date can be read back from it |
| `PyStr.SplitHead` | adp.py:119 | `date.split('-')[0]` is a prefix of the date with no `-` in it, followed in the date by `-` unless it is the whole date |
| `Adp.YearOf` | adp.py:119 | the year directory `date.split('-')[0]`; its properties are those of `PyStr.SplitHead`, and `Adp.IsoDateYearPath` gives it for `YYYY-MM-DD` dates |
| `OsPath.Join` | adp.py:121 | `os.path.join(a, b)` ends with `b`; an absolute `b` is the result; otherwise the result is `a + b` or `a + "/" + b`, and it is the latter when `a` is non-empty and does not end in `/` |
| `OsPath.JoinPlain` | adp.py:121 | for a non-empty directory without a trailing `/` and a relative name, the result is `a + "/" + b` |
| `Adp.IsoDateYearPath` | adp.py:114-121 | for a `YYYY-MM-DD` date the year is the first four characters, and the second path checked is `YYYY/YYYY-MM-DD.pdf` |
| `Adp.AlreadyHave` | adp.py:114-123 | a date is on disk when `<date>.pdf` or `os.path.join(<year>, <date>.pdf)` exists; `Adp.PresentDateNotNeeded`, `Adp.NotHadUnderOtherName` and `Adp.StoredIsHad` state its consequences |
| `Adp.NotHadUnderOtherName` | adp.py:114-121 | a date is not on disk when the only existing path has the length of `<date>.pdf` but is a different name: neither checked path can be that file |
| `Adp.ListingMapKeys` | adp.py:98-101 | the keys of the built map are exactly the pay dates of the listed statements |
| `Adp.ListingMap` | adp.py:98-101 | the dict comprehension over the statements; `Adp.ListingMapKeys` and `Adp.ListingMapLastWins` state its keys and values |
| `Adp.ListingMapLastWins` | adp.py:98-101 | each date maps to the href of the last statement listed with that date |
| `Adp.PayCheckFetcher.GetPaystubUrls` | adp.py:86-101 | the map becomes the map of the statements alone; nothing of the previous map survives |
| `Adp.PayCheckFetcher.GetNeededPaystubs` | adp.py:103-127 | `[date, url]` is in the result iff the map sends `date` to `url` and neither `<date>.pdf` nor `<year>/<date>.pdf` exists; the result is in Python's sorted order, dates strictly ascend (none repeats), and it is no longer than the map |
| `PySorted.Sort` | adp.py:127 | `sorted` returns a permutation of its input that is ordered by Python's list comparison, and has no repeated element when the input has none |
| `PySorted.PairLe` | adp.py:127 | Python's `<=` on `[date, url]` lists, which `sorted` uses: first by date, then by url; `PySorted.PairLeTotal` and `PySorted.PairLeTransitive` make it a total preorder |
| `PySorted.PairLeTotal` | adp.py:127 | any two `[date, url]` lists are comparable |
| `PySorted.PairLeTransitive` | adp.py:127 | the list comparison is transitive |
| `Adp.SortedFoundIsNeeded` | adp.py:112-127 | sorting the entries the walk kept gives the needed list, of the same length: `sorted` keeps every entry and no date has two |
| `PySorted.AscendingUnique` | adp.py:127 | two lists with strictly ascending first components and the same elements are equal |
| `Adp.NeededListUnique` | adp.py:112-127 | only one list fits the description of the needed list, so the order in which the dict is walked cannot change the result |
| `Adp.PresentDateNotNeeded` | adp.py:114-123 | a date whose `<date>.pdf` or `<year>/<date>.pdf` exists is never in the needed list, whatever link the map gives for it |
| `Adp.TwoEntryExample` | adp.py:103-134 | map `{2023-01-15: /l2/doc1, 2023-02-15: https://my.adp.com/doc2}` with `2023-01-15.pdf` present gives exactly `[[2023-02-15, https://my.adp.com/doc2]]`, and `/l2/doc1` would have become `https://my.adp.com/doc1` |
| `Adp.TwoEntryNeeded` | adp.py:112-127 | in that example the list holding only the `2023-02-15` entry fits the description of the needed list |
| `Adp.TwoEntryPresence` | adp.py:114-123 | in that example `2023-01-15` counts as on disk and `2023-02-15` does not |
| `Adp.Stored` | adp.py:148-157 | on a non-200 status the files are unchanged; on 200 the only new or changed file is `<date>.pdf` and it holds the body, created or overwritten; every other file keeps its content |
| `Adp.StoredIsHad` | adp.py:114-117 | after a 200 download the date counts as already on disk, so a later run does not need it |
| `Adp.PayCheckFetcher.DownloadPaystub` | adp.py:140-158 | exactly one GET, of the rewritten URL, is made; the disk then matches `Stored` for that response |
| `Adp.Urls` | adp.py:170-171 | the URLs requested for a list of entries: one per entry, in order, each the rewritten link of that entry |
| `Adp.StoreAll` | adp.py:170-171 | the files after `download_paystub` has run for each entry of the list in order; `Adp.StoreAllEffect` and `Adp.StoreAllOnlySaved` state the outcome |
| `Adp.StoreAllEffect` | adp.py:148-171 | after downloading a needed list, each entry that got 200 has its body in `<date>.pdf`, because no later entry overwrites it, and is no longer needed; no file is removed, and files no entry names keep their content |
| `Adp.StoreAllOnlySaved` | adp.py:148-171 | after downloading a needed list, the only new paths are the `<date>.pdf` files of the entries that got 200; an entry answered with any other status leaves no `<date>.pdf` behind |
| `Adp.PayCheckFetcher.DownloadNeeded` | adp.py:160-171 | the map is rebuilt from the listing; the needed list is computed once from the disk as it was before any download; one GET per entry is made, of its rewritten URL, in that list's order; the disk ends as those downloads applied in order leave it |
| `Adp.PayCheckFetcher.DownloadAll` | adp.py:170-171 | the loop: one GET per entry in list order, and the disk ends as `Adp.StoreAll` says |
| `Adp.PayCheckFetcher.constructor` | adp.py:39-43 | a new fetcher keeps its credentials and session and starts with an empty map |
| `Adp.Disk.constructor` | adp.py:114-123 | a disk starts with exactly the given files |

## Left out

- Login, landing-page and identity requests (`log_in`, `get_all_the_cookies`, `get_uid`, adp.py:45-84). They are network and cookie plumbing with no decision in them. `Adp.PayCheckFetcher.DownloadNeeded` starts after them.
- `Adp.PayCheckFetcher.DownloadNeeded`: does not model the exceptions that abort a run, such as network errors or malformed JSON. Every request is assumed to return a response.
- JSON decoding in `get_paystub_urls` (adp.py:94-96). The model takes the already-parsed `(payDate, href)` records. A missing key would be an exception in the JSON library.
- The `limit` and `adjustments` query parameters. They only shape the request to the portal, so their effect is whatever statements the portal returns.
- `locale.getdefaultlocale()` (adp.py:82). It depends on the environment and only feeds a cookie.
- The HTTP session is a fixed function from URL to `(status, body)`. Requesting the same URL twice gives the same answer. Timeouts and transport errors are not modelled.
- Streaming the body with `shutil.copyfileobj` (adp.py:147, 155-157). The body is one byte sequence written whole, so a partial file from an interrupted download is not modelled.
- The `print` diagnostics (adp.py:149-151, 158). They are console output only.
- The `click` command line and reading the credentials file (adp.py:174-190). These are argument parsing and file I/O. `setup.py` is packaging metadata.
- Python dict iteration order. The model walks the map's keys in an arbitrary order. `Adp.NeededListUnique` shows the sorted result cannot depend on that order.
- The filesystem. It is a map from path strings to contents, and `os.path.exists` is membership of its keys. Directories, path normalisation, and races between the check and the write are not modelled.
- `PyStr.Replace` is defined only for a non-empty pattern. The code only calls `replace` with `/l2`.
- `username` and `password` are kept on the fetcher but unused, since the login is not modelled.

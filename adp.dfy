/**
 The decision logic of the pay-stub fetcher: how a listed document link is
 rewritten into a download URL, what file a pay date is stored under, how the
 listing becomes a date-to-URL map, which pay dates still need downloading,
 and what downloading them does to the local disk.
 */
module Adp {
  import opened PyStr
  import opened PySorted
  import OsPath

  newtype byte = b: int | 0 <= b < 256

  /** The host that relative document links are rewritten onto. */
  const PortalHost: Str := "https://my.adp.com"

  /** The prefix that marks a document link as relative to the portal. */
  const RelativePrefix: Str := "/l2"

  const PdfSuffix: Str := ".pdf"

  /** The only HTTP status under which a document is saved. */
  const StatusOk: int := 200

  // ---------------------------------------------------------------------------
  // Download-URL rewriting

  /**
   `_transform_download_url`: a link that does not start with `/l2` is used as
   it is; otherwise EVERY occurrence of `/l2` in it is replaced by the portal
   host (Python's `str.replace`), not only the leading one.
   */
  function TransformDownloadUrl(url: Str): (r: Str)
    ensures !StartsWith(url, RelativePrefix) ==> r == url
    ensures StartsWith(url, RelativePrefix) ==> StartsWith(r, PortalHost) && !Contains(r, RelativePrefix)
  {
    if !StartsWith(url, RelativePrefix) then url
    else
      ReplaceLeavesNoRelativePrefix(url);
      Replace(url, RelativePrefix, PortalHost)
  }

  /** After the rewrite, `/l2` occurs nowhere in the result. */
  lemma {:induction false} ReplaceLeavesNoRelativePrefix(s: Str)
    ensures !Contains(Replace(s, RelativePrefix, PortalHost), RelativePrefix)
    decreases |s|
  {
    var P, H := RelativePrefix, PortalHost;
    if |s| < |P| {
      assert Replace(s, P, H) == s;
    } else if StartsWith(s, P) {
      ReplaceLeavesNoRelativePrefix(s[|P|..]);
      NoRelativePrefixAfterHost(Replace(s[|P|..], P, H));
    } else {
      ReplaceLeavesNoRelativePrefix(s[1..]);
      NoRelativePrefixAfterCopy(s, Replace(s[1..], P, H));
    }
  }

  /** The host contains no `l` and no `2`, so `/l2` cannot start inside it. */
  lemma NoRelativePrefixAfterHost(t: Str)
    requires !Contains(t, RelativePrefix)
    ensures !Contains(PortalHost + t, RelativePrefix)
  {
    var P, H := RelativePrefix, PortalHost;
    var r := H + t;
    assert 'l' !in H && '2' !in H;
    forall i: nat | i <= |r|
      ensures !OccursAt(r, P, i)
    {
      if i + |P| <= |r| {
        if i + 1 < |H| {
          assert r[i + 1] == H[i + 1] && H[i + 1] in H;
          assert r[i..i + |P|][1] != P[1];
        } else if i + 1 == |H| {
          assert r[i] == H[|H| - 1] == 'm';
          assert r[i..i + |P|][0] != P[0];
        } else {
          OccursAtShift(H, t, P, i - |H|);
        }
      }
    }
  }

  /** Copying a character that does not begin `/l2` in front of a rewritten rest adds no `/l2`. */
  lemma NoRelativePrefixAfterCopy(s: Str, t: Str)
    requires |s| >= |RelativePrefix| && !StartsWith(s, RelativePrefix)
    requires t == Replace(s[1..], RelativePrefix, PortalHost) && !Contains(t, RelativePrefix)
    ensures !Contains([s[0]] + t, RelativePrefix)
  {
    var P := RelativePrefix;
    var r := [s[0]] + t;
    forall i: nat | i <= |r|
      ensures !OccursAt(r, P, i)
    {
      if i + |P| <= |r| {
        if i == 0 {
          FirstThreeAfterCopy(s, t);
        } else {
          OccursAtShift([s[0]], t, P, i - 1);
        }
      }
    }
  }

  /**
   When the scan copies `s[0]` because `s` does not start with `/l2`, the
   copied character and the start of the rest cannot spell `/l2`.
   */
  lemma FirstThreeAfterCopy(s: Str, t: Str)
    requires |s| >= |RelativePrefix| && !StartsWith(s, RelativePrefix)
    requires t == Replace(s[1..], RelativePrefix, PortalHost) && |t| >= 2
    ensures ([s[0]] + t)[..3] != RelativePrefix
  {
    var P, H := RelativePrefix, PortalHost;
    assert StartsWith(s[1..], P) ==> t[0] == H[0];
    if s[0] == '/' && s[1] == 'l' {
      assert !StartsWith(s[1..], P);
      assert t[0] == 'l';
      if |s[1..]| < |P| {
        assert t == s[1..];
        assert s[..3] == [s[0], s[1], s[2]];
        assert t[1] != '2';
      } else {
        assert t == [s[1]] + Replace(s[2..], P, H);
        assert StartsWith(s[2..], P) ==> Replace(s[2..], P, H)[0] == H[0];
        assert s[..3] == [s[0], s[1], s[2]];
        assert t[1] != '2';
      }
      assert ([s[0]] + t)[2] != P[2];
    } else if s[0] == '/' {
      assert t[0] != 'l';
      assert ([s[0]] + t)[1] != P[1];
    } else {
      assert ([s[0]] + t)[0] != P[0];
    }
  }

  /** A link with a single leading `/l2` becomes the host followed by the rest of the link. */
  lemma SingleRelativePrefix(rest: Str)
    requires !Contains(rest, RelativePrefix)
    ensures TransformDownloadUrl(RelativePrefix + rest) == PortalHost + rest
  {
    var url := RelativePrefix + rest;
    assert StartsWith(url, RelativePrefix);
    assert url[|RelativePrefix|..] == rest;
    ReplaceAbsent(rest, RelativePrefix, PortalHost);
  }

  /** A link that starts with `/l2` has that prefix rewritten and the scan goes on behind it. */
  lemma ReplaceAtPrefix(rest: Str)
    ensures Replace(RelativePrefix + rest, RelativePrefix, PortalHost)
            == PortalHost + Replace(rest, RelativePrefix, PortalHost)
  {
    var s := RelativePrefix + rest;
    assert StartsWith(s, RelativePrefix) && s[|RelativePrefix|..] == rest;
  }

  /** A character that does not begin `/l2` at this position is copied. */
  lemma ReplaceCopies(c: char, rest: Str)
    requires !StartsWith([c] + rest, RelativePrefix)
    ensures Replace([c] + rest, RelativePrefix, PortalHost)
            == [c] + Replace(rest, RelativePrefix, PortalHost)
  {
    var s := [c] + rest;
    assert s[1..] == rest;
    if |s| < |RelativePrefix| {
      assert Replace(rest, RelativePrefix, PortalHost) == rest;
    }
  }

  /** A second `/l2` later in a relative link is rewritten as well. */
  lemma EveryRelativePrefixRewritten()
    ensures TransformDownloadUrl(RelativePrefix + "/a" + RelativePrefix + "/b")
            == PortalHost + "/a" + PortalHost + "/b"
  {
    var P, H := RelativePrefix, PortalHost;
    var tail := "/b";
    AbsentWithoutChar(tail, P, 1);
    ReplaceAbsent(tail, P, H);
    ReplaceAtPrefix(tail);
    var middle := "a" + P + tail;
    assert middle == ['a'] + (P + tail);
    ReplaceCopies('a', P + tail);
    var after := "/" + middle;
    assert after == ['/'] + middle;
    assert !StartsWith(after, P) by {
      assert after[1] != P[1];
    }
    ReplaceCopies('/', middle);
    assert Replace(after, P, H) == "/a" + H + tail;
    ReplaceAtPrefix(after);
    assert P + "/a" + P + "/b" == P + after;
    assert StartsWith(P + after, P);
  }

  /** Rewriting a rewritten URL changes nothing more. */
  lemma TransformIdempotent(url: Str)
    ensures TransformDownloadUrl(TransformDownloadUrl(url)) == TransformDownloadUrl(url)
  {
    var r := TransformDownloadUrl(url);
    if StartsWith(url, RelativePrefix) {
      assert r[0] == PortalHost[0] != RelativePrefix[0];
    }
  }

  // ---------------------------------------------------------------------------
  // File naming

  /** `_expected_file_name`: the pay date followed by `.pdf`. */
  function ExpectedFileName(date: Str): Str {
    date + PdfSuffix
  }

  /** The date can be read back from the file name, so distinct dates get distinct files. */
  lemma ExpectedFileNameInjective(d1: Str, d2: Str)
    ensures ExpectedFileName(d1)[..|d1|] == d1
    ensures ExpectedFileName(d1) == ExpectedFileName(d2) <==> d1 == d2
  {
    if ExpectedFileName(d1) == ExpectedFileName(d2) {
      assert |d1| == |d2|;
      assert ExpectedFileName(d2)[..|d2|] == d2;
    }
  }

  /** `date.split('-')[0]`: the year directory a pay date may have been filed under. */
  function YearOf(date: Str): Str {
    SplitHead(date, '-')
  }

  /** A pay date written `YYYY-MM-DD`. */
  predicate IsIsoDate(d: Str) {
    && |d| == 10 && d[4] == '-' && d[7] == '-'
    && forall k | 0 <= k < 10 && k != 4 && k != 7 :: '0' <= d[k] <= '9'
  }

  /**
   For a `YYYY-MM-DD` date the year is its first four characters, and the
   second place looked at is `YYYY/YYYY-MM-DD.pdf`.
   */
  lemma IsoDateYearPath(d: Str)
    requires IsIsoDate(d)
    ensures YearOf(d) == d[..4]
    ensures OsPath.Join(YearOf(d), ExpectedFileName(d)) == d[..4] + "/" + d + PdfSuffix
  {
    var y := YearOf(d);
    assert y == d[..4];
    OsPath.JoinPlain(y, ExpectedFileName(d));
  }

  /**
   A pay date is already on disk when `<date>.pdf` exists in the working
   directory, or `os.path.join(<year>, <date>.pdf)` exists.
   */
  predicate AlreadyHave(date: Str, existing: set<Str>) {
    var artifact := ExpectedFileName(date);
    artifact in existing || OsPath.Join(YearOf(date), artifact) in existing
  }

  // ---------------------------------------------------------------------------
  // The listing

  /** One listed pay statement: its `payDate` and its `statementImageUri.href`. */
  datatype Statement = Statement(payDate: Str, href: Str)

  /**
   The dict comprehension `{s.payDate: s.href for s in statements}`: statements
   are entered in order, so a later statement for a date overwrites an earlier one.
   */
  function ListingMap(statements: seq<Statement>): map<Str, Str>
    decreases |statements|
  {
    if statements == [] then map[]
    else
      var last := statements[|statements| - 1];
      ListingMap(statements[..|statements| - 1])[last.payDate := last.href]
  }

  /** The map's keys are exactly the listed pay dates. */
  lemma {:induction false} ListingMapKeys(statements: seq<Statement>)
    ensures ListingMap(statements).Keys == set s | s in statements :: s.payDate
    decreases |statements|
  {
    if statements != [] {
      var init := statements[..|statements| - 1];
      ListingMapKeys(init);
      assert statements == init + [statements[|statements| - 1]];
    }
  }

  /** Each date maps to the link of the LAST statement listed with that date. */
  lemma {:induction false} ListingMapLastWins(statements: seq<Statement>, i: nat)
    requires i < |statements|
    requires forall j | i < j < |statements| :: statements[j].payDate != statements[i].payDate
    ensures statements[i].payDate in ListingMap(statements)
    ensures ListingMap(statements)[statements[i].payDate] == statements[i].href
    decreases |statements|
  {
    if i < |statements| - 1 {
      ListingMapLastWins(statements[..|statements| - 1], i);
    }
  }

  // ---------------------------------------------------------------------------
  // The needed list

  /**
   What `get_needed_paystubs` returns: exactly the `[date, url]` entries of the
   map whose date is not already on disk, in ascending order of date.
   */
  ghost predicate IsNeededList(need: seq<Pair>, byDate: map<Str, Str>, existing: set<Str>) {
    && (forall p :: p in need <==>
          p.first in byDate && byDate[p.first] == p.second && !AlreadyHave(p.first, existing))
    && StrictlyAscending(need)
  }

  /**
   Sorting the entries the walk collected gives the needed list, of the same
   length: `sorted` keeps the entries, and one date has only one entry.
   */
  lemma SortedFoundIsNeeded(found: seq<Pair>, byDate: map<Str, Str>, existing: set<Str>)
    requires forall p :: p in found <==>
               p.first in byDate && byDate[p.first] == p.second && !AlreadyHave(p.first, existing)
    requires Distinct(found)
    ensures IsNeededList(Sort(found), byDate, existing)
    ensures |Sort(found)| == |found|
  {
    var need := Sort(found);
    assert forall p :: p in need <==> p in found by {
      assert forall p :: p in need <==> p in multiset(need);
      assert forall p :: p in found <==> p in multiset(found);
    }
    assert |need| == |found| by {
      assert |multiset(need)| == |multiset(found)|;
    }
    forall i, j | 0 <= i < j < |need|
      ensures Lt(need[i].first, need[j].first)
    {
      assert need[i] in need && need[j] in need;
    }
  }

  /**
   The needed list does not depend on the order in which the map is walked:
   there is only one list with that description.
   */
  lemma NeededListUnique(a: seq<Pair>, b: seq<Pair>, byDate: map<Str, Str>, existing: set<Str>)
    requires IsNeededList(a, byDate, existing) && IsNeededList(b, byDate, existing)
    ensures a == b
  {
    AscendingUnique(a, b);
  }

  /**
   A date for which either place already holds a file is never in the needed
   list, whatever link the listing gives for it.
   */
  lemma PresentDateNotNeeded(need: seq<Pair>, byDate: map<Str, Str>, existing: set<Str>, date: Str)
    requires IsNeededList(need, byDate, existing)
    requires ExpectedFileName(date) in existing || OsPath.Join(YearOf(date), ExpectedFileName(date)) in existing
    ensures forall k | 0 <= k < |need| :: need[k].first != date
  {
    forall k | 0 <= k < |need|
      ensures need[k].first != date
    {
      assert need[k] in need;
    }
  }

  /**
   The two-entry listing with `2023-01-15.pdf` already in the working
   directory: only the other date is needed, and the first date's relative
   link would have become `https://my.adp.com/doc1`.
   */
  lemma TwoEntryExample(need: seq<Pair>)
    requires IsNeededList(need,
                          map["2023-01-15" := "/l2/doc1", "2023-02-15" := "https://my.adp.com/doc2"],
                          {"2023-01-15.pdf"})
    ensures need == [Pair("2023-02-15", "https://my.adp.com/doc2")]
    ensures TransformDownloadUrl("/l2/doc1") == "https://my.adp.com/doc1"
  {
    var byDate := map["2023-01-15" := "/l2/doc1", "2023-02-15" := "https://my.adp.com/doc2"];
    var existing: set<Str> := {"2023-01-15.pdf"};
    var expected := [Pair("2023-02-15", "https://my.adp.com/doc2")];
    TwoEntryNeeded();
    NeededListUnique(need, expected, byDate, existing);
    AbsentWithoutChar("/doc1", RelativePrefix, 1);
    SingleRelativePrefix("/doc1");
    assert RelativePrefix + "/doc1" == "/l2/doc1";
    assert PortalHost + "/doc1" == "https://my.adp.com/doc1";
  }

  /** In that example, the list holding only the second entry is the needed list. */
  lemma TwoEntryNeeded()
    ensures IsNeededList([Pair("2023-02-15", "https://my.adp.com/doc2")],
                         map["2023-01-15" := "/l2/doc1", "2023-02-15" := "https://my.adp.com/doc2"],
                         {"2023-01-15.pdf"})
  {
    var byDate := map["2023-01-15" := "/l2/doc1", "2023-02-15" := "https://my.adp.com/doc2"];
    var existing: set<Str> := {"2023-01-15.pdf"};
    var expected := [Pair("2023-02-15", "https://my.adp.com/doc2")];
    TwoEntryPresence();
    forall p
      ensures p in expected <==>
        p.first in byDate && byDate[p.first] == p.second && !AlreadyHave(p.first, existing)
    {
      if p.first == "2023-01-15" {
        assert p != expected[0];
      } else if p.first == "2023-02-15" {
      }
    }
  }

  /** In that example, the first date is on disk and the second is not. */
  lemma TwoEntryPresence()
    ensures AlreadyHave("2023-01-15", {"2023-01-15.pdf"})
    ensures !AlreadyHave("2023-02-15", {"2023-01-15.pdf"})
  {
    var have: Str := "2023-01-15.pdf";
    assert ExpectedFileName("2023-01-15") == have;
    var artifact := ExpectedFileName("2023-02-15");
    assert |artifact| == |have| && artifact[6] != have[6];
    NotHadUnderOtherName("2023-02-15", have);
  }

  /**
   A date is not on disk when the only existing path has the length of its file
   name but a different name: the year path ends with that name, so it could
   only be that name.
   */
  lemma NotHadUnderOtherName(date: Str, path: Str)
    requires |ExpectedFileName(date)| == |path| && ExpectedFileName(date) != path
    ensures !AlreadyHave(date, {path})
  {
    JoinedNotOther(YearOf(date), ExpectedFileName(date), path);
  }

  /** A path joined onto `name` differs from every other string of the length of `name`. */
  lemma JoinedNotOther(dir: Str, name: Str, path: Str)
    requires |name| == |path| && name != path
    ensures OsPath.Join(dir, name) != path
  {
    var joined := OsPath.Join(dir, name);
    if |joined| == |path| {
      assert joined[|joined| - |name|..] == joined;
    }
  }

  // ---------------------------------------------------------------------------
  // Downloading

  /** What the portal answers to a GET: the HTTP status and the body. */
  datatype Response = Response(status: int, body: seq<byte>)

  /**
   The files after one `download_paystub` for `date` got `response`: on 200,
   `<date>.pdf` holds the body (created or overwritten); on any other status
   nothing is written. No other file is touched.
   */
  function Stored(files: map<Str, seq<byte>>, date: Str, response: Response): (r: map<Str, seq<byte>>)
    ensures response.status != StatusOk ==> r == files
    ensures response.status == StatusOk ==>
      r.Keys == files.Keys + {ExpectedFileName(date)} && r[ExpectedFileName(date)] == response.body
    ensures forall path | path in files && path != ExpectedFileName(date) :: path in r && r[path] == files[path]
  {
    if response.status != StatusOk then files
    else files[ExpectedFileName(date) := response.body]
  }

  /** A date whose download got 200 is no longer needed on a later run. */
  lemma StoredIsHad(files: map<Str, seq<byte>>, date: Str, response: Response)
    requires response.status == StatusOk
    ensures AlreadyHave(date, Stored(files, date, response).Keys)
  {
  }

  /** The download URLs requested for the entries of `need`, in order. */
  function Urls(need: seq<Pair>): (r: seq<Str>)
    ensures |r| == |need|
    ensures forall k | 0 <= k < |need| :: r[k] == TransformDownloadUrl(need[k].second)
    decreases |need|
  {
    if need == [] then []
    else Urls(need[..|need| - 1]) + [TransformDownloadUrl(need[|need| - 1].second)]
  }

  /** The files after downloading every entry of `need` in order. */
  function StoreAll(files: map<Str, seq<byte>>, need: seq<Pair>, session: Str -> Response): map<Str, seq<byte>>
    decreases |need|
  {
    if need == [] then files
    else
      var last := need[|need| - 1];
      Stored(StoreAll(files, need[..|need| - 1], session), last.first, session(TransformDownloadUrl(last.second)))
  }

  /** The file names that downloading the entries of `need` may write. */
  function FileNames(need: seq<Pair>): set<Str> {
    set p | p in need :: ExpectedFileName(p.first)
  }

  /** The file names of the entries of `need` whose GET is answered with 200. */
  function SavedNames(need: seq<Pair>, session: Str -> Response): set<Str> {
    set k | 0 <= k < |need| && session(TransformDownloadUrl(need[k].second)).status == StatusOk
      :: ExpectedFileName(need[k].first)
  }

  /**
   After downloading a list with distinct dates: every entry that got 200 has
   its body in `<date>.pdf` (no later entry overwrites it) and so is no longer
   needed; files that already existed are kept, and a file no entry names is
   left as it was.
   */
  lemma {:induction false} StoreAllEffect(files: map<Str, seq<byte>>, need: seq<Pair>, session: Str -> Response)
    requires StrictlyAscending(need)
    ensures files.Keys <= StoreAll(files, need, session).Keys
    ensures forall path | path in files && path !in FileNames(need) ::
              StoreAll(files, need, session)[path] == files[path]
    ensures forall k | 0 <= k < |need| && session(TransformDownloadUrl(need[k].second)).status == StatusOk ::
              && ExpectedFileName(need[k].first) in StoreAll(files, need, session)
              && StoreAll(files, need, session)[ExpectedFileName(need[k].first)]
                 == session(TransformDownloadUrl(need[k].second)).body
              && AlreadyHave(need[k].first, StoreAll(files, need, session).Keys)
    decreases |need|
  {
    if need != [] {
      var init := need[..|need| - 1];
      var last := need[|need| - 1];
      StoreAllEffect(files, init, session);
      var after := StoreAll(files, need, session);
      assert FileNames(init) <= FileNames(need) by {
        forall p | p in init ensures p in need { }
      }
      assert ExpectedFileName(last.first) in FileNames(need) by {
        assert last in need;
      }
      forall k | 0 <= k < |need| && session(TransformDownloadUrl(need[k].second)).status == StatusOk
        ensures ExpectedFileName(need[k].first) in after
        ensures after[ExpectedFileName(need[k].first)] == session(TransformDownloadUrl(need[k].second)).body
      {
        if k < |need| - 1 {
          assert init[k] == need[k];
          assert Lt(need[k].first, last.first);
          ExpectedFileNameInjective(need[k].first, last.first);
        }
      }
    }
  }

  /**
   Downloading a list with distinct dates creates no file other than those of
   the entries that got 200: an entry answered otherwise leaves no `<date>.pdf`.
   */
  lemma {:induction false} StoreAllOnlySaved(files: map<Str, seq<byte>>, need: seq<Pair>, session: Str -> Response)
    requires StrictlyAscending(need)
    ensures StoreAll(files, need, session).Keys <= files.Keys + SavedNames(need, session)
    ensures forall k | 0 <= k < |need| && session(TransformDownloadUrl(need[k].second)).status != StatusOk
                       && ExpectedFileName(need[k].first) !in files ::
              ExpectedFileName(need[k].first) !in StoreAll(files, need, session)
    decreases |need|
  {
    if need != [] {
      var init := need[..|need| - 1];
      var last := need[|need| - 1];
      StoreAllOnlySaved(files, init, session);
      var after := StoreAll(files, need, session);
      assert SavedNames(init, session) <= SavedNames(need, session) by {
        forall name | name in SavedNames(init, session)
          ensures name in SavedNames(need, session)
        {
          var j :| 0 <= j < |init| && session(TransformDownloadUrl(init[j].second)).status == StatusOk
                   && name == ExpectedFileName(init[j].first);
          assert init[j] == need[j];
        }
      }
      assert ExpectedFileName(last.first) !in SavedNames(init, session) by {
        forall j | 0 <= j < |init|
          ensures ExpectedFileName(init[j].first) != ExpectedFileName(last.first)
        {
          assert init[j] == need[j] && Lt(need[j].first, last.first);
          ExpectedFileNameInjective(init[j].first, last.first);
        }
      }
      if session(TransformDownloadUrl(last.second)).status == StatusOk {
        assert ExpectedFileName(last.first) in SavedNames(need, session) by {
          assert need[|need| - 1] == last;
        }
      }
      forall k | 0 <= k < |need| - 1 && session(TransformDownloadUrl(need[k].second)).status != StatusOk
                 && ExpectedFileName(need[k].first) !in files
        ensures ExpectedFileName(need[k].first) !in after
      {
        assert init[k] == need[k];
        assert Lt(need[k].first, last.first);
        ExpectedFileNameInjective(need[k].first, last.first);
      }
    }
  }

  /** One more download extends the requested URLs and the stored files by that entry. */
  lemma DownloadStep(files: map<Str, seq<byte>>, need: seq<Pair>, i: nat, session: Str -> Response)
    requires i < |need|
    ensures Urls(need[..i + 1]) == Urls(need[..i]) + [TransformDownloadUrl(need[i].second)]
    ensures StoreAll(files, need[..i + 1], session)
            == Stored(StoreAll(files, need[..i], session), need[i].first, session(TransformDownloadUrl(need[i].second)))
  {
    assert need[..i + 1][..i] == need[..i];
  }

  // ---------------------------------------------------------------------------
  // The machine's disk and the fetcher

  /** The local disk: every existing path and the bytes stored under it. */
  class Disk {
    var files: map<Str, seq<byte>>

    constructor (files: map<Str, seq<byte>>)
      ensures this.files == files
    {
      this.files := files;
    }
  }

  /**
   `PayCheckFetcher`. The HTTP session is reduced to what it answers to a GET
   of each URL; `requested` records the document URLs fetched through it.
   */
  class PayCheckFetcher {
    const username: Str
    const password: Str
    const session: Str -> Response
    var paystubUrlByDate: map<Str, Str>
    var requested: seq<Str>

    constructor (username: Str, password: Str, session: Str -> Response)
      ensures this.username == username && this.password == password && this.session == session
      ensures paystubUrlByDate == map[] && requested == []
    {
      this.username := username;
      this.password := password;
      this.session := session;
      paystubUrlByDate := map[];
      requested := [];
    }

    /**
     `get_paystub_urls`, from the already-parsed listing: the map is rebuilt
     from the statements alone, nothing of the previous map survives.
     */
    method GetPaystubUrls(statements: seq<Statement>)
      modifies this`paystubUrlByDate
      ensures paystubUrlByDate == ListingMap(statements)
    {
      var byDate := map[];
      for i := 0 to |statements|
        invariant byDate == ListingMap(statements[..i])
      {
        assert statements[..i + 1][..i] == statements[..i];
        byDate := byDate[statements[i].payDate := statements[i].href];
      }
      assert statements[..|statements|] == statements;
      paystubUrlByDate := byDate;
    }

    /**
     `get_needed_paystubs`: walks the map, skips a date when `<date>.pdf` or
     `<year>/<date>.pdf` exists, and returns the rest sorted.
     */
    method GetNeededPaystubs(disk: Disk) returns (need: seq<Pair>)
      ensures forall p :: p in need <==>
        p.first in paystubUrlByDate && paystubUrlByDate[p.first] == p.second
        && !AlreadyHave(p.first, disk.files.Keys)
      ensures IsSorted(need)
      ensures StrictlyAscending(need)
      ensures IsNeededList(need, paystubUrlByDate, disk.files.Keys)
      ensures |need| <= |paystubUrlByDate|
    {
      var byDate := paystubUrlByDate;
      var existing := disk.files.Keys;
      var pending := byDate.Keys;
      var found: seq<Pair> := [];
      while pending != {}
        invariant pending <= byDate.Keys
        invariant forall p :: p in found <==>
          p.first in byDate && p.first !in pending && byDate[p.first] == p.second
          && !AlreadyHave(p.first, existing)
        invariant Distinct(found)
        invariant |found| + |pending| <= |byDate|
        decreases |pending|
      {
        var date :| date in pending;
        var url := byDate[date];
        pending := pending - {date};
        var artifact := ExpectedFileName(date);
        if artifact in existing {
          continue;
        }
        var year := YearOf(date);
        if OsPath.Join(year, artifact) in existing {
          continue;
        }
        found := found + [Pair(date, url)];
      }
      need := Sort(found);
      SortedFoundIsNeeded(found, byDate, existing);
    }

    /**
     `download_paystub`: fetches the rewritten URL; on 200 the body becomes
     `<date>.pdf`, on any other status the disk is left alone.
     */
    method DownloadPaystub(date: Str, url: Str, disk: Disk)
      modifies this`requested, disk`files
      ensures requested == old(requested) + [TransformDownloadUrl(url)]
      ensures disk.files == Stored(old(disk.files), date, session(TransformDownloadUrl(url)))
    {
      var target := TransformDownloadUrl(url);
      var response := session(target);
      requested := requested + [target];
      if response.status != StatusOk {
        return;
      }
      var outName := ExpectedFileName(date);
      disk.files := disk.files[outName := response.body];
    }

    /**
     `download_needed`, after the login steps: builds the map from the listing,
     computes the needed list once, then downloads its entries one by one in
     that order. `needed` names that list for the contract.
     */
    method DownloadNeeded(statements: seq<Statement>, disk: Disk) returns (ghost needed: seq<Pair>)
      modifies this`paystubUrlByDate, this`requested, disk`files
      ensures paystubUrlByDate == ListingMap(statements)
      ensures IsNeededList(needed, ListingMap(statements), old(disk.files).Keys)
      ensures requested == old(requested) + Urls(needed)
      ensures disk.files == StoreAll(old(disk.files), needed, session)
    {
      GetPaystubUrls(statements);
      var need := GetNeededPaystubs(disk);
      needed := need;
      DownloadAll(need, disk);
    }

    /** The loop of `download_needed`: one `download_paystub` per entry, in list order. */
    method DownloadAll(need: seq<Pair>, disk: Disk)
      modifies this`requested, disk`files
      ensures requested == old(requested) + Urls(need)
      ensures disk.files == StoreAll(old(disk.files), need, session)
    {
      for i := 0 to |need|
        invariant requested == old(requested) + Urls(need[..i])
        invariant disk.files == StoreAll(old(disk.files), need[..i], session)
      {
        DownloadStep(old(disk.files), need, i, session);
        DownloadPaystub(need[i].first, need[i].second, disk);
      }
      assert need[..|need|] == need;
    }
  }
}

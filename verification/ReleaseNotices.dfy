/** The announcement of new app versions, `_release_notice` and `is_news` of
    `src/geekvpn/entrypoints/worker.py`.

    The stamp of each platform lives in the shared cache and is written before
    the announcement goes out.  `observed` records every version the job came
    to look at, in order; the announcements are proved to be the running
    records of what was observed. */
module ReleaseNotices {
  import opened Options
  import PyText
  import Versions

  datatype Download = Download(platform: string, version: Option<string>)

  /** A version seen or announced on a platform. */
  datatype Sighting = Sighting(platform: string, version: string)

  const KEY_PREFIX := "releases:announced:"

  function SeenKey(platform: string): (key: string)
    ensures "releases:announced:" <= key
    ensures |key| == |KEY_PREFIX| + |platform| && key[|KEY_PREFIX|..] == platform
  {
    KEY_PREFIX + platform
  }

  lemma SeenKeyInjective(p: string, q: string)
    requires SeenKey(p) == SeenKey(q)
    ensures p == q
  {
  }

  function Lookup(cache: map<string, string>, key: string): Option<string> {
    if key in cache then Some(cache[key]) else None
  }

  /** Python's `not seen`: a stamp that is missing or empty. */
  predicate Unseen(seen: Option<string>) {
    seen.None? || seen.value == ""
  }

  predicate IsNews(version: Option<string>, seen: Option<string>) {
    var current := Versions.VersionTuple(if version.Some? then version.value else "");
    if current.None? || Unseen(seen) then false
    else
      var previous := Versions.VersionTuple(seen.value);
      previous.Some? && Versions.Less(previous.value, current.value)
  }

  // ---------- one platform over a run ----------

  /** The stamp after a platform's versions have been looked at in order. */
  function StampAfter(versions: seq<string>): Option<string> {
    if versions == [] then None
    else
      var last := versions[|versions| - 1];
      var seen := StampAfter(versions[..|versions| - 1]);
      if Unseen(seen) || IsNews(Some(last), seen) then Some(last) else seen
  }

  /** The versions announced along the way. */
  function Announcements(versions: seq<string>): seq<string> {
    if versions == [] then []
    else
      var last := versions[|versions| - 1];
      var before := versions[..|versions| - 1];
      Announcements(before) + if AnnouncedLast(versions) then [last] else []
  }

  predicate AnnouncedLast(versions: seq<string>)
    requires versions != []
  {
    IsNews(Some(versions[|versions| - 1]), StampAfter(versions[..|versions| - 1]))
  }

  /** The first version that is not an empty text; `|versions|` if all are. */
  function First(versions: seq<string>): (f: nat)
    ensures f <= |versions|
    ensures forall i :: 0 <= i < f ==> versions[i] == ""
    ensures f < |versions| ==> versions[f] != ""
  {
    if versions == [] || versions[0] != "" then 0 else 1 + First(versions[1..])
  }

  /** Newer than everything before it. */
  ghost predicate IsRecord(versions: seq<string>, i: nat)
    requires i < |versions|
  {
    && Versions.IsVersion(versions[i])
    && forall j :: 0 <= j < i && Versions.IsVersion(versions[j]) ==> Versions.Older(versions[j], versions[i])
  }

  /** The stamp is the first version seen, or a record after it; everything
      that is a version is no newer. */
  ghost predicate StampIs(versions: seq<string>, seen: Option<string>) {
    var f := First(versions);
    if f == |versions| then Unseen(seen)
    else
      && seen.Some? && seen.value != ""
      && (!Versions.IsVersion(versions[f]) ==> seen.value == versions[f])
      && (Versions.IsVersion(versions[f]) ==>
            && Versions.IsVersion(seen.value)
            && seen.value in versions
            && forall j :: 0 <= j < |versions| && Versions.IsVersion(versions[j]) ==>
                 !Versions.Older(seen.value, versions[j]))
  }

  lemma EmptyIsNoVersion()
    ensures !Versions.IsVersion("")
  {
  }

  lemma {:induction false} FirstOfLonger(versions: seq<string>, last: string)
    ensures First(versions + [last]) ==
            if First(versions) < |versions| then First(versions)
            else if last == "" then |versions| + 1 else |versions|
  {
    if versions == [] {
      assert versions + [last] == [last];
      assert First([last][1..]) == 0;
    } else if versions[0] == "" {
      assert (versions + [last])[1..] == versions[1..] + [last];
      FirstOfLonger(versions[1..], last);
    }
  }

  lemma {:induction false} StampSumsUp(versions: seq<string>)
    ensures StampIs(versions, StampAfter(versions))
  {
    if versions != [] {
      var before := versions[..|versions| - 1];
      var last := versions[|versions| - 1];
      assert versions == before + [last];
      StampSumsUp(before);
      FirstOfLonger(before, last);
      StampStep(before, last, StampAfter(before));
    }
  }

  lemma StampStep(before: seq<string>, last: string, seen: Option<string>)
    requires StampIs(before, seen) && First(before + [last]) ==
             if First(before) < |before| then First(before) else if last == "" then |before| + 1 else |before|
    ensures StampIs(before + [last], if Unseen(seen) || IsNews(Some(last), seen) then Some(last) else seen)
  {
    EmptyIsNoVersion();
    hide Versions.VersionTuple;
    var versions := before + [last];
    assert forall j :: 0 <= j < |before| ==> versions[j] == before[j];
    assert versions[|before|] == last;
    if !Unseen(seen) && Versions.IsVersion(before[First(before)]) {
      var j :| 0 <= j < |before| && before[j] == seen.value;
      assert versions[j] == seen.value;
      if IsNews(Some(last), seen) {
        forall i | 0 <= i < |versions| && Versions.IsVersion(versions[i]) ensures !Versions.Older(last, versions[i]) {
          if i < |before| {
            assert !Versions.Older(seen.value, before[i]);
          }
        }
      }
    }
  }

  /** What is announced, over every sequence of versions a platform can show:
      after the first one seen, which must be a version itself, exactly those
      newer than all before them. */
  lemma AnnouncedIffRecord(versions: seq<string>, i: nat)
    requires i < |versions|
    ensures AnnouncedLast(versions[..i + 1]) <==>
            First(versions) < i && Versions.IsVersion(versions[First(versions)]) && IsRecord(versions, i)
  {
    EmptyIsNoVersion();
    hide Versions.VersionTuple;
    var before := versions[..i];
    assert versions[..i + 1][..i] == before && versions[..i + 1][i] == versions[i];
    StampSumsUp(before);
    FirstOfPrefix(versions, i);
    var f := First(before);
    var seen := StampAfter(before);
    if f < i && Versions.IsVersion(versions[f]) {
      var j :| 0 <= j < i && before[j] == seen.value;
      assert versions[j] == seen.value;
      if Versions.Older(seen.value, versions[i]) {
        forall k | 0 <= k < i && Versions.IsVersion(versions[k]) ensures Versions.Older(versions[k], versions[i]) {
          assert before[k] == versions[k] && !Versions.Older(seen.value, before[k]);
        }
      }
    }
  }

  lemma {:induction false} FirstOfPrefix(versions: seq<string>, i: nat)
    requires i <= |versions|
    ensures First(versions[..i]) == if First(versions) < i then First(versions) else i
  {
    if i > 0 && versions[0] == "" {
      assert versions[..i][1..] == versions[1..][..i - 1];
      FirstOfPrefix(versions[1..], i - 1);
    }
  }

  lemma OneMore(versions: seq<string>, last: string)
    ensures var seen := StampAfter(versions);
            && StampAfter(versions + [last]) == (if Unseen(seen) || IsNews(Some(last), seen) then Some(last) else seen)
            && Announcements(versions + [last]) ==
               (if IsNews(Some(last), seen) then Announcements(versions) + [last] else Announcements(versions))
  {
  }

  ghost predicate GoesUp(out: seq<string>, versions: seq<string>) {
    && (forall a :: 0 <= a < |out| ==> out[a] in versions && Versions.IsVersion(out[a]))
    && (forall a, b :: 0 <= a < b < |out| ==> Versions.Older(out[a], out[b]))
  }

  lemma StillGoesUp(out: seq<string>, before: seq<string>, versions: seq<string>)
    requires |versions| == |before| + 1 && versions[..|before|] == before && GoesUp(out, before)
    ensures GoesUp(out, versions)
    ensures IsRecord(versions, |before|) ==> GoesUp(out + [versions[|before|]], versions)
  {
    hide Versions.VersionTuple;
    assert forall v <- before :: v in versions;
    if IsRecord(versions, |before|) {
      forall a | 0 <= a < |out| ensures Versions.Older(out[a], versions[|before|]) {
        var j :| 0 <= j < |before| && before[j] == out[a];
        assert versions[j] == out[a];
      }
    }
  }

  /** So announcements only ever go up: none is repeated, none goes back. */
  lemma {:induction false} AnnouncementsGoUp(versions: seq<string>)
    ensures GoesUp(Announcements(versions), versions)
  {
    if versions != [] {
      hide Versions.VersionTuple;
      var n := |versions| - 1;
      AnnouncementsGoUp(versions[..n]);
      StillGoesUp(Announcements(versions[..n]), versions[..n], versions);
      assert versions[..n + 1] == versions;
      AnnouncedIffRecord(versions, n);
    }
  }

  /** A first sight that is not a version silences the platform for good. */
  lemma {:induction false} UnreadableFirstSilences(versions: seq<string>)
    requires First(versions) < |versions| && !Versions.IsVersion(versions[First(versions)])
    ensures Announcements(versions) == []
  {
    hide Versions.VersionTuple;
    var n := |versions| - 1;
    FirstOfPrefix(versions, n);
    AnnouncedIffRecord(versions, n);
    assert versions[..n + 1] == versions;
    if First(versions) < n {
      UnreadableFirstSilences(versions[..n]);
    } else {
      NothingBeforeTheFirst(versions[..n]);
    }
  }

  /** A first tag that is called latest is enough. */
  lemma LatestSilences(later: seq<string>)
    ensures Announcements(["latest"] + later) == []
  {
    var versions := ["latest"] + later;
    assert !Versions.IsVersion("latest") by {
      assert PyText.Strip("latest")[0] == 'l';
    }
    assert versions[0] == "latest" != "";
    hide Versions.IsVersion;
    UnreadableFirstSilences(versions);
  }

  lemma {:induction false} NothingBeforeTheFirst(versions: seq<string>)
    requires First(versions) == |versions|
    ensures Announcements(versions) == []
  {
    if versions != [] {
      var n := |versions| - 1;
      FirstOfPrefix(versions, n);
      AnnouncedIffRecord(versions, n);
      assert versions[..n + 1] == versions;
      NothingBeforeTheFirst(versions[..n]);
    }
  }

  lemma SecondOfTwo(first: string, second: string)
    requires first != ""
    ensures Announcements([first, second]) == if Versions.Older(first, second) then [second] else []
  {
    FirstIsStamped(first);
    NewsIffOlder(first, second);
    OneMore([first], second);
    hide IsNews, StampAfter, Announcements, Versions.Older;
    assert [first] + [second] == [first, second] && [] + [second] == [second];
  }

  /** In numbers, of two versions a platform shows one after the other: the first is
      not announced, the second exactly if it is newer. */
  lemma SecondInNumbers(a: Versions.Version, b: Versions.Version, afterA: string, afterB: string)
    requires Versions.IsEnd(afterA) && Versions.IsEnd(afterB)
    ensures var first, second := Versions.VersionText(a) + afterA, Versions.VersionText(b) + afterB;
            Announcements([first, second]) ==
            if b.major > a.major || (b.major == a.major &&
                (b.minor > a.minor || (b.minor == a.minor && b.patch > a.patch)))
            then [second] else []
  {
    var first, second := Versions.VersionText(a) + afterA, Versions.VersionText(b) + afterB;
    Versions.OlderInNumbers(a, b, afterA, afterB);
    assert first != "";
    hide Announcements, Versions.Older, Versions.VersionText;
    SecondOfTwo(first, second);
  }

  lemma FirstIsStamped(first: string)
    requires first != ""
    ensures StampAfter([first]) == Some(first) && Announcements([first]) == []
  {
    assert [first][..0] == [];
  }

  lemma NewsIffOlder(seen: string, version: string)
    requires seen != ""
    ensures IsNews(Some(version), Some(seen)) <==> Versions.Older(seen, version)
  {
    hide Versions.VersionTuple;
  }

  // ---------- the job ----------

  /** A platform's part of a log. */
  function Of(log: seq<Sighting>, platform: string): seq<string> {
    if log == [] then []
    else
      var last := log[|log| - 1];
      Of(log[..|log| - 1], platform) + if last.platform == platform then [last.version] else []
  }

  lemma OfLonger(log: seq<Sighting>, s: Sighting, platform: string)
    ensures Of(log + [s], platform) == if s.platform == platform then Of(log, platform) + [s.version]
              else Of(log, platform)
  {
  }

  /** Looking at the download, after what has been observed, announces it: it is a
      record of its platform in the sense of `AnnouncedIffRecord`. */
  predicate Announces(observed: seq<Sighting>, download: Download) {
    download.version.Some? && AnnouncedLast(Of(observed, download.platform) + [download.version.value])
  }

  lemma AnnouncesIff(observed: seq<Sighting>, download: Download)
    ensures Announces(observed, download) <==> IsNews(download.version, StampAfter(Of(observed, download.platform)))
  {
    if download.version.Some? {
      var before := Of(observed, download.platform);
      assert (before + [download.version.value])[..|before|] == before;
    } else {
      EmptyIsNoVersion();
    }
  }

  lemma StampOfPlatform(cache: map<string, string>, observed: seq<Sighting>, announced: seq<Sighting>, platform: string)
    requires Accounts(cache, observed, announced, platform)
    ensures Lookup(cache, SeenKey(platform)) == StampAfter(Of(observed, platform))
  {
  }

  lemma NothingIsNoNews(seen: Option<string>)
    ensures !IsNews(None, seen)
  {
    EmptyIsNoVersion();
  }

  lemma UnseenIsNoNews(version: Option<string>, seen: Option<string>)
    ensures Unseen(seen) ==> !IsNews(version, seen)
  {
  }

  /** What one platform's stamp and announcements come from: the versions
      observed on it, whatever happened on the others. */
  ghost predicate Accounts(cache: map<string, string>, observed: seq<Sighting>, announced: seq<Sighting>,
          platform: string)
  {
    && Lookup(cache, SeenKey(platform)) == StampAfter(Of(observed, platform))
    && Of(announced, platform) == Announcements(Of(observed, platform))
  }

  lemma StillAccounts(cache: map<string, string>, observed: seq<Sighting>, announced: seq<Sighting>, s: Sighting,
          platform: string)
    requires Accounts(cache, observed, announced, platform)
    ensures var seen := Lookup(cache, SeenKey(s.platform));
            var news := IsNews(Some(s.version), seen);
            Accounts(if Unseen(seen) || news then cache[SeenKey(s.platform) := s.version] else cache,
                     observed + [s], if news then announced + [s] else announced, platform)
  {
    hide IsNews;
    OfLonger(observed, s, platform);
    OfLonger(announced, s, platform);
    if platform == s.platform {
      OneMore(Of(observed, platform), s.version);
    } else if SeenKey(platform) == SeenKey(s.platform) {
      SeenKeyInjective(platform, s.platform);
    }
    hide Of, StampAfter, Announcements;
  }

  class Announcer {
    var cache: map<string, string>
    var observed: seq<Sighting>
    var announced: seq<Sighting>

    ghost predicate Valid()
      reads this
    {
      forall platform: string :: Accounts(cache, observed, announced, platform)
    }

    constructor ()
      ensures Valid() && observed == [] && announced == []
    {
      cache := map[];
      observed := [];
      announced := [];
    }

    /** One download of one pass.  The stamp is written before the announcement
        is sent, so a send that raises leaves it as written. */
    method Look(download: Download, sendRaises: bool) returns (raised: bool)
      requires Valid()
      modifies this
      ensures Valid()
      ensures observed == old(observed) + Sightings([download])
      ensures announced == old(announced) + if Announces(old(observed), download) then Sightings([download]) else []
      ensures raised <==> sendRaises && Announces(old(observed), download)
    {
      hide Accounts, Announces, IsNews;
      raised := false;
      AnnouncesIff(observed, download);
      OneSighting(download);
      if download.version.None? {
        NothingIsNoNews(StampAfter(Of(observed, download.platform)));
        return;
      }
      var version := download.version.value;
      var key := SeenKey(download.platform);
      var seen := Lookup(cache, key);
      assert seen == StampAfter(Of(observed, download.platform)) by {
        StampOfPlatform(cache, observed, announced, download.platform);
      }
      observed := observed + [Sighting(download.platform, version)];
      if Unseen(seen) {
        cache := cache[key := version];
      } else if IsNews(download.version, seen) {
        cache := cache[key := version];
        announced := announced + [Sighting(download.platform, version)];
        raised := sendRaises;
      }
      UnseenIsNoNews(download.version, seen);
      forall platform: string ensures Accounts(cache, observed, announced, platform) {
        StillAccounts(old(cache), old(observed), old(announced), Sighting(download.platform, version), platform);
      }
    }

    /** One pass over the downloads, in order, up to the first whose announcement
        raises: those after it are not looked at until the next pass. */
    method ReleaseNotice(downloads: seq<Download>, sendRaises: set<string>) returns (raised: bool)
      requires Valid()
      modifies this
      ensures Valid()
      ensures !raised ==>
                && (forall j :: 0 <= j < |downloads| ==> !Raises(old(observed), downloads, sendRaises, j))
                && HasLookedAt(downloads, |downloads|, old(observed), old(announced), observed, announced)
      ensures raised ==>
                exists k :: 0 <= k < |downloads| && Raises(old(observed), downloads, sendRaises, k)
                            && (forall j :: 0 <= j < k ==> !Raises(old(observed), downloads, sendRaises, j))
                            && HasLookedAt(downloads, k + 1, old(observed), old(announced), observed, announced)
    {
      hide Announces;
      raised := false;
      for i := 0 to |downloads|
        invariant Valid() && !raised
        invariant observed == old(observed) + Sightings(downloads[..i])
        invariant announced == old(announced) + Announced(old(observed), downloads[..i])
        invariant forall j :: 0 <= j < i ==> !Raises(old(observed), downloads, sendRaises, j)
      {
        raised := Look(downloads[i], downloads[i].platform in sendRaises);
        OneLookMore(old(observed), downloads, i);
        if raised {
          assert Raises(old(observed), downloads, sendRaises, i);
          assert HasLookedAt(downloads, i + 1, old(observed), old(announced), observed, announced);
          return;
        }
      }
      assert downloads[..|downloads|] == downloads;
    }
  }

  // ---------- one pass ----------

  /** The look at the `j`th download announces it and the announcement raises. */
  predicate Raises(observed: seq<Sighting>, downloads: seq<Download>, sendRaises: set<string>, j: nat)
    requires j < |downloads|
  {
    Announces(observed + Sightings(downloads[..j]), downloads[j]) && downloads[j].platform in sendRaises
  }

  /** What a pass has done that looked at the first so many downloads. */
  predicate HasLookedAt(downloads: seq<Download>, looked: nat, before: seq<Sighting>, announcedBefore: seq<Sighting>,
          observed: seq<Sighting>, announced: seq<Sighting>)
    requires looked <= |downloads|
  {
    && observed == before + Sightings(downloads[..looked])
    && announced == announcedBefore + Announced(before, downloads[..looked])
  }

  /** What looking at the downloads in order announces. */
  function Announced(observed: seq<Sighting>, downloads: seq<Download>): seq<Sighting> {
    if downloads == [] then []
    else
      var before, last := downloads[..|downloads| - 1], downloads[|downloads| - 1];
      Announced(observed, before) + if Announces(observed + Sightings(before), last) then Sightings([last]) else []
  }

  lemma OneSighting(download: Download)
    ensures Sightings([download]) ==
            if download.version.Some? then [Sighting(download.platform, download.version.value)] else []
  {
    assert [download][..0] == [];
  }

  lemma OneLookMore(observed: seq<Sighting>, downloads: seq<Download>, i: nat)
    requires i < |downloads|
    ensures Sightings(downloads[..i + 1]) == Sightings(downloads[..i]) + Sightings([downloads[i]])
    ensures Announced(observed, downloads[..i + 1]) ==
            Announced(observed, downloads[..i]) +
            if Announces(observed + Sightings(downloads[..i]), downloads[i]) then Sightings([downloads[i]]) else []
  {
    hide Announces;
    OneSighting(downloads[i]);
    assert downloads[..i + 1][..i] == downloads[..i];
  }

  /** The versions a list of downloads shows. */
  function Sightings(downloads: seq<Download>): seq<Sighting> {
    if downloads == [] then []
    else
      var last := downloads[|downloads| - 1];
      Sightings(downloads[..|downloads| - 1])
      + if last.version.Some? then [Sighting(last.platform, last.version.value)] else []
  }
}

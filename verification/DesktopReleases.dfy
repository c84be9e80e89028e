/** The desktop app's updater, `src/geekvpn/infrastructure/desktop_release.py`:
    the manifest it reads and the answers it gives. */
module DesktopReleases {
  import opened Options
  import PyText
  import Texts
  import Versions

  datatype Package = Package(url: string, signature: string)

  datatype Release = Release(version: string, notes: string, pubDate: Option<string>, platforms: map<string, Package>)

  /** An entry of the manifest's `platforms`; `None` for one that is no object.
      Missing fields read as empty texts. */
  type Entry = Option<Package>

  /** The manifest as parsed JSON: texts missing or null read as empty, and
      `platforms` is `None` when it is no object. */
  datatype Manifest = Manifest(version: string, notes: string, pubDate: Option<string>,
      platforms: Option<seq<(string, Entry)>>)

  const HTTPS := "https://"

  /** Signed, and served over HTTPS. */
  predicate Acceptable(entry: Entry) {
    entry.Some? && HTTPS <= entry.value.url && entry.value.signature != ""
  }

  // ---------- the mirror ----------

  predicate InHost(c: char) {
    c != '/' && InPath(c)
  }

  predicate InPath(c: char) {
    c != '?' && c != '#'
  }

  /** `urlsplit(url).netloc` of an `https://` URL. */
  function HostOf(url: string): string
    requires HTTPS <= url
  {
    var rest := url[|HTTPS|..];
    rest[..Texts.RunLength(rest, InHost)]
  }

  /** `urlsplit(url).path` of an `https://` URL. */
  function PathOf(url: string): string
    requires HTTPS <= url
  {
    var rest := url[|HTTPS|..];
    var afterHost := rest[Texts.RunLength(rest, InHost)..];
    afterHost[..Texts.RunLength(afterHost, InPath)]
  }

  /** What `urlsplit` finds wrong with a host besides a lone bracket: what is
      between brackets, or characters that normalise to something else. */
  type HostFaults = string -> bool

  /** `urlsplit` raises ValueError on the host. */
  predicate IsRefused(host: string, faults: HostFaults) {
    ('[' in host) != (']' in host) || faults(host)
  }

  /** Only an address that is to be moved to a mirror is split at all. */
  predicate Raises(entry: Entry, mirror: string, faults: HostFaults) {
    Acceptable(entry) && mirror != "" && IsRefused(HostOf(entry.value.url), faults)
  }

  predicate SomeRaises(entries: seq<(string, Entry)>, mirror: string, faults: HostFaults) {
    exists i :: 0 <= i < |entries| && Raises(entries[i].1, mirror, faults)
  }

  /** The URL handed out: the release's own, or the same file on the mirror. */
  function Served(entry: Package, mirror: string): (p: Package)
    requires HTTPS <= entry.url
    ensures p.signature == entry.signature
  {
    if mirror == "" then entry
    else entry.(url := mirror + "/" + PyText.AfterLast(PathOf(entry.url), '/'))
  }

  /** The last acceptable entry under a key, as a mapping would keep it. */
  function EntryFor(entries: seq<(string, Entry)>, key: string): Option<Package> {
    if entries == [] then None
    else
      var (last, entry) := entries[|entries| - 1];
      if last == key && Acceptable(entry) then Some(entry.value) else EntryFor(entries[..|entries| - 1], key)
  }

  /** `strip().removeprefix("v")` */
  function BareVersion(text: string): string {
    Versions.WithoutV(PyText.Strip(text))
  }

  /** The mirror without its trailing slashes. */
  function BareMirror(base: string): string {
    WithoutSlashes(PyText.Strip(base))
  }

  function WithoutSlashes(s: string): string {
    if s != "" && s[|s| - 1] == '/' then WithoutSlashes(s[..|s| - 1]) else s
  }

  /** Around the mirror's address blanks are taken off, and then every slash at its
      end. */
  lemma BareMirrorIs(front: string, address: string, slashes: string, back: string)
    requires forall i :: 0 <= i < |front| ==> front[i] == ' ' || front[i] == '\t' || front[i] == '\n'
    requires forall i :: 0 <= i < |back| ==> back[i] == ' ' || back[i] == '\t' || back[i] == '\n'
    requires forall i :: 0 <= i < |slashes| ==> slashes[i] == '/'
    requires address != "" && '!' <= address[0] <= '~' && '!' <= address[|address| - 1] <= '~'
    requires address[|address| - 1] != '/'
    ensures BareMirror(front + (address + slashes) + back) == address
  {
    PyText.StripIs(front, address + slashes, back);
    OnlySlashes(address, slashes);
    hide PyText.Strip, WithoutSlashes;
  }

  lemma {:induction false} OnlySlashes(address: string, slashes: string)
    requires address != "" && address[|address| - 1] != '/' && forall i :: 0 <= i < |slashes| ==> slashes[i] == '/'
    ensures WithoutSlashes(address + slashes) == address
    decreases |slashes|
  {
    var s := address + slashes;
    if slashes == "" {
      assert s == address;
    } else {
      assert s[..|s| - 1] == address + slashes[..|slashes| - 1];
      OnlySlashes(address, slashes[..|slashes| - 1]);
    }
  }

  /** The packages of the acceptable entries, a later entry of a key over an
      earlier one. */
  function Platforms(entries: seq<(string, Entry)>, mirror: string): map<string, Package> {
    if entries == [] then map[]
    else
      var (key, entry) := entries[|entries| - 1];
      var before := Platforms(entries[..|entries| - 1], mirror);
      if Acceptable(entry) then before[key := Served(entry.value, mirror)] else before
  }

  /** Only what is signed and on HTTPS is in a release, under its own key and
      with its own signature. */
  lemma {:induction false} PlatformsAre(entries: seq<(string, Entry)>, mirror: string, key: string)
    ensures key in Platforms(entries, mirror) <==>
              exists i :: 0 <= i < |entries| && entries[i].0 == key && Acceptable(entries[i].1)
    ensures key in Platforms(entries, mirror) ==>
              && EntryFor(entries, key).Some?
              && var own := EntryFor(entries, key).value;
                 && "https://" <= own.url && own.signature != ""
                 && Platforms(entries, mirror)[key] == Served(own, mirror)
                 && Platforms(entries, mirror)[key].signature == own.signature
  {
    if entries != [] {
      var n := |entries| - 1;
      PlatformsAre(entries[..n], mirror, key);
      if entries[n].0 == key && Acceptable(entries[n].1) {
        assert key in Platforms(entries, mirror);
      } else if i :| 0 <= i < |entries| && entries[i].0 == key && Acceptable(entries[i].1) {
        assert entries[..n][i] == entries[i];
      }
    }
  }

  /** The loop over the entries; nothing if one of them raises. */
  method CollectPlatforms(entries: seq<(string, Entry)>, mirror: string, faults: HostFaults)
    returns (platforms: Option<map<string, Package>>)
    ensures platforms == if SomeRaises(entries, mirror, faults) then None else Some(Platforms(entries, mirror))
  {
    hide Served, Raises;
    var collected := map[];
    for i := 0 to |entries|
      invariant collected == Platforms(entries[..i], mirror)
      invariant forall j :: 0 <= j < i ==> !Raises(entries[j].1, mirror, faults)
    {
      var (key, entry) := entries[i];
      assert entries[..i + 1][..i] == entries[..i];
      if Raises(entry, mirror, faults) {
        return None;
      }
      if Acceptable(entry) {
        collected := collected[key := Served(entry.value, mirror)];
      }
    }
    assert entries[..|entries|] == entries;
    return Some(collected);
  }

  lemma {:induction false} NoPlatforms(entries: seq<(string, Entry)>, mirror: string)
    ensures Platforms(entries, mirror) == map[] <==> forall i :: 0 <= i < |entries| ==> !Acceptable(entries[i].1)
  {
    hide Served;
    if entries != [] {
      var n := |entries| - 1;
      NoPlatforms(entries[..n], mirror);
      if Acceptable(entries[n].1) {
        assert entries[n].0 in Platforms(entries, mirror);
      } else {
        assert forall i :: 0 <= i < n ==> entries[..n][i] == entries[i];
      }
    }
  }

  /** There is something to install. */
  predicate SomeAcceptable(entries: seq<(string, Entry)>) {
    exists i :: 0 <= i < |entries| && Acceptable(entries[i].1)
  }

  /** `Unreadable` is a ValueError, which the caller treats as a failed fetch. */
  datatype Parsed = Unreadable | Parsed(release: Option<Release>)

  /** A manifest as a release, or nothing when it describes nothing that can be
      installed.  With a mirror one acceptable entry on a host that cannot be
      split makes all of it unreadable. */
  method ParseManifest(payload: Manifest, mirrorBaseUrl: string, faults: HostFaults) returns (parsed: Parsed)
    ensures var mirror := BareMirror(mirrorBaseUrl);
            var readable := Versions.IsVersion(BareVersion(payload.version)) && payload.platforms.Some?;
            && (parsed.Unreadable? <==> readable && SomeRaises(payload.platforms.value, mirror, faults))
            && (parsed.Parsed? ==>
                  && (parsed.release.Some? <==> readable && SomeAcceptable(payload.platforms.value))
                  && (parsed.release.Some? ==>
                        parsed.release.value == Release(BareVersion(payload.version), payload.notes, payload.pubDate,
                                                        Platforms(payload.platforms.value, mirror))))
  {
    hide Versions.VersionTuple, BareMirror, BareVersion, Platforms, Acceptable, SomeRaises;
    var version := BareVersion(payload.version);
    if Versions.VersionTuple(version).None? {
      return Parsed.Parsed(None);
    }
    if payload.platforms.None? {
      return Parsed.Parsed(None);
    }
    var mirror := BareMirror(mirrorBaseUrl);
    var platforms := CollectPlatforms(payload.platforms.value, mirror, faults);
    NoPlatforms(payload.platforms.value, mirror);
    if platforms.None? {
      return Unreadable;
    }
    if platforms.value == map[] {
      return Parsed.Parsed(None);
    }
    return Parsed.Parsed(Some(Release(version, payload.notes, payload.pubDate, platforms.value)));
  }

  /** Which addresses spoil a manifest: signed ones that are to be moved to a mirror
      and have one bracket without the other in their host, or whatever else
      `urlsplit` holds against it. */
  lemma RaisesIff(host: string, rest: string, signature: string, mirror: string, faults: HostFaults)
    requires forall i :: 0 <= i < |host| ==> host[i] != '/' && host[i] != '?' && host[i] != '#'
    requires rest != "" ==> rest[0] == '/' || rest[0] == '?' || rest[0] == '#'
    ensures Raises(Some(Package("https://" + host + rest, signature)), mirror, faults) <==>
            && signature != "" && mirror != ""
            && (('[' in host && ']' !in host) || (']' in host && '[' !in host) || faults(host))
  {
    var url := "https://" + host + rest;
    assert url == HTTPS + (host + rest) && url[|HTTPS|..] == host + rest;
    Texts.RunIs(host, rest, InHost);
    assert HostOf(url) == host;
    hide HostOf;
  }

  /** One such address is enough, whatever else the manifest offers; without a
      mirror it does no harm. */
  lemma LoneBracketRaises(entries: seq<(string, Entry)>, mirror: string, faults: HostFaults)
    requires ("linux-x86_64", Some(Package("https://[x/f", "signed"))) in entries
    ensures mirror != "" ==> SomeRaises(entries, mirror, faults)
    ensures mirror == "" ==> !SomeRaises(entries, mirror, faults)
  {
    var url := "https://[x/f";
    var i :| 0 <= i < |entries| && entries[i] == ("linux-x86_64", Some(Package(url, "signed")));
    assert url == "https://" + "[x" + "/f" && "[x"[0] == '[' && ']' !in "[x";
    RaisesIff("[x", "/f", "signed", mirror, faults);
    assert mirror != "" ==> Raises(entries[i].1, mirror, faults);
  }

  // ---------- the updater's answer ----------

  datatype Offer = Offer(version: string, notes: string, pubDate: Option<string>, url: string, signature: string,
      required: bool)

  predicate IsTokenChar(c: char) {
    'a' <= c <= 'z' || Texts.IsDigit(c) || c == '_'
  }

  /** `^[a-z0-9_]{1,16}$`, whose `$` lets one newline follow. */
  predicate IsToken(s: string) {
    var n := Texts.RunLength(s, IsTokenChar);
    1 <= n <= 16 && (n == |s| || s[n..] == "\n")
  }

  /** The package for one installed app: of its own bundle if there is one. */
  function PackageFor(platforms: map<string, Package>, target: string, arch: string, bundle: string): Option<Package> {
    var plain := target + "-" + arch;
    var own := plain + "-" + bundle;
    if bundle != "" && IsToken(bundle) && own in platforms then Some(platforms[own])
    else if plain in platforms then Some(platforms[plain])
    else None
  }

  datatype App = App(target: string, arch: string, bundle: string, version: string)

  function UpdateFor(release: Option<Release>, app: App, minVersion: string): Option<Offer> {
    if release.None? then None
    else
      var current := Versions.VersionTuple(app.version);
      var latest := Versions.VersionTuple(release.value.version);
      if current.None? || latest.None? || !Versions.Less(current.value, latest.value) then None
      else if !(IsToken(app.target) && IsToken(app.arch)) then None
      else
        match PackageFor(release.value.platforms, app.target, app.arch, app.bundle)
        case None => None
        case Some(package) =>
          var floor := if PyText.Strip(minVersion) != "" then Versions.VersionTuple(minVersion) else None;
          Some(Offer(release.value.version, release.value.notes, release.value.pubDate, package.url, package.signature,
                     floor.Some? && Versions.Less(current.value, floor.value)))
  }

  /** An app is made an offer exactly when the release is newer and has a package
      of the app's bundle or of its platform, the bundle's own first; the offer
      is that package of that release, and required exactly below the floor. */
  lemma OfferedIff(release: Release, app: App, minVersion: string)
    ensures var plain := app.target + "-" + app.arch;
            var own := plain + "-" + app.bundle;
            var ownServed := IsToken(app.bundle) && own in release.platforms;
            var offer := UpdateFor(Some(release), app, minVersion);
            && (offer.Some? <==>
                  && Versions.Older(app.version, release.version)
                  && IsToken(app.target) && IsToken(app.arch)
                  && (ownServed || plain in release.platforms))
            && (offer.Some? ==>
                  && offer.value.version == release.version
                  && offer.value.notes == release.notes
                  && offer.value.pubDate == release.pubDate
                  && Package(offer.value.url, offer.value.signature) ==
                       release.platforms[if ownServed then own else plain]
                  && (offer.value.required <==> Versions.Older(app.version, minVersion)))
  {
    NoFloor(minVersion);
    hide Versions.VersionTuple, PyText.Strip;
  }

  /** An empty floor is no version. */
  lemma NoFloor(minVersion: string)
    ensures PyText.Strip(minVersion) == "" ==> Versions.VersionTuple(minVersion).None?
  {
  }

  /** Between one character and sixteen of small letters, digits and underscores. */
  predicate IsShortWord(s: string) {
    && 1 <= |s| <= 16
    && forall i :: 0 <= i < |s| ==> 'a' <= s[i] <= 'z' || '0' <= s[i] <= '9' || s[i] == '_'
  }

  /** What the pattern takes: such a word, with or without one newline after it. */
  lemma TokenIff(s: string)
    ensures IsToken(s) <==> IsShortWord(s) || (s != "" && s[|s| - 1] == '\n' && IsShortWord(s[..|s| - 1]))
  {
    if IsShortWord(s) {
      assert s == s + "";
      Texts.RunIs(s, "", IsTokenChar);
    } else if s != "" && s[|s| - 1] == '\n' && IsShortWord(s[..|s| - 1]) {
      var word := s[..|s| - 1];
      assert s == word + "\n" && s[|word|..] == "\n";
      Texts.RunIs(word, "\n", IsTokenChar);
    }
  }

  /** The updater's answer in numbers: for an app and a release whose versions are
      the triples `a` and `b`, with anything after them, and a floor that is empty
      or a triple. */
  lemma OfferInNumbers(release: Release, app: App, floor: Option<Versions.Version>, a: Versions.Version,
          b: Versions.Version, afterA: string, afterB: string)
    requires Versions.IsEnd(afterA) && Versions.IsEnd(afterB)
    requires app.version == Versions.VersionText(a) + afterA && release.version == Versions.VersionText(b) + afterB
    ensures var plain := app.target + "-" + app.arch;
            var own := plain + "-" + app.bundle;
            var ownServed := IsToken(app.bundle) && own in release.platforms;
            var minVersion := if floor.None? then "" else Versions.VersionText(floor.value);
            var offer := UpdateFor(Some(release), app, minVersion);
            && (offer.Some? <==>
                  && (b.major > a.major || (b.major == a.major &&
                      (b.minor > a.minor || (b.minor == a.minor && b.patch > a.patch))))
                  && IsToken(app.target) && IsToken(app.arch)
                  && (ownServed || plain in release.platforms))
            && (offer.Some? ==>
                  && Package(offer.value.url, offer.value.signature) ==
                       release.platforms[if ownServed then own else plain]
                  && (offer.value.required <==>
                        floor.Some? && var f := floor.value;
                        f.major > a.major || (f.major == a.major &&
                            (f.minor > a.minor || (f.minor == a.minor && f.patch > a.patch)))))
  {
    hide Versions.VersionText, Versions.Older, IsToken, UpdateFor;
    var minVersion := if floor.None? then "" else Versions.VersionText(floor.value);
    OfferedIff(release, app, minVersion);
    Versions.OlderInNumbers(a, b, afterA, afterB);
    if floor.Some? {
      assert minVersion + "" == minVersion;
      Versions.OlderInNumbers(a, floor.value, afterA, "");
    } else {
      EmptyFloor(app.version);
    }
  }

  lemma EmptyFloor(version: string)
    ensures !Versions.Older(version, "")
  {
    NoFloor("");
  }

  /** On the mirror it is the same file: what follows the path's last slash,
      with no query and no fragment. */
  lemma MirrorServesTheFile(host: string, dir: string, file: string, rest: string, signature: string, mirror: string)
    requires mirror != "" && dir != "" && dir[0] == '/' && dir[|dir| - 1] == '/'
    requires forall i :: 0 <= i < |host| ==> host[i] != '/' && host[i] != '?' && host[i] != '#'
    requires forall i :: 0 <= i < |dir| ==> dir[i] != '?' && dir[i] != '#'
    requires forall i :: 0 <= i < |file| ==> file[i] != '/' && file[i] != '?' && file[i] != '#'
    requires rest != "" ==> rest[0] == '?' || rest[0] == '#'
    ensures Served(Package("https://" + host + dir + file + rest, signature), mirror) ==
              Package(mirror + "/" + file, signature)
  {
    var path := dir + file;
    var url := HTTPS + host + dir + file + rest;
    assert url == HTTPS + (host + (path + rest));
    assert url[|HTTPS|..] == host + (path + rest);
    Texts.RunIs(host, path + rest, InHost);
    Texts.RunIs(path, rest, InPath);
    assert (host + (path + rest))[|host|..] == path + rest && (path + rest)[..|path|] == path;
    PyText.AfterLastIs(dir, file, '/');
  }

  /** Every offer from a parsed manifest carries the signature of an entry that
      was signed, on HTTPS and under a key of the asking app. */
  lemma OfferIsSigned(release: Release, entries: seq<(string, Entry)>, mirror: string, app: App, minVersion: string)
    requires release.platforms == Platforms(entries, mirror)
    ensures var plain := app.target + "-" + app.arch;
            var offer := UpdateFor(Some(release), app, minVersion);
            offer.Some? ==>
              exists i :: 0 <= i < |entries| && Acceptable(entries[i].1)
                          && entries[i].0 in {plain, plain + "-" + app.bundle}
                          && entries[i].1.value.signature == offer.value.signature
  {
    hide Versions.VersionTuple, Served;
    var plain := app.target + "-" + app.arch;
    var own := plain + "-" + app.bundle;
    var key := if app.bundle != "" && IsToken(app.bundle) && own in release.platforms then own else plain;
    PlatformsAre(entries, mirror, key);
    EntryForIsAnEntry(entries, key);
  }

  lemma {:induction false} EntryForIsAnEntry(entries: seq<(string, Entry)>, key: string)
    ensures EntryFor(entries, key).Some? ==>
              exists i :: 0 <= i < |entries| && Acceptable(entries[i].1) && entries[i] == (key, EntryFor(entries, key))
  {
    if entries != [] {
      var n := |entries| - 1;
      EntryForIsAnEntry(entries[..n], key);
      if entries[n].0 == key && Acceptable(entries[n].1) {
        assert entries[n] == (key, EntryFor(entries, key));
      } else if EntryFor(entries, key).Some? {
        var i :| 0 <= i < n && Acceptable(entries[..n][i].1) && entries[..n][i] == (key, EntryFor(entries[..n], key));
        assert entries[i] == (key, EntryFor(entries, key));
      }
    }
  }

  /** Installing an offer settles it: the same release has nothing more for
      that app, whatever the floor. */
  lemma InstallingSettles(release: Option<Release>, app: App, minVersion: string, laterMin: string)
    ensures var offer := UpdateFor(release, app, minVersion);
            offer.Some? ==> UpdateFor(release, app.(version := offer.value.version), laterMin).None?
  {
    hide Versions.VersionTuple;
  }

  // ---------- an app over its life ----------

  /** One question to the updater: the release current at the time, the floor,
      and whether the offer, if there is one, gets installed. */
  datatype Question = Question(release: Option<Release>, minVersion: string, installs: bool)

  function Asked(app: App, q: Question): App {
    var offer := UpdateFor(q.release, app, q.minVersion);
    if offer.Some? && q.installs then app.(version := offer.value.version) else app
  }

  function Installed(app: App, questions: seq<Question>, n: nat): App
    requires n <= |questions|
  {
    if n == 0 then app else Asked(Installed(app, questions, n - 1), questions[n - 1])
  }

  predicate NotOlder(a: string, b: string) {
    a == b || Versions.Older(a, b)
  }

  lemma AskedNeverGoesBack(app: App, q: Question)
    ensures var after := Asked(app, q);
            && NotOlder(app.version, after.version)
            && (after.version == app.version || Versions.Older(app.version, after.version))
            && after == app.(version := after.version)
  {
  }

  lemma OlderIsTransitive(a: string, b: string, c: string)
    requires NotOlder(a, b) && NotOlder(b, c)
    ensures NotOlder(a, c)
  {
  }

  /** Whatever releases come and go, pulled ones included, what an app has
      installed never goes back, and every offer it is made is newer than
      everything it ever had. */
  lemma {:induction false} NeverRollsBack(app: App, questions: seq<Question>, i: nat, n: nat)
    requires i <= n <= |questions|
    ensures NotOlder(Installed(app, questions, i).version, Installed(app, questions, n).version)
    ensures n < |questions| ==>
              var now := Installed(app, questions, n);
              var offer := UpdateFor(questions[n].release, now, questions[n].minVersion);
              offer.Some? ==> Versions.Older(Installed(app, questions, i).version, offer.value.version)
    decreases n
  {
    hide Versions.VersionTuple;
    if i < n {
      NeverRollsBack(app, questions, i, n - 1);
      AskedNeverGoesBack(Installed(app, questions, n - 1), questions[n - 1]);
      OlderIsTransitive(Installed(app, questions, i).version, Installed(app, questions, n - 1).version,
                        Installed(app, questions, n).version);
    }
    if n < |questions| {
      NewerThanAll(Installed(app, questions, i).version, Installed(app, questions, n), questions[n]);
    }
  }

  lemma NewerThanAll(before: string, now: App, q: Question)
    requires NotOlder(before, now.version)
    ensures var offer := UpdateFor(q.release, now, q.minVersion);
            offer.Some? ==> Versions.Older(before, offer.value.version)
  {
  }
}

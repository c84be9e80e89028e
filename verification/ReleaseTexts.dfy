/** How releases are kept as text, `json.dumps(asdict(release))` and `_decode` of
    both release sources. */
module ReleaseTexts {
  import opened AppReleases
  import opened Json
  import opened Options
  import DesktopReleases
  import ReleaseCache

  function OptionalText(value: Option<string>): Value {
    if value.None? then Null else Text(value.value)
  }

  predicate IsOptionalText(j: Value) {
    j.Null? || j.Text?
  }

  function AsOptional(j: Value): Option<string> {
    if j.Text? then Some(j.text) else None
  }

  // ---------- objects as dictionaries ----------

  /** The value of a key; of several fields of one name the last. */
  function Get(fields: seq<Field>, name: string): Option<Value> {
    if fields == [] then None
    else
      var last := fields[|fields| - 1];
      if last.name == name then Some(last.value) else Get(fields[..|fields| - 1], name)
  }

  function Names(fields: seq<Field>): set<string> {
    set field <- fields :: field.name
  }

  /** Of fields with different names each is found. */
  lemma {:induction false} GetFinds(fields: seq<Field>, i: nat)
    requires i < |fields| && forall a, b :: 0 <= a < b < |fields| ==> fields[a].name != fields[b].name
    ensures Get(fields, fields[i].name) == Some(fields[i].value)
  {
    var n := |fields| - 1;
    if i < n {
      GetFinds(fields[..n], i);
    }
  }

  // ---------- the Android app ----------

  function ApkJson(apk: Apk): Value {
    Object([Field("abi", Text(apk.abi)), Field("file_name", Text(apk.fileName)), Field("url", Text(apk.url)),
            Field("sha256", OptionalText(apk.sha256)), Field("size_bytes", Number(apk.sizeBytes))])
  }

  function AppJson(release: AppRelease): Value {
    Object([Field("version_name", Text(release.versionName)), Field("notes", Text(release.notes)),
            Field("published_at", OptionalText(release.publishedAt)), Field("apks", List(ApkList(release.apks)))])
  }

  function ApkList(apks: seq<Apk>): seq<Value> {
    if apks == [] then [] else [ApkJson(apks[0])] + ApkList(apks[1..])
  }

  /** `ReleaseApk(**entry)`: exactly its five fields. */
  function ApkFrom(j: Value): Option<Apk> {
    if j.Object? && Names(j.fields) == {"abi", "file_name", "url", "sha256", "size_bytes"} then
      match (Get(j.fields, "abi"), Get(j.fields, "file_name"), Get(j.fields, "url"), Get(j.fields, "sha256"),
          Get(j.fields, "size_bytes"))
      case (Some(Text(abi)), Some(Text(fileName)), Some(Text(url)), Some(sha256), Some(Number(sizeBytes))) =>
        if IsOptionalText(sha256) then Some(Apk(abi, fileName, url, AsOptional(sha256), sizeBytes)) else None
      case _ => None
    else None
  }

  function ApksFrom(items: seq<Value>): Option<seq<Apk>> {
    if items == [] then Some([])
    else
      match (ApkFrom(items[0]), ApksFrom(items[1..]))
      case (Some(apk), Some(rest)) => Some([apk] + rest)
      case _ => None
  }

  function AppFrom(j: Value): Option<AppRelease> {
    if !j.Object? then None
    else
      match (Get(j.fields, "version_name"), Get(j.fields, "notes"), Get(j.fields, "published_at"),
          Get(j.fields, "apks"))
      case (Some(Text(versionName)), Some(Text(notes)), Some(publishedAt), Some(List(items))) =>
        if !IsOptionalText(publishedAt) then None
        else
          (match ApksFrom(items)
           case Some(apks) => Some(AppRelease(versionName, notes, AsOptional(publishedAt), apks))
           case None => None)
      case _ => None
  }

  /** A file's fields are stored under their own names. */
  lemma ApkFields(apk: Apk)
    ensures var fields := ApkJson(apk).fields;
            && Names(fields) == {"abi", "file_name", "url", "sha256", "size_bytes"}
            && Get(fields, "abi") == Some(Text(apk.abi))
            && Get(fields, "file_name") == Some(Text(apk.fileName))
            && Get(fields, "url") == Some(Text(apk.url))
            && Get(fields, "sha256") == Some(if apk.sha256.Some? then Text(apk.sha256.value) else Null)
            && Get(fields, "size_bytes") == Some(Number(apk.sizeBytes))
  {
    var fields := ApkJson(apk).fields;
    assert fields[0].name == "abi" && fields[1].name == "file_name" && fields[2].name == "url";
    assert fields[3].name == "sha256" && fields[4].name == "size_bytes";
    FiveNames(fields);
    GetFinds(fields, 0);
    GetFinds(fields, 1);
    GetFinds(fields, 2);
    GetFinds(fields, 3);
    GetFinds(fields, 4);
    hide Get, Names;
  }

  lemma ApkReadsBack(apk: Apk)
    ensures ApkFrom(ApkJson(apk)) == Some(apk)
  {
    ApkFields(apk);
    hide Get, Names;
  }

  lemma FiveNames(fields: seq<Field>)
    requires |fields| == 5 && fields[0].name == "abi" && fields[1].name == "file_name" && fields[2].name == "url"
    requires fields[3].name == "sha256" && fields[4].name == "size_bytes"
    ensures Names(fields) == {"abi", "file_name", "url", "sha256", "size_bytes"}
    ensures forall a, b :: 0 <= a < b < |fields| ==> fields[a].name != fields[b].name
  {
    assert fields == [fields[0], fields[1], fields[2], fields[3], fields[4]];
    assert "abi"[0] == 'a' && "file_name"[0] == 'f' && "url"[0] == 'u' && "sha256"[1] == 'h' && "size_bytes"[1] == 'i';
    assert forall field <- fields ::
      field == fields[0] || field == fields[1] || field == fields[2] || field == fields[3] || field == fields[4];
  }

  lemma {:induction false} ApksReadBack(apks: seq<Apk>)
    ensures ApksFrom(ApkList(apks)) == Some(apks)
  {
    hide ApkFrom, ApkJson;
    if apks != [] {
      ApkReadsBack(apks[0]);
      ApksReadBack(apks[1..]);
      assert ApkList(apks)[1..] == ApkList(apks[1..]);
      assert [apks[0]] + apks[1..] == apks;
    }
  }

  /** And so are those of a release. */
  lemma AppFields(release: AppRelease)
    ensures var fields := AppJson(release).fields;
            && Get(fields, "version_name") == Some(Text(release.versionName))
            && Get(fields, "notes") == Some(Text(release.notes))
            && Get(fields, "published_at") ==
               Some(if release.publishedAt.Some? then Text(release.publishedAt.value) else Null)
            && Get(fields, "apks") == Some(List(ApkList(release.apks)))
  {
    var fields := AppJson(release).fields;
    assert "version_name"[0] == 'v' && "notes"[0] == 'n' && "published_at"[0] == 'p' && "apks"[0] == 'a';
    assert fields[0].name == "version_name" && fields[1].name == "notes";
    assert fields[2].name == "published_at" && fields[3].name == "apks";
    GetFinds(fields, 0);
    GetFinds(fields, 1);
    GetFinds(fields, 2);
    GetFinds(fields, 3);
    hide ApkList, Get;
  }

  lemma AppReadsBack(release: AppRelease)
    ensures AppFrom(AppJson(release)) == Some(release)
  {
    AppFields(release);
    ApksReadBack(release.apks);
    hide ApksFrom, ApkList, Get;
  }

  function AppCodec(): ReleaseCache.Codec<AppRelease> {
    ReleaseCache.Codec(
      (r: AppRelease) => Dumps(AppJson(r)),
      (t: string) => match Loads(t) case Some(j) => AppFrom(j) case None => None)
  }

  // ---------- the desktop app ----------

  /** The order in which a release's platforms came, which Python's dictionaries
      remember. */
  type PlatformOrder = DesktopReleases.Release -> seq<string>

  predicate Lists(keys: seq<string>, release: DesktopReleases.Release) {
    && (forall key <- keys :: key in release.platforms)
    && (forall key <- release.platforms :: key in keys)
    && forall i, j :: 0 <= i < j < |keys| ==> keys[i] != keys[j]
  }

  ghost predicate IsOrder(order: PlatformOrder) {
    forall release :: Lists(order(release), release)
  }

  function PackageJson(package: DesktopReleases.Package): Value {
    Object([Field("url", Text(package.url)), Field("signature", Text(package.signature))])
  }

  function PlatformFields(platforms: map<string, DesktopReleases.Package>, keys: seq<string>): (fields: seq<Field>)
    requires forall i :: 0 <= i < |keys| ==> keys[i] in platforms
    ensures |fields| == |keys| && forall i :: 0 <= i < |keys| ==>
              fields[i] == Field(keys[i], PackageJson(platforms[keys[i]]))
  {
    seq(|keys|, i requires 0 <= i < |keys| => Field(keys[i], PackageJson(platforms[keys[i]])))
  }

  lemma KeysAreThere(keys: seq<string>, release: DesktopReleases.Release)
    requires Lists(keys, release)
    ensures forall i :: 0 <= i < |keys| ==> keys[i] in release.platforms
  {
    forall i | 0 <= i < |keys| ensures keys[i] in release.platforms {
      assert keys[i] in keys;
    }
  }

  function DesktopJson(release: DesktopReleases.Release, keys: seq<string>): Value
    requires Lists(keys, release)
  {
    KeysAreThere(keys, release);
    Object([Field("version", Text(release.version)), Field("notes", Text(release.notes)),
            Field("pub_date", OptionalText(release.pubDate)),
            Field("platforms", Object(PlatformFields(release.platforms, keys)))])
  }

  /** `DesktopPackage(**entry)`: exactly its two fields. */
  function PackageFrom(j: Value): Option<DesktopReleases.Package> {
    if j.Object? && Names(j.fields) == {"url", "signature"} then
      match (Get(j.fields, "url"), Get(j.fields, "signature"))
      case (Some(Text(url)), Some(Text(signature))) => Some(DesktopReleases.Package(url, signature))
      case _ => None
    else None
  }

  function PackageUnder(fields: seq<Field>, key: string): Option<DesktopReleases.Package> {
    match Get(fields, key)
    case Some(j) => PackageFrom(j)
    case None => None
  }

  function PlatformsFrom(fields: seq<Field>): Option<map<string, DesktopReleases.Package>> {
    if forall key <- Names(fields) :: PackageUnder(fields, key).Some?
    then Some(map key | key in Names(fields) :: PackageUnder(fields, key).value)
    else None
  }

  function DesktopFrom(j: Value): Option<DesktopReleases.Release> {
    if !j.Object? then None
    else
      match (Get(j.fields, "version"), Get(j.fields, "notes"), Get(j.fields, "pub_date"), Get(j.fields, "platforms"))
      case (Some(Text(version)), Some(Text(notes)), Some(pubDate), Some(Object(fields))) =>
        if !IsOptionalText(pubDate) then None
        else
          (match PlatformsFrom(fields)
           case Some(platforms) => Some(DesktopReleases.Release(version, notes, AsOptional(pubDate), platforms))
           case None => None)
      case _ => None
  }

  lemma PackageFields(package: DesktopReleases.Package)
    ensures var fields := PackageJson(package).fields;
            && Names(fields) == {"url", "signature"}
            && Get(fields, "url") == Some(Text(package.url))
            && Get(fields, "signature") == Some(Text(package.signature))
  {
    var fields := PackageJson(package).fields;
    assert "url"[0] == 'u' && "signature"[0] == 's' && fields[0].name == "url" && fields[1].name == "signature";
    GetFinds(fields, 0);
    GetFinds(fields, 1);
    hide Get;
    assert Names(fields) == {"url", "signature"} by {
      assert fields == [fields[0], fields[1]];
      assert fields[0] in fields && fields[1] in fields;
    }
  }

  lemma PackageReadsBack(package: DesktopReleases.Package)
    ensures PackageFrom(PackageJson(package)) == Some(package)
  {
    PackageFields(package);
    hide Get, Names;
  }

  lemma PlatformReadsBack(platforms: map<string, DesktopReleases.Package>, keys: seq<string>, i: nat)
    requires forall k :: 0 <= k < |keys| ==> keys[k] in platforms
    requires i < |keys| && forall a, b :: 0 <= a < b < |keys| ==> keys[a] != keys[b]
    ensures PackageUnder(PlatformFields(platforms, keys), keys[i]) == Some(platforms[keys[i]])
  {
    hide Get, PackageFrom, PackageJson;
    var fields := PlatformFields(platforms, keys);
    assert fields[i] == Field(keys[i], PackageJson(platforms[keys[i]]));
    GetFinds(fields, i);
    PackageReadsBack(platforms[keys[i]]);
  }

  lemma PlatformNames(release: DesktopReleases.Release, keys: seq<string>, key: string)
    requires Lists(keys, release) && forall i :: 0 <= i < |keys| ==> keys[i] in release.platforms
    ensures key in Names(PlatformFields(release.platforms, keys)) <==> key in release.platforms
    ensures key in release.platforms ==>
              PackageUnder(PlatformFields(release.platforms, keys), key) == Some(release.platforms[key])
  {
    hide PackageUnder;
    var fields := PlatformFields(release.platforms, keys);
    if key in release.platforms {
      var i :| 0 <= i < |keys| && keys[i] == key;
      assert fields[i] in fields;
      PlatformReadsBack(release.platforms, keys, i);
    }
    if key in Names(fields) {
      var i :| 0 <= i < |fields| && fields[i].name == key;
    }
  }

  lemma PlatformsReadBack(release: DesktopReleases.Release, keys: seq<string>)
    requires Lists(keys, release) && forall i :: 0 <= i < |keys| ==> keys[i] in release.platforms
    ensures PlatformsFrom(PlatformFields(release.platforms, keys)) == Some(release.platforms)
  {
    var fields := PlatformFields(release.platforms, keys);
    forall key
      ensures key in Names(fields) <==> key in release.platforms
      ensures key in release.platforms ==> PackageUnder(fields, key) == Some(release.platforms[key])
    {
      PlatformNames(release, keys, key);
    }
    hide PlatformFields, Names, PackageUnder, Lists;
    var back := PlatformsFrom(fields);
    assert back.Some?;
    assert back.value == release.platforms;
  }

  lemma DesktopFields(release: DesktopReleases.Release, keys: seq<string>)
    requires Lists(keys, release)
    ensures forall i :: 0 <= i < |keys| ==> keys[i] in release.platforms
    ensures var fields := DesktopJson(release, keys).fields;
            && Get(fields, "version") == Some(Text(release.version))
            && Get(fields, "notes") == Some(Text(release.notes))
            && Get(fields, "pub_date") == Some(if release.pubDate.Some? then Text(release.pubDate.value) else Null)
            && Get(fields, "platforms") == Some(Object(PlatformFields(release.platforms, keys)))
  {
    KeysAreThere(keys, release);
    var fields := DesktopJson(release, keys).fields;
    assert "version"[0] == 'v' && "notes"[0] == 'n' && "pub_date"[1] == 'u' && "platforms"[1] == 'l';
    assert fields[0].name == "version" && fields[1].name == "notes";
    assert fields[2].name == "pub_date" && fields[3].name == "platforms";
    GetFinds(fields, 0);
    GetFinds(fields, 1);
    GetFinds(fields, 2);
    GetFinds(fields, 3);
    hide Get, PlatformFields, Lists;
  }

  lemma DesktopReadsBack(release: DesktopReleases.Release, keys: seq<string>)
    requires Lists(keys, release)
    ensures DesktopFrom(DesktopJson(release, keys)) == Some(release)
  {
    DesktopFields(release, keys);
    PlatformsReadBack(release, keys);
    hide Get, PlatformsFrom, PlatformFields, Lists;
  }

  function DesktopCodec(order: PlatformOrder): ReleaseCache.Codec<DesktopReleases.Release>
    requires IsOrder(order)
  {
    ReleaseCache.Codec(
      (r: DesktopReleases.Release) => Dumps(DesktopJson(r, order(r))),
      (t: string) => match Loads(t) case Some(j) => DesktopFrom(j) case None => None)
  }

  /** Every release of either kind comes back from its text as it was, and no
      text of a release is the one that stands for none. */
  lemma CodecsAreFaithful(order: PlatformOrder)
    requires IsOrder(order)
    ensures ReleaseCache.Faithful(AppCodec())
    ensures ReleaseCache.Faithful(DesktopCodec(order))
  {
    hide Loads, AppFrom, DesktopFrom;
    forall r: AppRelease
      ensures AppCodec().decode(AppCodec().encode(r)) == Some(r)
      ensures AppCodec().encode(r) != ReleaseCache.NO_RELEASE
    {
      AppReadsBack(r);
      LoadsDumps(AppJson(r));
      PrintsBrace(AppJson(r));
    }
    forall r: DesktopReleases.Release
      ensures DesktopCodec(order).decode(DesktopCodec(order).encode(r)) == Some(r)
      ensures DesktopCodec(order).encode(r) != ReleaseCache.NO_RELEASE
    {
      DesktopReadsBack(r, order(r));
      LoadsDumps(DesktopJson(r, order(r)));
      PrintsBrace(DesktopJson(r, order(r)));
    }
  }

  lemma PrintsBrace(j: Value)
    requires j.Object?
    ensures Dumps(j) != "" && Dumps(j)[0] == '{' && Dumps(j) != ReleaseCache.NO_RELEASE
  {
    assert ReleaseCache.NO_RELEASE[0] == 'n';
  }
}

/** The Android app's releases, `src/geekvpn/infrastructure/app_release.py`: which
    files of a GitHub release are APKs, and the release they make. */
module AppReleases {
  import opened Options
  import DesktopReleases
  import PyText
  import StableSort
  import Versions

  datatype Apk = Apk(abi: string, fileName: string, url: string, sha256: Option<string>, sizeBytes: int)

  datatype AppRelease = AppRelease(versionName: string, notes: string, publishedAt: Option<string>, apks: seq<Apk>)

  // ---------- which files are APKs ----------

  const KNOWN_ABIS := {"arm64-v8a", "armeabi-v7a", "x86", "x86_64", "universal"}

  const APK_SUFFIX := ".apk"

  predicate EndsWith(s: string, end: string) {
    |end| <= |s| && s[|s| - |end|..] == end
  }

  function AbiOf(fileName: string): Option<string> {
    if !EndsWith(fileName, APK_SUFFIX) then None
    else
      var abi := PyText.AfterLast(fileName[..|fileName| - |APK_SUFFIX|], '_');
      if abi in KNOWN_ABIS then Some(abi) else None
  }

  /** The name of an APK file of an ABI, with or without something in front. */
  predicate IsNamedFor(fileName: string, abi: string) {
    fileName == abi + APK_SUFFIX || EndsWith(fileName, "_" + abi + APK_SUFFIX)
  }

  lemma NamedForItsEnd(fileName: string)
    requires EndsWith(fileName, APK_SUFFIX)
    ensures IsNamedFor(fileName, PyText.AfterLast(fileName[..|fileName| - |APK_SUFFIX|], '_'))
  {
    var stem := fileName[..|fileName| - |APK_SUFFIX|];
    var last := PyText.AfterLast(stem, '_');
    assert fileName == stem + APK_SUFFIX;
    PyText.EndsWithAfterLast(stem, '_');
    if last != stem {
      var front := stem[..|stem| - |last| - 1];
      assert stem == front + ("_" + last);
      assert fileName == front + ("_" + last + APK_SUFFIX);
    }
  }

  lemma NameEndsWithAbi(fileName: string, abi: string)
    requires '_' !in abi && IsNamedFor(fileName, abi)
    ensures EndsWith(fileName, APK_SUFFIX)
    ensures PyText.AfterLast(fileName[..|fileName| - |APK_SUFFIX|], '_') == abi
  {
    var front := if fileName == abi + APK_SUFFIX then "" else fileName[..|fileName| - |abi + APK_SUFFIX|];
    assert fileName == front + abi + APK_SUFFIX;
    assert fileName[..|fileName| - |APK_SUFFIX|] == front + abi;
    PyText.AfterLastIs(front, abi, '_');
  }

  lemma NamedOrNot(fileName: string, abi: string)
    ensures AbiOf(fileName) == Some(abi) <==> abi in KNOWN_ABIS && '_' !in abi && IsNamedFor(fileName, abi)
  {
    if EndsWith(fileName, APK_SUFFIX) {
      NamedForItsEnd(fileName);
    }
    if '_' !in abi && IsNamedFor(fileName, abi) {
      NameEndsWithAbi(fileName, abi);
    }
    hide IsNamedFor, EndsWith;
  }

  lemma NamedIff(fileName: string, abi: string)
    ensures IsNamedFor(fileName, abi) <==>
            fileName == abi + ".apk" || exists front: string :: fileName == front + ("_" + abi + ".apk")
  {
    var end := "_" + abi + ".apk";
    if EndsWith(fileName, end) {
      assert fileName == fileName[..|fileName| - |end|] + end;
    }
  }

  /** Which names stand for which ABI.  An ABI with an underscore in its own
      name is never found: no file is ever taken for `x86_64`, known or not. */
  lemma AbiOfIff(fileName: string, abi: string)
    ensures AbiOf(fileName) == Some(abi) <==>
            && abi in {"arm64-v8a", "armeabi-v7a", "x86", "universal"}
            && (fileName == abi + ".apk" || exists front: string :: fileName == front + ("_" + abi + ".apk"))
    ensures AbiOf(fileName) != Some("x86_64")
  {
    assert '_' !in "arm64-v8a" && '_' !in "armeabi-v7a" && '_' !in "x86" && '_' !in "universal";
    assert "x86_64"[3] == '_';
    NamedOrNot(fileName, abi);
    NamedOrNot(fileName, "x86_64");
    NamedIff(fileName, abi);
    hide AbiOf, IsNamedFor;
  }

  // ---------- the release they make ----------

  /** A file attached to a release; missing fields read as empty texts and 0. */
  datatype Asset = Asset(name: string, digest: string, downloadUrl: string, size: int)

  /** GitHub's answer; an asset that is no object is `None`. */
  datatype Payload = Payload(tagName: string, body: string, publishedAt: Option<string>, assets: seq<Option<Asset>>)

  /** Reading raises on an asset that is no object. */
  datatype Parsed = Raises | Parsed(release: Option<AppRelease>)

  type Lowering = string -> string

  const DIGEST_PREFIX := "sha256:"

  function UrlOf(asset: Asset, mirror: string): string {
    if mirror != "" then mirror + "/" + asset.name else asset.downloadUrl
  }

  function ShaOf(asset: Asset, lower: Lowering): Option<string> {
    if DIGEST_PREFIX <= asset.digest then Some(lower(asset.digest[|DIGEST_PREFIX|..])) else None
  }

  /** The APK an asset is, if it is one that can be fetched. */
  function ApkOf(asset: Asset, mirror: string, lower: Lowering): Option<Apk> {
    match AbiOf(asset.name)
    case None => None
    case Some(abi) =>
      if UrlOf(asset, mirror) == "" then None
      else Some(Apk(abi, asset.name, UrlOf(asset, mirror), ShaOf(asset, lower), asset.size))
  }

  /** Which assets can be installed, and what is told about them: the address on the
      mirror, or the release's own where there is none, and the digest if it is a
      SHA-256. */
  lemma ApkOfIff(asset: Asset, mirror: string, lower: Lowering, hex: string)
    ensures var apk := ApkOf(asset, mirror, lower);
            && (apk.Some? <==> AbiOf(asset.name).Some? && (mirror != "" || asset.downloadUrl != ""))
            && (apk.Some? ==>
                  && AbiOf(asset.name) == Some(apk.value.abi) && apk.value.fileName == asset.name
                  && apk.value.url == (if mirror == "" then asset.downloadUrl else mirror + "/" + asset.name)
                  && apk.value.sizeBytes == asset.size
                  && (apk.value.sha256.Some? <==> "sha256:" <= asset.digest)
                  && (asset.digest == "sha256:" + hex ==> apk.value.sha256 == Some(lower(hex))))
  {
    hide AbiOf;
    if asset.digest == "sha256:" + hex {
      assert asset.digest[7..] == hex;
    }
  }

  predicate AllObjects(assets: seq<Option<Asset>>) {
    forall i :: 0 <= i < |assets| ==> assets[i].Some?
  }

  /** The APKs among the assets, in the order they are attached in. */
  function Apks(assets: seq<Option<Asset>>, mirror: string, lower: Lowering): seq<Apk>
    requires AllObjects(assets)
  {
    if assets == [] then []
    else
      var last := ApkOf(assets[|assets| - 1].value, mirror, lower);
      Apks(assets[..|assets| - 1], mirror, lower) + if last.Some? then [last.value] else []
  }

  // ---------- sorted by ABI ----------

  /** Python's order of texts. */
  predicate NotAfter(s: string, t: string) {
    s == "" || (t != "" && (s[0] < t[0] || (s[0] == t[0] && NotAfter(s[1..], t[1..]))))
  }

  lemma {:induction false} NotAfterIsOrder(s: string, t: string, u: string)
    ensures NotAfter(s, t) || NotAfter(t, s)
    ensures NotAfter(s, t) && NotAfter(t, u) ==> NotAfter(s, u)
    ensures NotAfter(s, t) && NotAfter(t, s) ==> s == t
  {
    if s != "" && t != "" {
      NotAfterIsOrder(s[1..], t[1..], if u == "" then "" else u[1..]);
      assert s == [s[0]] + s[1..] && t == [t[0]] + t[1..];
    }
  }

  /** By ABI. */
  predicate AbiNotAfter(a: Apk, b: Apk) {
    NotAfter(a.abi, b.abi)
  }

  lemma AbisAreOrdered()
    ensures StableSort.IsOrder(AbiNotAfter)
  {
    forall a: Apk, b: Apk, c: Apk
      ensures AbiNotAfter(a, b) || AbiNotAfter(b, a)
      ensures AbiNotAfter(a, b) && AbiNotAfter(b, c) ==> AbiNotAfter(a, c)
    {
      NotAfterIsOrder(a.abi, b.abi, c.abi);
    }
  }

  function ByAbi(apks: seq<Apk>): seq<Apk> {
    StableSort.Sorted(apks, AbiNotAfter)
  }

  function IsOf(abi: string): Apk -> bool {
    (apk: Apk) => apk.abi == abi
  }

  /** Sorting puts the ABIs in order, loses and adds nothing, and leaves the
      files of one ABI in the order they came in. */
  lemma ByAbiIsStable(apks: seq<Apk>, abi: string)
    ensures StableSort.InOrder(ByAbi(apks), AbiNotAfter) && multiset(ByAbi(apks)) == multiset(apks)
    ensures StableSort.Only(ByAbi(apks), IsOf(abi)) == StableSort.Only(apks, IsOf(abi))
  {
    AbisAreOrdered();
    StableSort.SortedInOrder(apks, AbiNotAfter);
    StableSort.SortedIsAll(apks, AbiNotAfter);
    StableSort.OnlyOfSorted(apks, AbiNotAfter, IsOf(abi));
    var same := StableSort.Only(apks, IsOf(abi));
    hide NotAfter, StableSort.IsOrder;
    forall i, j | 0 <= i < j < |same| ensures AbiNotAfter(same[i], same[j]) {
      StableSort.InOnly(apks, IsOf(abi), same[i]);
      StableSort.InOnly(apks, IsOf(abi), same[j]);
      NotAfterIsOrder(abi, abi, abi);
    }
    StableSort.SortedAlready(same, AbiNotAfter);
  }

  /** What becomes of each asset, whatever else is attached. */
  lemma {:induction false} ApksAre(assets: seq<Option<Asset>>, mirror: string, lower: Lowering, apk: Apk)
    requires AllObjects(assets)
    ensures apk in Apks(assets, mirror, lower) <==>
            exists i :: 0 <= i < |assets| && ApkOf(assets[i].value, mirror, lower) == Some(apk)
  {
    hide ApkOf;
    if assets != [] {
      var n := |assets| - 1;
      ApksAre(assets[..n], mirror, lower, apk);
      assert forall i :: 0 <= i < n ==> assets[..n][i] == assets[i];
      if i :| 0 <= i < n && ApkOf(assets[..n][i].value, mirror, lower) == Some(apk) {
        assert ApkOf(assets[i].value, mirror, lower) == Some(apk);
      }
    }
  }

  method ParseRelease(payload: Payload, mirrorBaseUrl: string, lower: Lowering) returns (parsed: Parsed)
    ensures var tag, mirror := PyText.Strip(payload.tagName), DesktopReleases.BareMirror(mirrorBaseUrl);
            if tag == "" then parsed == Parsed.Parsed(None)
            else if !AllObjects(payload.assets) then parsed == Raises
            else
              var apks := Apks(payload.assets, mirror, lower);
              parsed == Parsed.Parsed(if apks == [] then None
                                      else Some(AppRelease(Versions.WithoutV(tag), payload.body, payload.publishedAt,
                                          ByAbi(apks))))
  {
    var tag := PyText.Strip(payload.tagName);
    hide PyText.Strip, AbiOf;
    if tag == "" {
      return Parsed.Parsed(None);
    }
    var mirror := DesktopReleases.BareMirror(mirrorBaseUrl);
    var apks := [];
    for i := 0 to |payload.assets|
      invariant AllObjects(payload.assets[..i])
      invariant apks == Apks(payload.assets[..i], mirror, lower)
    {
      assert payload.assets[..i + 1][..i] == payload.assets[..i];
      if payload.assets[i].None? {
        return Raises;
      }
      var asset := payload.assets[i].value;
      var abi := AbiOf(asset.name);
      if abi.None? {
        continue;
      }
      var url := if mirror != "" then mirror + "/" + asset.name else asset.downloadUrl;
      if url == "" {
        continue;
      }
      apks := apks + [Apk(abi.value, asset.name, url, ShaOf(asset, lower), asset.size)];
    }
    assert payload.assets[..|payload.assets|] == payload.assets;
    if apks == [] {
      return Parsed.Parsed(None);
    }
    return Parsed.Parsed(Some(AppRelease(Versions.WithoutV(tag), payload.body, payload.publishedAt, ByAbi(apks))));
  }

  /** How many of the assets are this APK. */
  function Times(assets: seq<Option<Asset>>, mirror: string, lower: Lowering, apk: Apk): nat
    requires AllObjects(assets)
  {
    if assets == [] then 0
    else
      var n := |assets| - 1;
      Times(assets[..n], mirror, lower, apk) + if ApkOf(assets[n].value, mirror, lower) == Some(apk) then 1 else 0
  }

  lemma {:induction false} AsOftenAsAttached(assets: seq<Option<Asset>>, mirror: string, lower: Lowering, apk: Apk)
    requires AllObjects(assets)
    ensures multiset(Apks(assets, mirror, lower))[apk] == Times(assets, mirror, lower, apk)
  {
    hide ApkOf;
    if assets != [] {
      AsOftenAsAttached(assets[..|assets| - 1], mirror, lower, apk);
    }
  }

  /** There is something to install exactly when some asset is an APK with an
      address, and then the release lists, by ABI, every APK as often as it is
      attached and nothing else. */
  lemma ReleaseListsWhatInstalls(assets: seq<Option<Asset>>, mirror: string, lower: Lowering, apk: Apk)
    requires AllObjects(assets)
    ensures var apks := Apks(assets, mirror, lower);
            && (apks == [] <==> forall i :: 0 <= i < |assets| ==> ApkOf(assets[i].value, mirror, lower).None?)
            && StableSort.InOrder(ByAbi(apks), AbiNotAfter)
            && multiset(ByAbi(apks))[apk] == Times(assets, mirror, lower, apk)
  {
    var apks := Apks(assets, mirror, lower);
    ByAbiIsStable(apks, "");
    AsOftenAsAttached(assets, mirror, lower, apk);
    hide ApkOf;
    if apks != [] {
      ApksAre(assets, mirror, lower, apks[0]);
    } else {
      forall i | 0 <= i < |assets| ensures ApkOf(assets[i].value, mirror, lower).None? {
        var found := ApkOf(assets[i].value, mirror, lower);
        if found.Some? {
          ApksAre(assets, mirror, lower, found.value);
        }
      }
    }
  }

  lemma AbiOrder()
    ensures NotAfter("arm64-v8a", "armeabi-v7a") && NotAfter("armeabi-v7a", "universal") && NotAfter("universal", "x86")
  {
    var a, b := "arm64-v8a", "armeabi-v7a";
    assert a[1..][1..][1..][0] == '6' && b[1..][1..][1..][0] == 'e';
  }

  lemma OneOfFour(assets: seq<Option<Asset>>, mirror: string, lower: Lowering, k: nat)
    requires AllObjects(assets) && k < |ByAbi(Apks(assets, mirror, lower))|
    ensures ByAbi(Apks(assets, mirror, lower))[k].abi in {"arm64-v8a", "armeabi-v7a", "universal", "x86"}
  {
    var apks := Apks(assets, mirror, lower);
    var apk := ByAbi(apks)[k];
    StableSort.InSorted(apks, AbiNotAfter, apk);
    ApksAre(assets, mirror, lower, apk);
    var i :| 0 <= i < |assets| && ApkOf(assets[i].value, mirror, lower) == Some(apk);
    AbiOfIff(assets[i].value.name, apk.abi);
    hide AbiOf;
  }

  /** The files are listed 64-bit ARM first, then 32-bit ARM, then what runs on all,
      then x86. */
  lemma ListedByAbi(assets: seq<Option<Asset>>, mirror: string, lower: Lowering, i: nat, j: nat)
    requires AllObjects(assets) && i < j < |ByAbi(Apks(assets, mirror, lower))|
    ensures var apks := ByAbi(Apks(assets, mirror, lower));
            apks[i].abi == apks[j].abi ||
            (apks[i].abi, apks[j].abi) in {
              ("arm64-v8a", "armeabi-v7a"), ("arm64-v8a", "universal"), ("arm64-v8a", "x86"),
              ("armeabi-v7a", "universal"), ("armeabi-v7a", "x86"), ("universal", "x86")}
  {
    var apks := Apks(assets, mirror, lower);
    OneOfFour(assets, mirror, lower, i);
    OneOfFour(assets, mirror, lower, j);
    ByAbiIsStable(apks, "");
    var a, b := ByAbi(apks)[i].abi, ByAbi(apks)[j].abi;
    AbiOrder();
    NotAfterIsOrder("arm64-v8a", "armeabi-v7a", "universal");
    NotAfterIsOrder("arm64-v8a", "universal", "x86");
    NotAfterIsOrder("armeabi-v7a", "universal", "x86");
    NotAfterIsOrder(a, b, b);
    hide NotAfter, Apks, ByAbi;
  }
}

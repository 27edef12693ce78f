/** The decision logic of `main()` in hugo_updater.py (lines 19-44), with the
    network, the archive and the file system taken out: the decoded release
    list, the marker file's text (if the file exists) and whether the `hugo`
    binary exists go in; what the script would do comes out. */
module Updater {
  import opened Wrappers
  import opened Strings
  import opened Releases

  // ----- Tag normalisation: latest_release_data["tag_name"].lstrip("v") -----

  /** The version string the script compares and writes: the tag with every
      leading `'v'` removed. */
  function NormaliseTag(tag: string): (version: string)
    ensures version == [] || version[0] != 'v'
    ensures |version| <= |tag| && tag[|tag| - |version|..] == version
    ensures forall i | 0 <= i < |tag| - |version| :: tag[i] == 'v'
  {
    LStrip(tag, 'v')
  }

  lemma NormaliseIdempotent(tag: string)
    ensures NormaliseTag(NormaliseTag(tag)) == NormaliseTag(tag)
  {
  }

  /** A tag that does not start with `'v'` is its own version. */
  lemma NormaliseIdentity(tag: string)
    requires tag == [] || tag[0] != 'v'
    ensures NormaliseTag(tag) == tag
  {
  }

  /** Normalisation is determined by what is left after the leading `'v'`s:
      any number of them, including none, gives the same version. */
  lemma {:induction false} NormaliseDropsEveryLeadingV(n: nat, rest: string)
    requires rest == [] || rest[0] != 'v'
    ensures NormaliseTag(seq(n, _ => 'v') + rest) == rest
    decreases n
  {
    if n > 0 {
      var s := seq(n, _ => 'v') + rest;
      assert s[1..] == seq(n - 1, _ => 'v') + rest;
      NormaliseDropsEveryLeadingV(n - 1, rest);
    } else {
      assert seq(0, _ => 'v') + rest == rest;
    }
  }

  // ----- The marker file -----

  /** `version_file.read_text().strip()` if the file exists, else `None`:
      `markerFile` is the file's text, `None` when there is no file. */
  function CurrentVersion(markerFile: Option<string>): (current: Option<string>)
    ensures current.None? <==> markerFile.None?
    ensures current.Some? ==> Trimmed(current.value) && |current.value| <= |markerFile.value|
    ensures current.Some? ==> current.value == Strip(markerFile.value)
  {
    match markerFile
    case None => None
    case Some(text) => Some(Strip(text))
  }

  /** `latest_release_version == current_version and hugo_binary.exists()`;
      a string never equals `None`. */
  predicate UpToDate(version: string, current: Option<string>, binaryExists: bool)
  {
    current == Some(version) && binaryExists
  }

  // ----- Asset selection: the loop over latest_release_data["assets"] -----

  const PlatformTag: string := "linux-amd64.tar.gz"
  const ExtendedTag: string := "extended"

  /** The loop's filter: an asset is fetched unless its name lacks either
      required substring. */
  predicate IsWanted(asset: Asset)
  {
    Contains(asset.name, PlatformTag) && Contains(asset.name, ExtendedTag)
  }

  /** The positions of the wanted assets: increasing, each wanted, and every
      wanted position among them. */
  function WantedIndices(assets: seq<Asset>): (idx: seq<nat>)
    ensures forall m | 0 <= m < |idx| :: idx[m] < |assets| && IsWanted(assets[idx[m]])
    ensures forall m, n | 0 <= m < n < |idx| :: idx[m] < idx[n]
    ensures forall k | 0 <= k < |assets| && IsWanted(assets[k]) :: k in idx
    decreases |assets|
  {
    if |assets| == 0 then []
    else
      var n := |assets| - 1;
      WantedIndices(assets[..n]) + (if IsWanted(assets[n]) then [n] else [])
  }

  /** The URLs the loop downloads, in list order: one per wanted asset. */
  function DownloadUrls(assets: seq<Asset>): (urls: seq<string>)
    decreases |assets|
  {
    if |assets| == 0 then []
    else
      var n := |assets| - 1;
      DownloadUrls(assets[..n]) + (if IsWanted(assets[n]) then [assets[n].browserDownloadUrl] else [])
  }

  /** The downloads are exactly the wanted assets' URLs, in their order: the
      loop has no `break`, so every match is fetched, not just the first. */
  lemma {:induction false} DownloadUrlsExact(assets: seq<Asset>)
    ensures var idx := WantedIndices(assets);
      && |DownloadUrls(assets)| == |idx|
      && forall m | 0 <= m < |idx| :: DownloadUrls(assets)[m] == assets[idx[m]].browserDownloadUrl
    decreases |assets|
  {
    if |assets| > 0 {
      var n := |assets| - 1;
      DownloadUrlsExact(assets[..n]);
      var idx := WantedIndices(assets[..n]);
      assert forall m | 0 <= m < |idx| :: assets[..n][idx[m]] == assets[idx[m]];
    }
  }

  /** Without a wanted asset the loop downloads nothing. */
  lemma {:induction false} NoWantedNoDownload(assets: seq<Asset>)
    requires forall k | 0 <= k < |assets| :: !IsWanted(assets[k])
    ensures DownloadUrls(assets) == []
    decreases |assets|
  {
    if |assets| > 0 {
      NoWantedNoDownload(assets[..|assets| - 1]);
    }
  }

  /** `for asset in latest_release_data["assets"]: ...`: every asset is looked
      at in order, those lacking either substring are skipped with `continue`,
      and each other one is downloaded (its archive's `hugo` entry extracted). */
  method DownloadPlan(assets: seq<Asset>) returns (urls: seq<string>)
    ensures urls == DownloadUrls(assets)
  {
    urls := [];
    for k := 0 to |assets|
      invariant urls == DownloadUrls(assets[..k])
    {
      assert assets[..k + 1][..k] == assets[..k];
      var name := assets[k].name;
      if !Contains(name, PlatformTag) || !Contains(name, ExtendedTag) {
        continue;
      }
      var downloadUrl := assets[k].browserDownloadUrl;
      urls := urls + [downloadUrl];
    }
    assert assets[..|assets|] == assets;
  }

  // ----- One run of main() -----

  /** What a run does: report that hugo is up to date, or download `downloads`
      in order and then write `markerWrite` to the marker file. */
  datatype Plan = Plan(upToDate: bool, downloads: seq<string>, markerWrite: Option<string>)

  /** The outcome of a run, built from the reference selection. */
  function Decide(releases: seq<Release>, markerFile: Option<string>, binaryExists: bool): (r: Result<Plan, Error>)
    ensures r.Failure? <==> forall i | 0 <= i < |releases| :: releases[i].prerelease
    ensures r.Success? && r.value.upToDate ==> r.value.downloads == [] && r.value.markerWrite.None?
    ensures r.Success? && !r.value.upToDate ==> r.value.markerWrite.Some?
  {
    match LatestStable(releases)
    case Failure(e) => Failure(e)
    case Success(latest) =>
      var version := NormaliseTag(latest.tagName);
      if UpToDate(version, CurrentVersion(markerFile), binaryExists) then
        Success(Plan(true, [], None))
      else
        Success(Plan(false, DownloadUrls(latest.assets), Some(version)))
  }

  /** `main()`: select the latest stable release, normalise its tag, read the
      marker, and either stop or download every wanted asset and write the
      marker. */
  method Run(releases: seq<Release>, markerFile: Option<string>, binaryExists: bool)
    returns (r: Result<Plan, Error>)
    ensures r == Decide(releases, markerFile, binaryExists)
  {
    var latest :- GetLatestVersion(releases);
    var version := NormaliseTag(latest.tagName);
    var current := CurrentVersion(markerFile);
    if UpToDate(version, current, binaryExists) {
      return Success(Plan(true, [], None));
    }
    var urls := DownloadPlan(latest.assets);
    r := Success(Plan(false, urls, Some(version)));
  }

  // ----- Properties of a run -----

  /** A run is up to date exactly when the marker file exists, its stripped
      text equals the latest stable release's normalised tag, and the binary
      exists. */
  lemma UpToDateExactly(releases: seq<Release>, markerFile: Option<string>, binaryExists: bool, i: nat)
    requires IsLatestStable(releases, i)
    ensures var r := Decide(releases, markerFile, binaryExists);
      && r.Success?
      && (r.value.upToDate <==>
            && markerFile.Some?
            && Strip(markerFile.value) == NormaliseTag(releases[i].tagName)
            && binaryExists)
  {
    LatestStableIndexExact(releases, i);
  }

  /** Without a marker file a run always updates. */
  lemma AbsentMarkerNeverUpToDate(releases: seq<Release>, binaryExists: bool)
    ensures var r := Decide(releases, None, binaryExists);
      r.Success? ==> !r.value.upToDate
  {
  }

  /** An updating run downloads exactly the wanted assets of the latest
      stable release, in list order, and then writes its normalised tag to
      the marker, even when no asset was wanted. */
  lemma UpdateBranch(releases: seq<Release>, markerFile: Option<string>, binaryExists: bool, i: nat)
    requires IsLatestStable(releases, i)
    requires !Decide(releases, markerFile, binaryExists).value.upToDate
    ensures var p := Decide(releases, markerFile, binaryExists).value;
      var assets := releases[i].assets;
      var idx := WantedIndices(assets);
      && p.markerWrite == Some(NormaliseTag(releases[i].tagName))
      && |p.downloads| == |idx|
      && (forall m | 0 <= m < |idx| :: p.downloads[m] == assets[idx[m]].browserDownloadUrl)
  {
    LatestStableIndexExact(releases, i);
    DownloadUrlsExact(releases[i].assets);
  }

  /** After an updating run, running again on the same listing with the
      marker it wrote and a binary in place stops as up to date, provided the
      version has no surrounding whitespace (the marker is stripped when
      read). This holds also when the update downloaded nothing, so a binary
      left from an older install is never replaced again. */
  lemma {:induction false} RerunIsUpToDate(releases: seq<Release>, markerFile: Option<string>, binaryExists: bool)
    requires Decide(releases, markerFile, binaryExists).Success?
    requires !Decide(releases, markerFile, binaryExists).value.upToDate
    requires Trimmed(Decide(releases, markerFile, binaryExists).value.markerWrite.value)
    ensures var written := Decide(releases, markerFile, binaryExists).value.markerWrite;
      Decide(releases, written, true) == Success(Plan(true, [], None))
  {
    var written := Decide(releases, markerFile, binaryExists).value.markerWrite;
    StripTrimmed(written.value);
  }

  // ----- Concrete cases -----

  /** The tag of a release, and one without the prefix, give "0.123.4". */
  lemma NormaliseExamples()
    ensures NormaliseTag("v0.123.4") == "0.123.4"
    ensures NormaliseTag("0.123.4") == "0.123.4"
  {
    assert "v0.123.4"[1..] == "0.123.4";
  }

  /** Unlike stripping one character, `lstrip` also eats a doubled prefix. */
  lemma DoubledPrefixExample()
    ensures NormaliseTag("vv1.0") == "1.0"
  {
    assert "vv1.0"[1..] == "v1.0";
    assert "v1.0"[1..] == "1.0";
  }

  /** An asset is wanted exactly when both tags occur somewhere in its name. */
  lemma WantedMeaning(asset: Asset)
    ensures IsWanted(asset) <==>
      ((exists i: nat :: OccursAt(asset.name, PlatformTag, i)) &&
       (exists j: nat :: OccursAt(asset.name, ExtendedTag, j)))
  {
    ContainsMeaning(asset.name, PlatformTag);
    ContainsMeaning(asset.name, ExtendedTag);
  }

  /** A name holding `extended` before the platform tag is wanted. */
  lemma ExtendedLinuxWanted(a: string, b: string, c: string, url: string)
    ensures IsWanted(Asset(a + ExtendedTag + b + PlatformTag + c, url))
  {
    var name := a + ExtendedTag + b + PlatformTag + c;
    ContainsInMiddle(a, ExtendedTag, b + PlatformTag + c);
    assert name == a + ExtendedTag + (b + PlatformTag + c);
    ContainsInMiddle(a + ExtendedTag + b, PlatformTag, c);
  }

  /** A name holding the platform tag before `extended` is wanted too. */
  lemma LinuxExtendedWanted(a: string, b: string, c: string, url: string)
    ensures IsWanted(Asset(a + PlatformTag + b + ExtendedTag + c, url))
  {
    var name := a + PlatformTag + b + ExtendedTag + c;
    ContainsInMiddle(a, PlatformTag, b + ExtendedTag + c);
    assert name == a + PlatformTag + (b + ExtendedTag + c);
    ContainsInMiddle(a + PlatformTag + b, ExtendedTag, c);
  }

  /** A name without an `'e'` (a plain, non-extended build) is never wanted,
      and neither is one without an `'l'` (no `linux` in it). */
  lemma MissingTagNotWanted(asset: Asset)
    requires (forall i | 0 <= i < |asset.name| :: asset.name[i] != 'e')
          || (forall i | 0 <= i < |asset.name| :: asset.name[i] != 'l')
    ensures !IsWanted(asset)
  {
    if forall i | 0 <= i < |asset.name| :: asset.name[i] != 'e' {
      MissingCharNotContained(asset.name, ExtendedTag, 0);
    } else {
      MissingCharNotContained(asset.name, PlatformTag, 0);
    }
  }
}

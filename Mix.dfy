/** `mix($path)`: resolve an asset path through Laravel Mix's manifest
    (`/dist/mix-manifest.json`, logical path ↦ versioned path) to a theme URI.

    The manifest arrives already decoded; a manifest file that does not exist
    is `Missing`. WordPress's `get_theme_file_uri` is an arbitrary function
    `themeFileUri` that every lemma quantifies over. */
module Mix {
  import opened PhpStrings

  datatype Manifest = Missing | Present(entries: map<string, string>)

  /** The folder the build writes into. */
  const DistFolder: string := "/dist"

  /** WordPress `trailingslashit`: remove trailing `/` and `\`, then append one `/`. */
  function TrailingSlashIt(s: string): (r: string)
    ensures 1 <= |r| <= |s| + 1 && r[|r| - 1] == '/'
    ensures |r| >= 2 ==> r[|r| - 2] !in {'/', '\\'}
    ensures r[..|r| - 1] == s[..|r| - 1]
    ensures AllIn(s[|r| - 1..], {'/', '\\'})
  {
    RTrim(s, {'/', '\\'}) + "/"
  }

  /** The manifest key for a requested path: exactly one leading `/`
      followed by the path with all of its leading slashes removed. */
  function ManifestKey(path: string): (key: string)
    ensures 1 <= |key| <= |path| + 1 && key[0] == '/'
    ensures |key| >= 2 ==> key[1] != '/'
    ensures key[1..] == path[|path| - (|key| - 1)..]
    ensures AllIn(path[..|path| - (|key| - 1)], {'/'})
  {
    "/" + LTrim(path, {'/'})
  }

  /** The argument `mix` hands to `get_theme_file_uri`: the raw path without
      a manifest, the normalised key when the manifest does not list it, and
      otherwise `/dist/` followed by the listed value without its leading
      slashes. */
  function UriArgument(path: string, manifest: Manifest): (arg: string)
    ensures manifest.Missing? ==> arg == path
    ensures manifest.Present? && ManifestKey(path) !in manifest.entries ==> arg == ManifestKey(path)
    ensures manifest.Present? && ManifestKey(path) in manifest.entries ==>
              var value := manifest.entries[ManifestKey(path)];
              && 6 <= |arg| <= |value| + 6 && arg[..6] == "/dist/"
              && (|arg| > 6 ==> arg[6] != '/')
              && arg[6..] == value[|value| - (|arg| - 6)..]
              && AllIn(value[..|value| - (|arg| - 6)], {'/'})
  {
    DistPrefix();
    match manifest
    case Missing => path
    case Present(entries) =>
      var key := ManifestKey(path);
      if key !in entries then key
      else TrailingSlashIt(DistFolder) + LTrim(entries[key], {'/'})
  }

  /** `mix($path)` itself: one of three theme URIs. */
  function Mix(path: string, manifest: Manifest, themeFileUri: string -> string): (uri: string)
    ensures manifest.Missing? ==> uri == themeFileUri(path)
    ensures manifest.Present? && ManifestKey(path) !in manifest.entries ==>
              uri == themeFileUri(ManifestKey(path))
    ensures manifest.Present? && ManifestKey(path) in manifest.entries ==>
              uri == themeFileUri("/dist/" + LTrim(manifest.entries[ManifestKey(path)], {'/'}))
  {
    DistPrefix();
    themeFileUri(UriArgument(path, manifest))
  }

  /** The directory prefix used for manifest hits is `/dist/`. */
  lemma DistPrefix()
    ensures TrailingSlashIt(DistFolder) == "/dist/"
  {
    assert DistFolder[|DistFolder| - 1] !in {'/', '\\'};
    assert RTrim(DistFolder, {'/', '\\'}) == DistFolder;
  }

  /** Without a manifest file the original, un-normalised path is used. */
  lemma MixWithoutManifest(path: string, themeFileUri: string -> string)
    ensures Mix(path, Missing, themeFileUri) == themeFileUri(path)
  {
  }

  /** A key the manifest does not list resolves to the normalised path. */
  lemma MixKeyAbsent(path: string, entries: map<string, string>, themeFileUri: string -> string)
    requires ManifestKey(path) !in entries
    ensures Mix(path, Present(entries), themeFileUri) == themeFileUri(ManifestKey(path))
  {
  }

  /** Extra leading slashes on the requested path are irrelevant as soon as
      a manifest exists. */
  lemma {:induction false} MixIgnoresLeadingSlashes(path: string, entries: map<string, string>)
    ensures ManifestKey("/" + path) == ManifestKey(path)
    ensures UriArgument("/" + path, Present(entries)) == UriArgument(path, Present(entries))
  {
    assert ("/" + path)[1..] == path;
  }

  /** `main.css`, `/main.css` and `//main.css` resolve alike under any manifest. */
  lemma MainCssSpellings(bare: string, rooted: string, doubled: string,
                         entries: map<string, string>, themeFileUri: string -> string)
    requires bare == "main.css" && rooted == "/main.css" && doubled == "//main.css"
    ensures Mix(bare, Present(entries), themeFileUri) == Mix(rooted, Present(entries), themeFileUri)
    ensures Mix(rooted, Present(entries), themeFileUri) == Mix(doubled, Present(entries), themeFileUri)
  {
    assert rooted == "/" + bare && doubled == "/" + rooted;
    MixIgnoresLeadingSlashes(bare, entries);
    MixIgnoresLeadingSlashes(rooted, entries);
  }

  /** Without a manifest the spellings are not merged: the raw path is the
      argument handed on to `get_theme_file_uri`. */
  lemma SpellingsDifferWithoutManifest()
    ensures UriArgument("main.css", Missing) != UriArgument("/main.css", Missing)
  {
  }

  /** The result depends on the manifest only through the entry for the
      normalised key. */
  lemma MixDependsOnlyOnItsEntry(path: string, m1: map<string, string>, m2: map<string, string>)
    requires ManifestKey(path) in m1 <==> ManifestKey(path) in m2
    requires ManifestKey(path) in m1 ==> m1[ManifestKey(path)] == m2[ManifestKey(path)]
    ensures UriArgument(path, Present(m1)) == UriArgument(path, Present(m2))
  {
  }
}

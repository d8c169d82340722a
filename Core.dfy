/** The string and path derivations of the theme core: where templates are
    searched for, where compiled templates go, which template name is asked
    for, and which handle an extra asset is enqueued under. WordPress's
    `get_template_directory` is the value `themeDir`, `file_exists` is the
    function `fileExists`, and `get_theme_file_uri` is `themeFileUri`. */
module Core {
  import opened PhpStrings
  import Mix

  /** The contents of `config/view.php`: setting name ↦ value. */
  type ViewFile = map<string, string>

  /** The config repository: the `view` and `theme` sections. */
  datatype Config = Config(view: ViewFile, theme: ViewFile)

  /** `load_config`: both sections come from `config/view.php`. */
  function LoadConfig(viewFile: ViewFile): (c: Config)
    ensures c.view == viewFile && c.theme == c.view
  {
    Config(viewFile, viewFile)
  }

  const DefaultViewPath: string := "/resources/views"
  const DefaultCompiledPath: string := "/compiled/views"

  /** `$config->get('view.' . $name, $default)`. */
  function ViewSetting(config: Config, name: string, default: string): (r: string)
    ensures name in config.view ==> r == config.view[name]
    ensures name !in config.view ==> r == default
  {
    if name in config.view then config.view[name] else default
  }

  /** The directories searched for templates, in order. */
  function SearchPaths(themeDir: string, config: Config): (paths: seq<string>)
    ensures |paths| == 2
    ensures paths[0] == themeDir + ViewSetting(config, "path", DefaultViewPath)
    ensures "path" !in config.view ==> paths[0] == themeDir + "/resources/views"
    ensures paths[1] == themeDir
  {
    [themeDir + ViewSetting(config, "path", DefaultViewPath), themeDir]
  }

  /** The directory compiled templates are written to. */
  function CompiledPath(themeDir: string, config: Config): (dir: string)
    ensures dir == themeDir + ViewSetting(config, "compiled", DefaultCompiledPath)
    ensures "compiled" !in config.view ==> dir == themeDir + "/compiled/views"
  {
    themeDir + ViewSetting(config, "compiled", DefaultCompiledPath)
  }

  /** The needles stripped from a template's file name, in this order. */
  const TemplateExtensions: seq<string> := [".blade.php", ".php"]

  /** The name handed to the view factory: the file's base name with every
      `.blade.php`, then every `.php`, removed. */
  function TemplateName(template: string): (name: string)
    ensures '/' !in name
    ensures |name| <= |template|
  {
    StrReplace(TemplateExtensions, "", Basename(template))
  }

  /** What `render` does: abort naming the missing compiled directory, or
      render the named template from the search paths. */
  datatype RenderPlan =
    | Abort(message: string)
    | Render(searchPaths: seq<string>, compiledPath: string, viewName: string)

  function PlanRender(themeDir: string, config: Config, fileExists: string -> bool,
                      template: string): (r: RenderPlan)
    ensures r.Abort? <==> !fileExists(CompiledPath(themeDir, config))
    ensures r.Abort? ==> r.message == "Folder " + CompiledPath(themeDir, config) + " does not exist."
    ensures r.Render? ==> && r.searchPaths == SearchPaths(themeDir, config)
                          && r.compiledPath == CompiledPath(themeDir, config)
                          && r.viewName == TemplateName(template)
  {
    var compiled := CompiledPath(themeDir, config);
    if !fileExists(compiled) then Abort("Folder " + compiled + " does not exist.")
    else Render(SearchPaths(themeDir, config), compiled, TemplateName(template))
  }

  /** A stem with no `.` and no `/` followed by either extension, with or
      without a leading directory, yields exactly the stem. */
  lemma TemplateNameOfFile(dir: string, stem: string, ext: string)
    requires '.' !in stem && '/' !in stem
    requires ext == ".blade.php" || ext == ".php"
    ensures TemplateName(stem + ext) == stem
    ensures TemplateName(dir + "/" + stem + ext) == stem
  {
    var file := stem + ext;
    assert '/' !in file by {
      forall i | 0 <= i < |file| ensures file[i] != '/' {
        if i < |stem| { assert file[i] == stem[i]; } else { assert file[i] == ext[i - |stem|]; }
      }
    }
    assert dir + "/" + stem + ext == dir + "/" + file;
    BasenameOfPath(dir, file);
    StrReplacePair(".blade.php", ".php", "", file);
    if ext == ".blade.php" {
      ReplaceAllStripsSuffix(stem, ".blade.php");
    } else {
      ReplaceAllShortTail(stem, ".php", ".blade.php", "");
      ReplaceAllStripsSuffix(stem, ".php");
    }
    ReplaceAllUntouched(stem, ".php", "");
  }

  /** `dir/home.blade.php` gives `home`, with no `.blade` residue. */
  lemma BladeTemplateExample(template: string, dir: string, home: string)
    requires template == "dir/home.blade.php" && dir == "dir" && home == "home"
    ensures TemplateName(template) == home
  {
    assert template == dir + "/" + home + ".blade.php";
    TemplateNameOfFile(dir, home, ".blade.php");
  }

  /** `page.php` gives `page`. */
  lemma PhpTemplateExample(template: string, page: string)
    requires template == "page.php" && page == "page"
    ensures TemplateName(template) == page
  {
    assert template == page + ".php";
    TemplateNameOfFile("", page, ".php");
  }

  /** Stripping a short extension before a longer one that ends with it
      leaves the rest of the longer one behind. */
  lemma {:induction false} ShortNeedleFirstLeavesResidue(stem: string, blade: string, php: string)
    requires php != [] && blade != [] && php[0] !in stem && blade[0] !in stem && php[0] !in blade[1..]
    requires !OccursAt(blade + php, php, 0)
    ensures StrReplace([php, blade + php], "", stem + blade + php) == stem + blade
  {
    var rest := blade + php;
    assert rest[0] == blade[0] && |blade| < |rest|;
    assert stem + blade + php == stem + rest;
    StrReplacePair(php, rest, "", stem + rest);
    var first := ReplaceAll(stem + rest, php, "");
    assert first == stem + blade by {
      ReplaceAllSkipsPrefix(stem, rest, php, "");
      ReplaceAllKeepsHead(rest, php, "");
      assert rest[1..] == blade[1..] + php;
      ReplaceAllStripsSuffix(blade[1..], php);
      assert [rest[0]] + blade[1..] == blade;
    }
    ReplaceAllShortTail(stem, blade, rest, "");
  }

  /** Removing `.php` before `.blade.php` would turn `home.blade.php` into
      `home.blade`: the array order of the extensions is what avoids it. */
  lemma ExtensionOrderMatters(file: string, home: string, blade: string, php: string)
    requires file == "home.blade.php" && home == "home" && blade == ".blade" && php == ".php"
    ensures StrReplace([php, blade + php], "", file) == home + blade
    ensures TemplateName(file) == home
  {
    assert !OccursAt(blade + php, php, 0) by {
      assert (blade + php)[1] != php[1];
    }
    assert file == home + blade + php;
    ShortNeedleFirstLeavesResidue(home, blade, php);
    assert file == home + ".blade.php";
    TemplateNameOfFile("", home, ".blade.php");
  }

  /** The needles stripped from an asset path to name its handle. */
  const AssetExtensions: seq<string> := [".css", ".js"]

  /** The handle an extra style or script is enqueued under: the path with
      every `.css` and every `.js` removed. */
  function AssetHandle(path: string): (handle: string)
    ensures |handle| <= |path| && CharsFrom(handle, path)
  {
    StrReplace(AssetExtensions, "", path)
  }

  /** Neither `.css` nor `.js` begins in `file` before index `n`. */
  predicate NoAssetExtensionBefore(file: string, n: nat)
  {
    forall i: nat :: i < n ==> !OccursAt(file, ".css", i) && !OccursAt(file, ".js", i)
  }

  /** A path ending in `.css` or `.js`, with no earlier `.css` or `.js`
      occurrence, is named by what precedes the extension; dotted names such
      as `main.min.css` included. */
  lemma AssetHandleOfFile(stem: string, ext: string)
    requires ext == ".css" || ext == ".js"
    requires NoAssetExtensionBefore(stem + ext, |stem|)
    ensures AssetHandle(stem + ext) == stem
  {
    if ext == ".css" {
      StylesheetHandle(stem);
    } else {
      ScriptHandle(stem);
    }
  }

  /** The `.css` case of `AssetHandleOfFile`: the first needle removes the
      extension and the second finds nothing left to remove. */
  lemma StylesheetHandle(stem: string)
    requires NoAssetExtensionBefore(stem + ".css", |stem|)
    ensures AssetHandle(stem + ".css") == stem
  {
    var file := stem + ".css";
    StrReplacePair(".css", ".js", "", file);
    assert OccursAt(file, ".css", |stem|) by {
      assert file[|stem|..|stem| + 4] == ".css";
    }
    ReplaceAllFirstOccurrence(file, ".css", "", |stem|);
    assert file[..|stem|] == stem && file[|stem| + 4..] == [];
    assert ReplaceAll(file, ".css", "") == stem by {
      assert ReplaceAll([], ".css", "") == [];
      assert stem + "" + [] == stem;
    }
    forall i: nat ensures !OccursAt(stem, ".js", i) {
      if OccursAt(stem, ".js", i) {
        assert file[i..i + 3] == stem[i..i + 3];
        assert OccursAt(file, ".js", i);
      }
    }
    ReplaceAllWithoutMatch(stem, ".js", "");
  }

  /** The `.js` case of `AssetHandleOfFile`: the first needle finds nothing
      and the second removes the extension. */
  lemma ScriptHandle(stem: string)
    requires NoAssetExtensionBefore(stem + ".js", |stem|)
    ensures AssetHandle(stem + ".js") == stem
  {
    var file := stem + ".js";
    StrReplacePair(".css", ".js", "", file);
    assert OccursAt(file, ".js", |stem|) by {
      assert file[|stem|..|stem| + 3] == ".js";
    }
    assert file[..|stem|] == stem && file[|stem| + 3..] == [];
    ReplaceAllWithoutMatch(file, ".css", "");
    ReplaceAllFirstOccurrence(file, ".js", "", |stem|);
  }

  /** A stem without `.` cannot hold an earlier `.css` or `.js`. */
  lemma DotFreeStemHasNoExtension(stem: string, ext: string)
    requires '.' !in stem
    ensures NoAssetExtensionBefore(stem + ext, |stem|)
  {
    var file := stem + ext;
    forall i: nat | i < |stem| ensures !OccursAt(file, ".css", i) && !OccursAt(file, ".js", i) {
      assert file[i] == stem[i];
    }
  }

  /** A stylesheet and a script in a sub-directory. */
  lemma AssetHandleExamples(style: string, script: string, main: string, app: string)
    requires style == "main.css" && script == "js/app.js" && main == "main" && app == "js/app"
    ensures AssetHandle(style) == main
    ensures AssetHandle(script) == app
  {
    assert style == main + ".css";
    DotFreeStemHasNoExtension(main, ".css");
    AssetHandleOfFile(main, ".css");
    assert script == app + ".js";
    DotFreeStemHasNoExtension(app, ".js");
    AssetHandleOfFile(app, ".js");
  }

  /** A minified stylesheet keeps its inner dot: `main.min.css` gives `main.min`. */
  lemma DottedAssetHandleExample(style: string, stem: string)
    requires style == "main.min.css" && stem == "main.min"
    ensures AssetHandle(style) == stem
  {
    assert style == stem + ".css";
    forall i: nat | i < |stem| ensures !OccursAt(style, ".css", i) && !OccursAt(style, ".js", i) {
      OccursAtStart(style, ".css", i);
      OccursAtStart(style, ".js", i);
      if i != 4 {
        assert style[i] != '.';
      } else {
        assert style[i + 1] == 'm';
      }
    }
    AssetHandleOfFile(stem, ".css");
  }

  /** The arguments of a `wp_enqueue_style` / `wp_enqueue_script` call
      (dependencies are always empty and the version null). */
  datatype Enqueue =
    | Style(handle: string, src: string, media: string)
    | Script(handle: string, src: string, inFooter: bool)

  /** `include_style($path)`: what the registered action enqueues. */
  function IncludeStyle(path: string, manifest: Mix.Manifest, themeFileUri: string -> string): (e: Enqueue)
    ensures e.Style? && e.media == "all"
    ensures e.handle == AssetHandle(path) && e.src == Mix.Mix(path, manifest, themeFileUri)
  {
    Style(AssetHandle(path), Mix.Mix(path, manifest, themeFileUri), "all")
  }

  /** `include_script($path)`: what the registered action enqueues. */
  function IncludeScript(path: string, manifest: Mix.Manifest, themeFileUri: string -> string): (e: Enqueue)
    ensures e.Script? && e.inFooter
    ensures e.handle == AssetHandle(path) && e.src == Mix.Mix(path, manifest, themeFileUri)
  {
    Script(AssetHandle(path), Mix.Mix(path, manifest, themeFileUri), true)
  }
}

# parfaitement-starter-core in Dafny

This project models the logic of a small WordPress theme core that uses
Laravel's Blade views, validator and Mix asset manifest. The core has
three parts:

- `mix($path)` turns an asset path into a theme URI. It normalises the
  path, looks it up in the Mix manifest, and re-roots a hit under `/dist/`.
- `FormBase` is the base class for POST-handling forms. Its `handle()`
  checks the nonce, validates the input, records a failed validation in
  `$_SESSION['errors']` and `$_SESSION['old']`, and picks the success or
  failure redirect. `errors()` pops the stored error bag. `old()` reads a
  previously submitted field, falling back to a default.
- `Core` derives strings for rendering and enqueueing: the template
  search paths and the compiled-views directory (with their config
  defaults), the abort when that directory is missing, the bare template
  name (`basename` followed by `str_replace` of `.blade.php` and `.php`),
  and the handle an extra style or script is enqueued under.

Files:

- `PhpStrings.dfy` models the PHP built-ins the core depends on: `ltrim`,
  `rtrim`, `str_replace` with one needle and with an array of needles, and
  POSIX `basename`.
- `Mix.dfy` models `mix`. WordPress's `get_theme_file_uri` is a function
  parameter (`themeFileUri`). The lemmas quantify over that parameter, so
  it acts as an uninterpreted function.
- `FormBase.dfy` models the form flow. `$_SESSION` is the `Session` class
  with a `map` field, which `Handle` and `Session.Errors` update in place.
  `Submit` and `PopErrors` are the pure specifications those methods are
  proved against. `Old` is a pure lookup with PHP's truthiness rule.
- `Core.dfy` models the render configuration, the template name and the
  asset handles.

Calls to code outside the core are inputs:

- The nonce check (`wp_verify_nonce`) is the boolean `nonceValid`.
- The validator is the function `validator`, from request to verdict.
- The `beforeSuccess` hook is a `Hook` value: absent, or present with its
  answer.
- `file_exists` on the compiled-views directory is the function
  `fileExists`.
- `get_template_directory()` is the string `themeDir`.
- The decoded manifest is a `Manifest` value: `Missing` when the file does
  not exist.

`errors()` unsets `errors` when it is read (src/FormBase.php:113); nothing
in the code clears `old`.

## Model

| member | source | states |
|---|---|---|
| PhpStrings.LTrim | src/Mix.php:24 | `ltrim`: the result is a suffix of the input, everything removed is a trim character, and the result does not start with one |
| PhpStrings.RTrim | src/Mix.php:35 | `rtrim` (used by `trailingslashit` and `basename`): the result is a prefix, everything removed is a trim character, and the result does not end with one |
| PhpStrings.ReplaceAll | src/Core.php:100 | `str_replace` with one needle and an empty replacement never makes the subject longer |
| PhpStrings.ReplaceAllOnlyRemoves | src/Core.php:100 | `str_replace` with an empty replacement only removes characters: every character of the result occurs in the subject |
| PhpStrings.ReplaceAllWithoutMatch | src/Core.php:112 | a subject in which the needle never occurs is returned unchanged |
| PhpStrings.ReplaceAllFirstOccurrence | src/Core.php:112 | `str_replace` replaces the leftmost occurrence of the needle, keeps everything before it, and resumes scanning right after it |
| PhpStrings.StrReplace | src/Core.php:100 | `str_replace` with an array of needles, applied in array order, with an empty replacement never lengthens the subject and introduces no new characters |
| PhpStrings.StrReplacePair | src/Core.php:100 | with two needles, the second is replaced in the output of the first |
| PhpStrings.ReplaceAllSkipsPrefix | src/Core.php:100 | a prefix containing no copy of the needle's first character is copied through unchanged |
| PhpStrings.AfterLastSlash | src/Core.php:100 | the part after the last `/` is the longest suffix without `/`, and it is preceded by `/` unless it is the whole string |
| PhpStrings.Basename | src/Core.php:100 | `basename` never returns a `/`, and returns a path without `/` unchanged |
| PhpStrings.BasenameOfPath | src/Core.php:100 | `basename("d/x")` is `x` for a single non-empty component `x` |
| Mix.TrailingSlashIt | src/Mix.php:35 | `trailingslashit` ends in exactly one `/`; what precedes it is a prefix of the input, and everything of the input it drops is `/` or `\` |
| Mix.ManifestKey | src/Mix.php:23-24 | the lookup key starts with exactly one `/`, and the rest is the input with all its leading slashes removed |
| Mix.UriArgument | src/Mix.php:17-35 | the argument for `get_theme_file_uri` is the raw path without a manifest, the normalised key when the key is not listed, and otherwise `/dist/` followed by the listed value without its leading slashes |
| Mix.Mix | src/Mix.php:12-36 | `mix` returns the theme URI of exactly one of those three arguments |
| Mix.DistPrefix | src/Mix.php:14-35 | the prefix used for manifest hits is `/dist/` |
| Mix.MixWithoutManifest | src/Mix.php:17-19 | without a manifest file, the result is the theme URI of the original, un-normalised path |
| Mix.MixKeyAbsent | src/Mix.php:26-28 | a key missing from the manifest gives the theme URI of the normalised path |
| Mix.MixIgnoresLeadingSlashes | src/Mix.php:23-35 | once a manifest exists, one more leading `/` changes neither the key nor the result |
| Mix.MainCssSpellings | src/Mix.php:24-35 | `main.css`, `/main.css` and `//main.css` resolve to the same URI under any manifest |
| Mix.SpellingsDifferWithoutManifest | src/Mix.php:17-18 | without a manifest, `main.css` and `/main.css` are passed on differently |
| Mix.MixDependsOnlyOnItsEntry | src/Mix.php:26-31 | the result depends on the manifest only through the entry for the normalised key |
| FormBase.Truthy | src/FormBase.php:122 | a value is truthy for `?:` exactly when it is not one of null, `false`, `0`, `0.0`, `""`, `"0"` or the empty array |
| FormBase.IsSet | src/FormBase.php:111 | `isset` holds exactly when the key is present and its value is not null |
| FormBase.StoredOld | src/FormBase.php:122 | `$_SESSION['old'][$key]` is the stored field when `old` is an array holding the key, and null when `old` or the key is missing |
| FormBase.Submit | src/FormBase.php:84-108 | `handle()` succeeds exactly when the nonce is valid, validation passes and any hook accepts; a failed validation after a valid nonce adds `errors` (the validator's errors) and `old` (the request input) and keeps every other key; every other path leaves the session as it was |
| FormBase.BaseForm | src/FormBase.php:46-66 | the base form has no rules, messages or attributes, and no `beforeSuccess` hook |
| FormBase.PopErrors | src/FormBase.php:110-119 | `errors()` returns the stored value when `errors` is set and removes that key; otherwise it returns an empty `ViewErrorBag` and leaves the session as it was; no other key changes |
| FormBase.Session.Errors | src/FormBase.php:110-119 | the in-place `errors()` returns and leaves behind exactly what `PopErrors` specifies |
| FormBase.Old | src/FormBase.php:121-123 | `old(key, default)` is the stored field when it is truthy, and `default` when it is falsy or missing |
| FormBase.OldOrEmpty | src/FormBase.php:121-122 | `old(key)` with the default argument falls back to the empty string |
| FormBase.Handle | src/FormBase.php:84-108 | the in-place `handle()` returns the outcome and leaves the session that `Submit` specifies |
| FormBase.InvalidNonceFails | src/FormBase.php:85-87 | with an invalid nonce the result is Fail with the session unchanged, whatever the validator would say |
| FormBase.ValidationFailureIsRecorded | src/FormBase.php:96-101 | a failed validation sets `errors` to the validator's errors and `old` to the request input, keeps every other key, and returns Fail |
| FormBase.SuccessIff | src/FormBase.php:84-108 | Success exactly when the nonce is valid, validation passes, and there is no hook or the hook answers true |
| FormBase.SessionWrittenOnlyOnValidationFailure | src/FormBase.php:84-108 | with an invalid nonce, or once validation passes (with or without a hook), the session is unchanged |
| FormBase.OldAfterValidationFailure | src/FormBase.php:96-123 | after a failed validation, `old(key, default)` is the submitted field when it is truthy, and `default` otherwise |
| FormBase.ErrorsAfterValidationFailure | src/FormBase.php:96-118 | after a failed validation, `errors()` returns the validator's errors once; the next call returns an empty bag |
| FormBase.ErrorsTwice | src/FormBase.php:110-118 | a second `errors()` returns an empty bag and changes nothing |
| FormBase.OldFalsyFallsBack | src/FormBase.php:121-122 | `"0"`, `""` and a missing `old` slot all fall back to the default |
| Core.LoadConfig | src/Core.php:46-53 | the `theme` section is loaded from the same file as `view`, so the two are equal |
| Core.ViewSetting | src/Core.php:77-78 | `config->get('view.name', default)` is the configured value if present and the default otherwise |
| Core.SearchPaths | src/Core.php:77 | the search paths are exactly `[themeDir + view.path, themeDir]`, with `view.path` defaulting to `/resources/views` |
| Core.CompiledPath | src/Core.php:78 | the compiled path is `themeDir + view.compiled`, defaulting to `/compiled/views` |
| Core.PlanRender | src/Core.php:77-100 | render aborts exactly when the compiled-views directory does not exist, with a message naming that directory; otherwise it renders the derived name from the search paths |
| Core.TemplateName | src/Core.php:100 | the template name never contains `/` and is never longer than the template path |
| Core.TemplateNameOfFile | src/Core.php:100 | `stem.blade.php` and `stem.php`, with or without a directory, give `stem` when the stem has no `.` or `/` |
| Core.BladeTemplateExample | src/Core.php:100 | `dir/home.blade.php` gives `home`, with no `.blade` residue |
| Core.PhpTemplateExample | src/Core.php:100 | `page.php` gives `page` |
| Core.ShortNeedleFirstLeavesResidue | src/Core.php:100 | removing a short extension before a longer one that ends with it leaves the rest of the longer one behind |
| Core.ExtensionOrderMatters | src/Core.php:100 | in the opposite needle order, `home.blade.php` would give `home.blade`; the order used gives `home` |
| Core.AssetHandle | src/Core.php:112 | the handle is no longer than the path and only drops characters |
| Core.AssetHandleOfFile | src/Core.php:109-121 | a path ending in `.css` or `.js`, with no earlier `.css` or `.js` in it, is named by what precedes the extension (inner dots are kept) |
| Core.DotFreeStemHasNoExtension | src/Core.php:112 | a stem without `.` contains no earlier `.css` or `.js` |
| Core.AssetHandleExamples | src/Core.php:112-119 | `main.css` gives `main`, and `js/app.js` gives `js/app` |
| Core.DottedAssetHandleExample | src/Core.php:112 | `main.min.css` gives `main.min` |
| Core.IncludeStyle | src/Core.php:109-114 | `include_style` enqueues a style for media `all`, under the derived handle, at `mix($path)` |
| Core.IncludeScript | src/Core.php:116-121 | `include_script` enqueues a footer script under the derived handle, at `mix($path)` |

## Left out

- Environment loading with Dotenv (src/Core.php:38-44): this is file-system plumbing. `LoadConfig` takes the already-loaded contents of `config/view.php` instead of `require`-ing the file.
- The `clean_wordpress` glob and `require_once` loop (src/Core.php:63-72): this is dynamic file inclusion.
- `theme_scripts` (src/Core.php:55-61): this is hook registration with fixed handles.
- Building the Blade compiler, engine resolver, view finder, view factory and event dispatcher, and the rendering and `echo` itself (src/Core.php:84-104): these are Laravel classes that are not part of this model. `PlanRender` stops at the name and paths the factory receives.
- `add_action` deferral: `IncludeStyle` and `IncludeScript` return the enqueue call that the registered action would make later.
- WordPress's `wp_verify_nonce`, `wp_redirect`, `wp_get_referer`, `site_url`, `get_template_directory`, `get_theme_file_path` and `get_theme_file_uri` are inputs, not models. `Outcome` names the redirect (site URL for Success, referer for Fail) but does not model the redirect itself.
- The manifest is taken as already decoded. Reading the file, malformed JSON (`json_decode` returning null) and manifest values that are not strings are not modelled.
- Config values that are present but null, or not strings, are not modelled. `ViewSetting` treats every present key as a string value.
- FormBase's constructor (src/FormBase.php:13-26), `name()` and `validationData()` overrides: these are reflection, hook registration and dispatch plumbing. The validator always receives the request input, as the base class does.
- The `beforeSuccess` hook is a boolean. The session writes of `TryAuthenticateUser` (src/Traits/TryAuthenticateUser.php) are not part of this model.
- FormBase.Old: when `$_SESSION['old']` holds something other than an array or null (a string, a number, an object), PHP's offset rules are not modelled. The model reads no stored value and returns the default.
- PhpStrings.Basename: only `/` is a separator (as on POSIX systems). Windows backslashes and locale-dependent multibyte handling are not modelled.
- `PhpValue` has no NaN floats (PHP treats NAN as truthy) and no objects that convert to false (such as empty SimpleXML elements); a `Float` is an exact real number.
- PHP arrays with integer keys are modelled as string-keyed maps.
- src/Controller.php (a second `include_style`/`include_script` whose handle is `'extra-script' . $path`) is not part of this model.

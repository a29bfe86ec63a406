# Bilingual site scripts: language switch, dark mode, lightbox

A Dafny model of the client logic of a static English/Chinese website.
The DOM, `localStorage`, the browser's location and image preloading are
replaced by plain values and fields. Three scripts are modelled.

- **Language switcher** (`language_switcher.dfy`, module `LanguageSwitcher`).
  - A page is Chinese exactly when its path contains `-cn.html`.
  - `getLocalizedUrl` maps a path to its other-language twin. It reads
    the last `/`-segment as the file name, with an empty segment standing
    for `index.html`. It splits that name on `.` into a base (first piece)
    and an extension (last piece). It removes one trailing `-cn` from the
    base and appends `-cn` for Chinese, then joins the segments again.
    This is `Localize`, built on the JavaScript `split`/`join` semantics
    in `js_strings.dfy` (module `JsStrings`).
  - `applyLanguageToAllLinks` rewrites anchor hrefs in place. Here the
    anchors are an `array<Option<string>>`, with a missing `href` as `None`.
  - The toggle button and the click handler are a class `LanguagePage`.
    It holds the storage map and the URL the page navigates to.
- **Dark-mode switcher** (`dark_mode_switcher.dfy`, module
  `DarkModeSwitcher`).
  - A boolean preference is stored as the string `'true'` or `'false'`
    under `darkModeEnabled`.
  - On load the mode is the stored preference, or else the system colour
    scheme, which is an input boolean.
  - The mode is shown by the body class `dark-mode`, the sun/moon icon,
    and the button's label and title. A click flips it and stores it.
  - The page is a class `DarkModePage`.
- **Lightbox** (`lightbox.dfy`, module `Lightbox`).
  - `chooseBestSrc` builds a duplicate-free candidate list: `data-lb-src`,
    then `currentSrc`, then `src`. It returns the first candidate that
    loads; "loads" is membership in a set `loadable`. If none loads it
    fails with `No candidate image loaded.`
  - A click inside `#main` is delegated to an image chosen from the path
    of elements between the click target and `#main`.
  - The overlay is a class `Overlay` whose methods are proved equal to
    pure transitions on a `View` value: `Opening`, `Settled`, `Open`,
    `Close`. Opening is split at the `await`, so a close that arrives while
    the image is loading can be stated.

Behaviour of the code that the proofs make explicit:
- A name with no `.` (`/about`) has the whole name as both base and
  extension. `Localize("/about", Cn)` is therefore `/about-cn.about`
  (`LocalizeExtensionless`).
- Localising to English is not idempotent on `x-cn-cn.html`. Only one
  `-cn` is removed, so it becomes `x-cn.html` and then `x.html`
  (`EnNotIdempotent`).
- A file name with two `.` loses its middle part. The base is the first
  piece and the extension the last, so `/a.b.html` becomes `/a-cn.html`,
  and that goes back to `/a.html`, not to the original
  (`LocalizeTwoDots`, `TwoDotsRoundTripLosesMiddle`).

Two places where the code does something other than what its own checks
and comments suggest; the model follows the code:
- The dark-mode script guards the click listener with `if (darkModeToggle)`
  (`dark-mode-switcher.js:66`), but on load it has already dereferenced
  the button (`dark-mode-switcher.js:28,37`). So a missing button makes
  the script fail rather than silently disabling the feature. The model
  takes the toggle and its label to exist.
- Clicking an image marked `data-no-lightbox` does open the lightbox when
  the image sits in a `.image` wrapper that also holds an unmarked image.
  The wrapper's first unmarked image is opened (`FlaggedImageInsideWrapper`).

## Model

| member | source | states |
|---|---|---|
| JsStrings.JoinSplit | assets/js/language-switcher.js:53-55 | joining the pieces of `split(sep)` with `sep` gives back the original string |
| JsStrings.SplitJoin | assets/js/language-switcher.js:53-55 | splitting a join of separator-free pieces gives back exactly those pieces |
| JsStrings.SplitAfterSep | assets/js/language-switcher.js:31 | splitting `s + sep + t`, with `t` separator-free, gives the pieces of `s` followed by `t` as the last piece |
| JsStrings.SplitAppendFree | assets/js/language-switcher.js:31 | appending separator-free text to a string only lengthens its last piece |
| LanguageSwitcher.PageLang | assets/js/language-switcher.js:93-94 | the page language is Chinese if and only if the path contains `-cn.html` |
| LanguageSwitcher.PreferredLanguage | assets/js/language-switcher.js:15-22 | `cn` on a `-cn.html` path; otherwise the stored `preferredLang` when it is non-empty, else `en` |
| LanguageSwitcher.SetPreferredLanguage | assets/js/language-switcher.js:25-27 | the stored map gains the key `preferredLang` holding the language's code; every other key keeps its value |
| LanguageSwitcher.StoredPreferenceAgreesWithPage | assets/js/language-switcher.js:15-27 | after the page's language is stored, the preferred language read back is that language, and only the `preferredLang` key is added |
| LanguageSwitcher.LastSegment | assets/js/language-switcher.js:31 | the last piece of the path split on `/` never contains `/` |
| LanguageSwitcher.FileName | assets/js/language-switcher.js:31-36 | the file name is never empty and never contains `/`; it is the last segment whenever that is non-empty |
| LanguageSwitcher.BaseName | assets/js/language-switcher.js:38 | the base (the first `.`-piece) contains no `.` |
| LanguageSwitcher.Extension | assets/js/language-switcher.js:39 | the extension (the last `.`-piece) contains no `.` |
| LanguageSwitcher.StripCn | assets/js/language-switcher.js:41-44 | the result is a prefix of the base; a base ending in `-cn` is the result plus `-cn`, and any other base is unchanged |
| LanguageSwitcher.LocalizedFileNameHasNoSlash | assets/js/language-switcher.js:54 | the rebuilt file name introduces no `/` |
| LanguageSwitcher.DottedNameIsFileName | assets/js/language-switcher.js:31-36 | a last segment of the form `x.e` is used as the file name as it is |
| LanguageSwitcher.DirectoryFileName | assets/js/language-switcher.js:31-36 | a path ending in `/` has an empty last segment, read as `index.html` |
| LanguageSwitcher.BaseAndExtension | assets/js/language-switcher.js:38-39 | a name `x.e` with no other `.` has base `x` and extension `e` |
| LanguageSwitcher.RootFileParts | assets/js/language-switcher.js:35-44 | `index.html` has base `index` (no `-cn` to strip) and extension `html` |
| LanguageSwitcher.LocalizedPlainName | assets/js/language-switcher.js:38-54 | a name `x.e` whose base has no `-cn` becomes `x` plus the language's suffix plus `.e` |
| LanguageSwitcher.RootFileLocalized | assets/js/language-switcher.js:33-50 | the root file name localises to `index.html` in English and `index-cn.html` in Chinese |
| LanguageSwitcher.Localize | assets/js/language-switcher.js:30-56 | the result split on `/` is the path's segments with the last one replaced by the localised file name |
| LanguageSwitcher.LocalizedSegmentsSepFree | assets/js/language-switcher.js:53-55 | the segments that are joined back (earlier segments and the new file name) contain no `/`, so the join splits back into them |
| LanguageSwitcher.LocalizeSegments | assets/js/language-switcher.js:53-55 | localising changes only the last `/`-segment: same number of segments, every earlier segment kept, the last replaced by the localised file name |
| LanguageSwitcher.LocalizeByParts | assets/js/language-switcher.js:30-56 | for a last segment `x.e`, the result is the earlier segments followed by `x` without one `-cn`, the suffix and `.e` |
| LanguageSwitcher.LocalizedFileNameParts | assets/js/language-switcher.js:38-54 | the rebuilt name's base is the stripped base plus the suffix, and its extension is unchanged |
| LanguageSwitcher.LocalizedBaseName | assets/js/language-switcher.js:38-50 | for Chinese the new base ends in `-cn` and is the stripped base plus `-cn`; for English it is the base with at most one trailing `-cn` removed; the extension is kept |
| LanguageSwitcher.StripCnOfCn | assets/js/language-switcher.js:42-48 | stripping a base that was given `-cn` gives the stripped base back |
| LanguageSwitcher.CnLocalizedLastSegment | assets/js/language-switcher.js:30-56 | a Chinese-localised path's file name strips to the same base and keeps the extension |
| LanguageSwitcher.LocalizeAfterCn | assets/js/language-switcher.js:30-56 | localising a Chinese-localised path to either language equals localising the original path |
| LanguageSwitcher.LocalizeCnIdempotent | assets/js/language-switcher.js:30-56 | localising to Chinese twice equals localising once |
| LanguageSwitcher.LocalizeCnThenEn | assets/js/language-switcher.js:30-56 | localising to Chinese and then English equals localising to English directly |
| LanguageSwitcher.EnPageFixed | assets/js/language-switcher.js:30-56 | an English page `…/b.e` (one `.`, no `-cn`) is its own English localisation |
| LanguageSwitcher.RoundTripEnCnEn | assets/js/language-switcher.js:30-56 | an English page `…/b.e` localised to Chinese and back to English is the original path |
| LanguageSwitcher.CnPageFixed | assets/js/language-switcher.js:30-56 | a Chinese page `…/b-cn.e` is its own Chinese localisation |
| LanguageSwitcher.CnNameToEn | assets/js/language-switcher.js:38-54 | the Chinese name `b-cn.e` (one `.`) is renamed to `b.e` for English |
| LanguageSwitcher.CnPageToEn | assets/js/language-switcher.js:30-56 | a Chinese page `…/b-cn.e` localises to English as `…/b.e` with every earlier segment kept |
| LanguageSwitcher.RoundTripCnEnCn | assets/js/language-switcher.js:30-56 | a Chinese page `…/b-cn.e` localised to English and back to Chinese is the original path |
| LanguageSwitcher.DirectoryPath | assets/js/language-switcher.js:31-55 | a path `d/` localises to `d/index.html` or `d/index-cn.html`; with `d` empty, `/` becomes `/index.html` or `/index-cn.html` |
| LanguageSwitcher.LocalizeFilePath | assets/js/language-switcher.js:30-56 | `d/x.e` localises to `d/` followed by the stripped `x`, the suffix and `.e`, with `d` kept verbatim (e.g. `/products/tea.html` and `/products/tea-cn.html`) |
| LanguageSwitcher.TwoDotParts | assets/js/language-switcher.js:38-39 | a name `x.y.e` has base `x` and extension `e`; the middle piece is in neither |
| LanguageSwitcher.LocalizeTwoDots | assets/js/language-switcher.js:30-56 | `d/x.y.e` localises to `d/` followed by the stripped `x`, the suffix and `.e`: the middle piece is dropped |
| LanguageSwitcher.TwoDotsRoundTripLosesMiddle | assets/js/language-switcher.js:30-56 | `d/x.y.e` localised to Chinese and back to English is `d/x.e` with one `-cn` stripped, which is never the original path |
| LanguageSwitcher.CnNameBackToEn | assets/js/language-switcher.js:30-56 | `d/x-cn.e` with a plain stripped base localises to English as `d/x.e` |
| LanguageSwitcher.EnNotIdempotent | assets/js/language-switcher.js:41-44 | `d/b-cn-cn.e` localises to English as `d/b-cn.e`, and that again as `d/b.e`: localising to English twice differs from once |
| LanguageSwitcher.CnSuffixToEn | assets/js/language-switcher.js:30-56 | `d/x-cn.e` with a plain `x` localises to English as `d/x.e`, whatever `x` itself ends with |
| LanguageSwitcher.LocalizeExtensionless | assets/js/language-switcher.js:38-39 | a file name `x` without `.` is both base and extension, so `d/x` localises to `d/x` plus suffix plus `.x` |
| LanguageSwitcher.HtmlFileExtension | assets/js/language-switcher.js:70 | an href ending in `.html` has file-name extension `html` |
| LanguageSwitcher.HtmlHrefExtension | assets/js/language-switcher.js:70 | every href the rewrite touches (`.html` or `/`) has file-name extension `html` |
| LanguageSwitcher.LocalizeIsPrefixThenName | assets/js/language-switcher.js:52-55 | the localised path is the joined earlier segments, a `/` when there are any, and the localised file name |
| LanguageSwitcher.CnHtmlNameEndsWithMarker | assets/js/language-switcher.js:38-54 | an `.html` name localised to Chinese is its stripped base followed by `-cn.html` |
| LanguageSwitcher.LocalizedCnIsDetected | assets/js/language-switcher.js:94-117 | a Chinese-localised HTML path is detected as a Chinese page |
| LanguageSwitcher.RewriteHref | assets/js/language-switcher.js:61-73 | an href is either kept, or it is present, not skipped, an `.html` page or `/`, and replaced by its localised URL |
| LanguageSwitcher.RewriteHrefCases | assets/js/language-switcher.js:63-73 | a skipped href (missing, empty, `#`, `mailto:`, `tel:`, `javascript:`, `http`) is kept; an href neither ending in `.html` nor equal to `/` is kept; every other href becomes its localised URL |
| LanguageSwitcher.RewriteHrefCnIdempotent | assets/js/language-switcher.js:59-75 | rewriting an href for Chinese twice equals rewriting it once |
| LanguageSwitcher.RewriteHrefKeepsDirectories | assets/js/language-switcher.js:70-72 | every href, rewritten or kept, keeps its number of segments and every segment before the last |
| LanguageSwitcher.ApplyLanguageToAllLinks | assets/js/language-switcher.js:59-75 | every anchor's new href is the rewrite of its old href; nothing else changes |
| LanguageSwitcher.LanguagePage.UpdateToggleButtonDisplay | assets/js/language-switcher.js:78-88 | the button's `data-next-lang` is the opposite language, with the matching text (`中文`/`English`) and title |
| LanguageSwitcher.LanguagePage.Load | assets/js/language-switcher.js:93-103 | with a toggle button, the page's language is stored, every link is rewritten to it, and the button offers the other language; without one (lines 6-9) nothing changes |
| LanguageSwitcher.LanguagePage.OnToggleClick | assets/js/language-switcher.js:106-118 | a click stores the offered language and navigates to the current path localised to it |
| LanguageSwitcher.LoadThenToggle | assets/js/language-switcher.js:93-118 | on an English HTML page, load then click stores `cn` and navigates to a path detected as Chinese |
| DarkModeSwitcher.SetDarkModePreference | assets/js/dark-mode-switcher.js:8-10 | the stored map gains `darkModeEnabled` holding `'true'` or `'false'` for the mode; every other key keeps its value |
| DarkModeSwitcher.GetDarkModePreference | assets/js/dark-mode-switcher.js:13-22 | true exactly for the stored string `'true'`, false exactly for `'false'`, no preference for any other value or none |
| DarkModeSwitcher.ReadBackPreference | assets/js/dark-mode-switcher.js:8-22 | storing a mode and reading it back gives that mode, and every other key is unchanged |
| DarkModeSwitcher.InitialMode | assets/js/dark-mode-switcher.js:54-59 | the initial mode is the stored preference when there is one, else the system's dark-scheme flag |
| DarkModeSwitcher.StoredModeSurvivesReload | assets/js/dark-mode-switcher.js:8-10 | a stored mode is the initial mode on the next load, whatever the system scheme |
| DarkModeSwitcher.BodyClasses | assets/js/dark-mode-switcher.js:30-40 | the body has `dark-mode` iff the mode is enabled; every other class is present iff it was before |
| DarkModeSwitcher.IconClasses | assets/js/dark-mode-switcher.js:33-45 | the icon has `fa-sun` iff enabled and `fa-moon` iff not; every other class is present iff it was before |
| DarkModeSwitcher.BodyClassesRestored | assets/js/dark-mode-switcher.js:30-40 | switching the body's classes to the other mode and back restores them exactly |
| DarkModeSwitcher.IconClassesRestored | assets/js/dark-mode-switcher.js:33-45 | switching the icon's classes to the other mode and back restores them exactly |
| DarkModeSwitcher.DarkModePage.ApplyDarkMode | assets/js/dark-mode-switcher.js:25-49 | the body has `dark-mode` iff enabled, the icon shows `fa-sun` iff enabled and `fa-moon` otherwise, the label and title offer the other mode; only these change, and only by those classes |
| DarkModeSwitcher.DarkModePage.Load | assets/js/dark-mode-switcher.js:51-63 | the page shows the initial mode: the body's and (when present) the icon's classes are switched to it, the label and title offer the other mode, and storage is not written |
| DarkModeSwitcher.DarkModePage.OnToggleClick | assets/js/dark-mode-switcher.js:66-76 | the new mode is the negation of the body's `dark-mode` class; it is shown and stored, and only `darkModeEnabled` is written |
| DarkModeSwitcher.ClickTwice | assets/js/dark-mode-switcher.js:67-76 | two clicks restore the body classes, icon, label and title; storage ends as the old storage with `darkModeEnabled` set to the original mode |
| Lightbox.Candidates | assets/js/lightbox.js:88-92 | the candidate list has no repeats and no empty URL |
| Lightbox.PushNewKeepsDistinct | assets/js/lightbox.js:90-92 | a guarded push keeps the list duplicate-free and free of empty strings, and adds exactly the new non-empty value |
| Lightbox.CandidatesSpec | assets/js/lightbox.js:87-92 | the candidates are exactly the non-empty sources, each once; `data-lb-src` is first when set; `currentSrc` precedes a `src` that repeats neither |
| Lightbox.FirstLoadable | assets/js/lightbox.js:94-104 | the result is a candidate that loads with every earlier candidate failing; it is the error `No candidate image loaded.` exactly when no candidate loads |
| Lightbox.FirstLoadableAfter | assets/js/lightbox.js:94-103 | when the first `i` candidates fail, the choice is the first loading one among the rest |
| Lightbox.CollectCandidates | assets/js/lightbox.js:88-92 | the list built by the three guarded pushes is the candidate list |
| Lightbox.PreloadInOrder | assets/js/lightbox.js:94-104 | the URLs tried are a prefix of the candidates; all but the last failed; success iff the last one tried loads, which is the result; on failure all candidates were tried |
| Lightbox.ChooseBestSrc | assets/js/lightbox.js:87-105 | the chosen source is the first candidate that loads, candidates after it are never tried, and failure means every candidate was tried |
| Lightbox.ClosestOpenable | assets/js/lightbox.js:240 | the index found is the nearest element on the click path that is an unflagged `img` |
| Lightbox.ClosestWrapper | assets/js/lightbox.js:243 | the index found is the nearest element on the click path with class `image` |
| Lightbox.FirstUnflagged | assets/js/lightbox.js:244 | the image found is the first one inside the wrapper without `data-no-lightbox`, and none exactly when all are flagged |
| Lightbox.SelectImage | assets/js/lightbox.js:238-246 | an image chosen by a click is never flagged `data-no-lightbox` |
| Lightbox.SelectImageSpec | assets/js/lightbox.js:238-246 | an image chosen by a click is never flagged; it is on the click path or inside the nearest wrapper; nothing is chosen iff no path element is an unflagged image and the nearest wrapper, if any, holds only flagged images |
| Lightbox.ClickOnImageOpensIt | assets/js/lightbox.js:240 | clicking an unflagged image chooses that image |
| Lightbox.FlaggedImageOutsideWrapper | assets/js/lightbox.js:240-246 | clicking a flagged image with no `.image` wrapper and no other image on the path chooses nothing |
| Lightbox.FlaggedImageInsideWrapper | assets/js/lightbox.js:240-246 | when no element on the click path is an unflagged image, a flagged image whose nearest `.image` wrapper holds an unflagged image chooses that wrapper's first unflagged image, which is a different image |
| Lightbox.Caption | assets/js/lightbox.js:127 | the caption is `data-caption` when non-empty, else `alt` |
| Lightbox.Opening | assets/js/lightbox.js:125-130 | before the source is chosen: open and loading, no image, the image's caption, zoom 1 and pan (0,0), not grabbable, the body's scroll locked |
| Lightbox.Settled | assets/js/lightbox.js:132-142 | success or failure, settling clears loading and resets zoom and pan; only success sets the image source; the open flag, caption and scroll lock are kept |
| Lightbox.Open | assets/js/lightbox.js:124-143 | after opening, the overlay is open, not loading, at zoom 1 and pan (0,0), with the image's caption and the body's scroll locked; the image is the first candidate that loads, or empty when none loads |
| Lightbox.Close | assets/js/lightbox.js:145-150 | closing clears the open flag, image and caption and restores the body's overflow; loading, zoom and pan are kept |
| Lightbox.CloseIdempotent | assets/js/lightbox.js:145-150 | closing twice equals closing once |
| Lightbox.CloseWhileLoading | assets/js/lightbox.js:124-150 | a close while the image is loading leaves the overlay closed, though a source that then loads is still written to it |
| Lightbox.Overlay.ApplyTransform | assets/js/lightbox.js:111-114 | the stage is grabbable exactly when zoomed in |
| Lightbox.Overlay.BeginOpen | assets/js/lightbox.js:125-130 | the state becomes `Opening`: zoom and pan reset, image cleared, caption set, loading and open set, scroll locked |
| Lightbox.Overlay.FinishOpen | assets/js/lightbox.js:132-142 | the state becomes `Settled` for the preload's outcome |
| Lightbox.Overlay.OpenLightboxFor | assets/js/lightbox.js:124-143 | the state becomes `Open` for the image and the loadable set |
| Lightbox.Overlay.CloseLightbox | assets/js/lightbox.js:145-150 | the state becomes `Close` of the old state |
| Lightbox.Overlay.OnOverlayClick | assets/js/lightbox.js:152-154 | a click on the backdrop or the close button closes; any other click changes nothing |
| Lightbox.Overlay.OnKeyDown | assets/js/lightbox.js:155-157 | `Escape` or `Esc` closes, and only while the overlay is open; otherwise nothing changes |
| Lightbox.Overlay.OnMainClick | assets/js/lightbox.js:238-252 | a click in `#main` opens the chosen image, and changes nothing when no image is chosen |

## Left out

- `assets/js/header-loader.js` holds only CSS rules and is not part of this model. `assets/js/footer-loader.js` (fetch and markup injection) is not part of this model either. Its one decision, `footer-cn.html` iff the path contains `-cn.html`, is the rule `PageLang` states.
- Lightbox zoom and pan: wheel, pinch, drag and click-to-zoom, and `clampPan`. These are floating-point geometry over element rectangles. Zoom and pan appear only as the values that opening resets.
- DOM construction, injected CSS, overlay markup, `preventDefault`/`stopPropagation`, the capture phase, and all `console` logging.
- Asynchrony: `preload` and `new Image()` become membership in the set `loadable`. The per-URL error messages are dropped. Only the final error string is kept.
- Lightbox.Overlay.OpenLightboxFor: runs to completion as one step. Events arriving during the `await` are covered only by `CloseWhileLoading`. Two overlapping opens, whose settlements may interleave, are not modelled.
- `window.matchMedia` is the input `systemPrefersDark`. A browser without `matchMedia` is the input `false`. Assigning `window.location.href` is the field `navigation`; no navigation follows.
- `classList` is a set of class names. Token order in the `class`
  attribute is not modelled: remove-then-add moves `fa-sun`/`fa-moon` to
  the end, so `BodyClassesRestored`, `IconClassesRestored` and `ClickTwice`
  restore the set of classes, not the attribute string.
- `localStorage` is a `map<string, string>`; `getItem` returning `null` is a missing key. Storage that throws is not modelled.
- Event registration and `DOMContentLoaded` wiring: each handler is a method, called in the order the page would call it.
- LanguageSwitcher.PreferredLanguage: `getPreferredLanguage` is defined in the script but never called. It is modelled and proved, but no handler uses it.
- LanguageSwitcher.FileName: the test of the last segment against `'/'` is kept, although a `split('/')` piece never contains `/`.
- LanguageSwitcher.LanguagePage.OnToggleClick: requires the toggle button, because the listener is registered only when it exists. The language is the `Lang` value the button carries, since `data-next-lang` is always set on load before a click.
- DarkModeSwitcher.DarkModePage: the toggle button and its `.mode-text` label are taken to exist. Without them the script fails before it registers the click listener, and that failure is not modelled. The icon may be absent (`hasIcon`).

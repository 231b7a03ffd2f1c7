# Language toggle of the inje-care-plan static page

A model of `pages/app.js`, the script that chooses and switches the display language (Italian or English) of the project's static page:

- **Initial language** (`getInitialLang`): a persisted preference wins when, lowercased, it is `"it"` or `"en"`. Otherwise a browser locale starting with `"en"` gives English. Anything else gives Italian, including an absent locale.
- **Applying a language** (`setLang`): an unsupported code is silently ignored. The check is case-sensitive. A supported code is written to three places: the root element's `data-lang` attribute, the storage entry `injecare_lang`, and the `aria-pressed` attribute of each toggle button that exists.
- **Clicks**: the nearest ancestor-or-self element carrying `data-set-lang` is found (`Element.closest`). Its value, unless empty, is applied as a language.
- **Startup**: `setLang(getInitialLang())`.

Files:

- `Ascii.dfy` (module `Ascii`): ASCII lowercasing, standing in for `toLowerCase`, and case-insensitive equality.
- `LangToggle.dfy` (module `LangToggle`):
  - the pure resolution `InitialLang`;
  - the page state as a value (`PageState`) and the specification of `setLang` on it (`Apply`);
  - the `closest` search (`Closest`) and the effect of a click (`ClickEffect`);
  - the class `Page`, whose methods update the four parts of the page in place and are proved equal to those specifications;
  - lemmas on the invariant `Agreed`. It says that the document attribute, the stored value and the pressed state of every present button name the same supported language.

The browser is replaced by parameters:

- `navigator.language` becomes the `locale` argument. `None` means unavailable.
- The storage entry is the `stored` part of the page, read by `Page.Start`.
- A click target is either `NotElement` or the sequence of its ancestor-or-self nodes, each with its optional `data-set-lang` value.

## Model

| member | source | states |
|---|---|---|
| `LangToggle.EmptyCountsAsAbsent` | pages/app.js:6-9 | An empty stored value resolves like an absent one, and an empty locale like an absent one, because the or-with-default operator treats "" and null alike (`OrDefault` is the helper for that operator) |
| `LangToggle.InitialLang` | pages/app.js:5-12 | The result is always `"it"` or `"en"`. It is `"en"` exactly when the stored value spells "en" ignoring case, or when the stored value spells neither code and the locale starts with "en" ignoring case. An absent locale counts as "it" |
| `LangToggle.LocaleMeaning` | pages/app.js:9-10 | The prefix test on the lowercased locale, with an absent or empty locale replaced by "it", holds exactly when the locale's first two characters are "en" ignoring case |
| `LangToggle.StoredUpperCaseEnglish` | pages/app.js:6-7 | A stored `"EN"` gives `"en"` for every locale |
| `LangToggle.LocaleExamples` | pages/app.js:9-11 | With nothing stored: `"en-US"` gives `"en"`, `"fr-FR"` gives `"it"`, and no locale gives `"it"` |
| `LangToggle.Apply` | pages/app.js:14-23 | An unsupported code leaves the page unchanged. A supported code leaves the page agreed on that code: the document attribute and the stored value equal it, and each present button is pressed exactly when its code equals it. `Press` and `AriaBool` write `aria-pressed` as `String(bool)`, that is "true" or "false". The same buttons are present as before |
| `LangToggle.ApplyIdempotent` | pages/app.js:14-23 | Applying a code twice gives the same page as applying it once |
| `LangToggle.ApplyLastWins` | pages/app.js:14-23 | After a supported code is applied, the page no longer depends on any code applied before it |
| `LangToggle.ApplyPreservesAgreed` | pages/app.js:14-23 | An agreed page stays agreed whatever code is applied |
| `LangToggle.ApplyCurrentIsNoOp` | pages/app.js:14-23 | Applying the current language of an agreed page changes nothing |
| `LangToggle.UnsupportedCodesIgnored` | pages/app.js:15 | `"EN"` and `"fr"` leave the page unchanged, because the guard does not lowercase |
| `LangToggle.ReloadKeepsLanguage` | pages/app.js:5-7 | On an agreed page, resolving the initial language from its stored value gives its current language, whatever the locale |
| `LangToggle.Closest` | pages/app.js:28 | Returns the first node on the ancestor-or-self path that carries `data-set-lang` (an empty value included), with no earlier node carrying it. Returns None exactly when no node carries it |
| `LangToggle.ClickEffect` | pages/app.js:26-32 | The effect of one click. A target that is not an element leaves the page unchanged. A click that changes the page leaves it agreed. No click adds or removes a button |
| `LangToggle.ClickAppliesNearestMark` | pages/app.js:28-32 | A click whose nearest marked node holds a non-empty value has the effect of applying that value. The node may be the target itself or any ancestor |
| `LangToggle.ClickWithoutMarkIgnored` | pages/app.js:28-29 | A click with no marked node on its ancestor-or-self path leaves the page unchanged |
| `LangToggle.ClickOnEmptyMarkIgnored` | pages/app.js:28-31 | A click whose nearest marked node holds the empty value leaves the page unchanged, whatever marks lie above that node |
| `LangToggle.ClickBelowEmptyMark` | pages/app.js:28-31 | A click below an empty mark is ignored even when an ancestor further up is marked `it` |
| `LangToggle.ClickIsNoOpOrApply` | pages/app.js:25-33 | Every click either leaves the page unchanged or has the effect of applying some supported code |
| `LangToggle.ClickPreservesAgreed` | pages/app.js:25-33 | A click keeps an agreed page agreed |
| `LangToggle.ClickInsideItalianButton` | pages/app.js:28-32 | A click on an unmarked element inside the element marked `it` has the effect of applying `"it"` |
| `LangToggle.Startup` | pages/app.js:35 | From any page state and any locale, startup leaves the page agreed on the language that `InitialLang` resolves from the page's stored value, with the same buttons present as before |
| `LangToggle.AgreedAfterClicks` | pages/app.js:25-33 | An agreed page stays agreed through any sequence of clicks |
| `LangToggle.SessionAgreed` | pages/app.js:25-35 | After startup and any clicks the page is agreed. A reload with any locale then resumes its current language |
| `LangToggle.Page.SetLang` | pages/app.js:14-23 | Updates the page in place to `Apply` of the old page. For a supported code, the page is then agreed on it |
| `LangToggle.Page.OnClick` | pages/app.js:25-33 | Updates the page in place to `ClickEffect` of the old page and the click. An agreed page stays agreed |
| `LangToggle.Page.Start` | pages/app.js:35 | Updates the page in place to `Startup` of the old page and the locale. The page is then agreed |
| `Ascii.Lower` | pages/app.js:6 | Lowercasing keeps the length and lowercases each character independently |
| `Ascii.LowerEqualsIff` | pages/app.js:6-7 | The lowercase of a string equals a lowercase word exactly when the string spells that word ignoring case |

## Left out

- Registering the click listener (`document.addEventListener`) and the IIFE wrapper. Clicks are given to `Page.OnClick` as values. The `instanceof Element` test becomes the `NotElement` target.
- `querySelector`'s search of the document tree. Each of the two buttons is a single optional slot: the first element marked with that code, or none.
- `Ascii.Lower`: models ASCII lowercasing only, not full Unicode `toLowerCase`. ASCII is enough to decide the comparisons with `"it"` and `"en"` and the `"en"` prefix test for ASCII input. Non-ASCII characters that Unicode would fold to those letters are not modelled.
- The `localStorage` and `navigator` objects, and any exception from storage access (the script does not handle them). Storage is the `stored` value of the page. The locale is a parameter.
- Attributes of the buttons and the root element other than `aria-pressed` and `data-lang`. The script never touches them.

/** The language toggle of the static page: choosing the first language
    from the stored preference and the browser locale, applying a language to
    the document, its storage and its two toggle buttons, and dispatching
    clicks on elements marked with `data-set-lang`. */
module LangToggle {
  import opened Ascii

  datatype Option<T> = None | Some(value: T)

  /** JavaScript's `v || d` on an optional string: null and "" are falsy. */
  function OrDefault(v: Option<string>, d: string): string {
    if v.Some? && v.value != "" then v.value else d
  }

  /** The key under which the preference is persisted; the `stored` part of a
      page state is the storage entry under this key. */
  const StorageKey: string := "injecare_lang"

  /** The only two language codes the page supports. */
  const Supported: set<string> := {"it", "en"}

  /** The language the page starts in when nothing else decides. */
  const DefaultLang: string := "it"

  predicate StartsWith(s: string, prefix: string) {
    prefix <= s
  }

  // ---------------------------------------------------------------------
  // Resolving the initial language
  // ---------------------------------------------------------------------

  /** The stored preference spells `code` when case is ignored. */
  predicate StoredSays(storedPref: Option<string>, code: string) {
    storedPref.Some? && EqualsIgnoringCase(storedPref.value, code)
  }

  /** The browser locale begins with "en" when case is ignored. */
  predicate LocaleIsEnglish(locale: Option<string>) {
    locale.Some? && |locale.value| >= 2 && EqualsIgnoringCase(locale.value[..2], "en")
  }

  /** `getInitialLang`: a stored preference naming a supported language wins
      (whatever its case); otherwise a locale starting with "en" gives English;
      everything else, including no locale at all, gives Italian. */
  function InitialLang(storedPref: Option<string>, locale: Option<string>): (r: string)
    ensures r in Supported
    ensures r == "en" <==> StoredSays(storedPref, "en")
                           || (!StoredSays(storedPref, "it") && LocaleIsEnglish(locale))
  {
    var fromStorage := Lower(OrDefault(storedPref, ""));
    LowerEqualsIff(OrDefault(storedPref, ""), "it");
    LowerEqualsIff(OrDefault(storedPref, ""), "en");
    if fromStorage in Supported then
      fromStorage
    else
      var nav := Lower(OrDefault(locale, DefaultLang));
      LocaleMeaning(locale);
      if StartsWith(nav, "en") then "en" else DefaultLang
  }

  /** An empty stored value or an empty locale is treated exactly as an
      absent one. */
  lemma EmptyCountsAsAbsent(storedPref: Option<string>, locale: Option<string>)
    ensures InitialLang(Some(""), locale) == InitialLang(None, locale)
    ensures InitialLang(storedPref, Some("")) == InitialLang(storedPref, None)
  {
  }

  /** The prefix test on the lowercased locale (an absent or empty locale
      standing for "it") is the case-insensitive "en" prefix. */
  lemma LocaleMeaning(locale: Option<string>)
    ensures StartsWith(Lower(OrDefault(locale, DefaultLang)), "en") <==> LocaleIsEnglish(locale)
  {
    var nav := OrDefault(locale, DefaultLang);
    if |nav| >= 2 {
      LowerPrefix(nav, 2);
      LowerEqualsIff(nav[..2], "en");
    }
  }

  // ---------------------------------------------------------------------
  // The page state and applying a language
  // ---------------------------------------------------------------------

  /** A toggle button that is present in the document, with the value of its
      `aria-pressed` attribute, if it has one. */
  datatype Button = Button(ariaPressed: Option<string>)

  /** What the toggle reads and writes: the `data-lang` attribute of the root
      element, the persisted preference, and the first button marked
      `data-set-lang='it'` and the first marked `data-set-lang='en'`, each of
      which may be missing. */
  datatype PageState = PageState(
    docLang: Option<string>,
    stored: Option<string>,
    itBtn: Option<Button>,
    enBtn: Option<Button>)

  /** `String(b)` for a boolean. */
  function AriaBool(b: bool): string {
    if b then "true" else "false"
  }

  /** A present button whose code is `code` shows as pressed exactly when
      `code` is the current language `lang`. */
  predicate ShowsPressed(btn: Option<Button>, code: string, lang: string) {
    btn.Some? ==> btn.value.ariaPressed == Some(AriaBool(code == lang))
  }

  /** The page agrees on one supported language: the document attribute and
      the stored preference hold it and each present button reflects it. */
  predicate Agreed(s: PageState) {
    && s.docLang.Some?
    && s.docLang.value in Supported
    && s.stored == s.docLang
    && ShowsPressed(s.itBtn, "it", s.docLang.value)
    && ShowsPressed(s.enBtn, "en", s.docLang.value)
  }

  /** The current language of an agreed page. */
  function CurrentLang(s: PageState): (lang: string)
    requires Agreed(s)
    ensures lang in Supported
  {
    s.docLang.value
  }

  /** Set the `aria-pressed` attribute of a button, if the button exists. */
  function Press(btn: Option<Button>, pressed: bool): (r: Option<Button>)
    ensures r.Some? <==> btn.Some?
  {
    match btn
    case None => None
    case Some(b) => Some(b.(ariaPressed := Some(AriaBool(pressed))))
  }

  /** `setLang` on page states: an unsupported code leaves the page as it is;
      a supported one leaves it agreed on that code, with the same buttons
      present as before. */
  function Apply(s: PageState, lang: string): (t: PageState)
    ensures lang !in Supported ==> t == s
    ensures lang in Supported ==> Agreed(t) && CurrentLang(t) == lang
    ensures t.itBtn.Some? <==> s.itBtn.Some?
    ensures t.enBtn.Some? <==> s.enBtn.Some?
  {
    if lang !in Supported then s
    else PageState(Some(lang), Some(lang), Press(s.itBtn, lang == "it"), Press(s.enBtn, lang == "en"))
  }

  /** Applying a language twice is the same as applying it once. */
  lemma ApplyIdempotent(s: PageState, lang: string)
    ensures Apply(Apply(s, lang), lang) == Apply(s, lang)
  {
  }

  /** Only the last supported language applied matters. */
  lemma ApplyLastWins(s: PageState, a: string, b: string)
    requires b in Supported
    ensures Apply(Apply(s, a), b) == Apply(s, b)
  {
  }

  /** An agreed page stays agreed whatever code is applied. */
  lemma ApplyPreservesAgreed(s: PageState, lang: string)
    requires Agreed(s)
    ensures Agreed(Apply(s, lang))
  {
  }

  /** Applying the current language of an agreed page changes nothing. */
  lemma ApplyCurrentIsNoOp(s: PageState)
    requires Agreed(s)
    ensures Apply(s, CurrentLang(s)) == s
  {
    var lang := CurrentLang(s);
    assert Press(s.itBtn, lang == "it") == s.itBtn;
    assert Press(s.enBtn, lang == "en") == s.enBtn;
  }

  /** On the next page load the stored preference of an agreed page wins over
      any locale, so the page comes back in the language it was left in. */
  lemma ReloadKeepsLanguage(s: PageState, locale: Option<string>)
    requires Agreed(s)
    ensures InitialLang(s.stored, locale) == CurrentLang(s)
  {
    var lang := CurrentLang(s);
    assert EqualsIgnoringCase(lang, lang);
    if lang == "it" {
      assert !EqualsIgnoringCase(lang, "en") by { assert LowerChar(lang[0]) != LowerChar("en"[0]); }
    }
  }

  // ---------------------------------------------------------------------
  // Clicks
  // ---------------------------------------------------------------------

  /** An element on the path from the click target to the root, with the
      value of its `data-set-lang` attribute, if it has one. */
  datatype Node = Node(dataSetLang: Option<string>)

  /** The target of a click: either not an element, or an element given by
      its ancestor-or-self path, the target first and the root last. */
  datatype Target = NotElement | Element(path: seq<Node>)

  /** `Element.closest("[data-set-lang]")`: the position of the nearest node on
      the path that carries the attribute (with any value, the empty one
      included), or None when no node does. */
  function Closest(path: seq<Node>): (r: Option<nat>)
    ensures r.Some? ==> r.value < |path| && path[r.value].dataSetLang.Some?
    ensures r.Some? ==> forall j :: 0 <= j < r.value ==> path[j].dataSetLang.None?
    ensures r.None? <==> forall j :: 0 <= j < |path| ==> path[j].dataSetLang.None?
  {
    if path == [] then None
    else if path[0].dataSetLang.Some? then Some(0)
    else match Closest(path[1..])
      case None => None
      case Some(k) => Some(k + 1)
  }

  /** The effect of one click on the page: ignored for a non-element target,
      when no node on the path is marked, or when the nearest mark is empty;
      otherwise the nearest mark is applied as a language. A click that changes
      the page leaves it agreed, and never adds or removes a button. */
  function ClickEffect(s: PageState, t: Target): (r: PageState)
    ensures t.NotElement? ==> r == s
    ensures r != s ==> Agreed(r)
    ensures r.itBtn.Some? <==> s.itBtn.Some?
    ensures r.enBtn.Some? <==> s.enBtn.Some?
  {
    match t
    case NotElement => s
    case Element(path) =>
      match Closest(path)
      case None => s
      case Some(k) =>
        var lang := path[k].dataSetLang.value;
        if lang == "" then s else Apply(s, lang)
  }

  /** A click whose nearest marked node on the path (the target itself or an
      ancestor) holds a non-empty `lang` has the effect of applying `lang`. */
  lemma ClickAppliesNearestMark(s: PageState, path: seq<Node>, k: nat, lang: string)
    requires k < |path| && path[k].dataSetLang == Some(lang) && lang != ""
    requires forall j :: 0 <= j < k ==> path[j].dataSetLang.None?
    ensures ClickEffect(s, Element(path)) == Apply(s, lang)
  {
  }

  /** A click with no marked node on the path leaves the page as it is. */
  lemma ClickWithoutMarkIgnored(s: PageState, path: seq<Node>)
    requires forall j :: 0 <= j < |path| ==> path[j].dataSetLang.None?
    ensures ClickEffect(s, Element(path)) == s
  {
  }

  /** A click whose nearest marked node (the target itself or an ancestor)
      holds the empty value leaves the page as it is, whatever marks lie
      further up the path. */
  lemma ClickOnEmptyMarkIgnored(s: PageState, path: seq<Node>, k: nat)
    requires k < |path| && path[k].dataSetLang == Some("")
    requires forall j :: 0 <= j < k ==> path[j].dataSetLang.None?
    ensures ClickEffect(s, Element(path)) == s
  {
  }

  /** Every click either leaves the page as it is or applies some code. */
  lemma ClickIsNoOpOrApply(s: PageState, t: Target)
    ensures ClickEffect(s, t) == s
            || exists lang :: lang in Supported && ClickEffect(s, t) == Apply(s, lang)
  {
    if t.Element? && Closest(t.path).Some? {
      var lang := t.path[Closest(t.path).value].dataSetLang.value;
      if lang != "" && lang in Supported {
        assert ClickEffect(s, t) == Apply(s, lang);
      }
    }
  }

  /** A click keeps an agreed page agreed. */
  lemma ClickPreservesAgreed(s: PageState, t: Target)
    requires Agreed(s)
    ensures Agreed(ClickEffect(s, t))
  {
    if t.Element? && Closest(t.path).Some? {
      ApplyPreservesAgreed(s, t.path[Closest(t.path).value].dataSetLang.value);
    }
  }

  // ---------------------------------------------------------------------
  // Startup and a whole session
  // ---------------------------------------------------------------------

  /** The startup call `setLang(getInitialLang())`, reading the preference
      from the page's own storage. */
  function Startup(s: PageState, locale: Option<string>): (t: PageState)
    ensures Agreed(t)
    ensures CurrentLang(t) == InitialLang(s.stored, locale)
    ensures t.itBtn.Some? <==> s.itBtn.Some?
    ensures t.enBtn.Some? <==> s.enBtn.Some?
  {
    Apply(s, InitialLang(s.stored, locale))
  }

  /** The page after a sequence of clicks, in order. */
  function AfterClicks(s: PageState, clicks: seq<Target>): PageState
    decreases |clicks|
  {
    if clicks == [] then s else AfterClicks(ClickEffect(s, clicks[0]), clicks[1..])
  }

  /** Once the page has started, it stays agreed on one supported language
      through any sequence of clicks. */
  lemma {:induction false} AgreedAfterClicks(s: PageState, clicks: seq<Target>)
    requires Agreed(s)
    ensures Agreed(AfterClicks(s, clicks))
    decreases |clicks|
  {
    if clicks != [] {
      ClickPreservesAgreed(s, clicks[0]);
      AgreedAfterClicks(ClickEffect(s, clicks[0]), clicks[1..]);
    }
  }

  /** From any page state and any locale, startup followed by any clicks
      leaves the page agreed, and a reload then resumes its language. */
  lemma SessionAgreed(s: PageState, locale: Option<string>, clicks: seq<Target>, nextLocale: Option<string>)
    ensures Agreed(AfterClicks(Startup(s, locale), clicks))
    ensures InitialLang(AfterClicks(Startup(s, locale), clicks).stored, nextLocale)
            == CurrentLang(AfterClicks(Startup(s, locale), clicks))
  {
    AgreedAfterClicks(Startup(s, locale), clicks);
    ReloadKeepsLanguage(AfterClicks(Startup(s, locale), clicks), nextLocale);
  }

  // ---------------------------------------------------------------------
  // The page as mutable state
  // ---------------------------------------------------------------------

  /** The live page: the root element's `data-lang`, the storage entry under
      `StorageKey` and the two toggle buttons, updated in place. */
  class Page {
    var docLang: Option<string>
    var stored: Option<string>
    var itBtn: Option<Button>
    var enBtn: Option<Button>

    function State(): PageState
      reads this
    {
      PageState(docLang, stored, itBtn, enBtn)
    }

    constructor (initial: PageState)
      ensures State() == initial
    {
      docLang := initial.docLang;
      stored := initial.stored;
      itBtn := initial.itBtn;
      enBtn := initial.enBtn;
    }

    /** `setLang(lang)`. */
    method SetLang(lang: string)
      modifies this
      ensures State() == Apply(old(State()), lang)
      ensures lang in Supported ==> Agreed(State()) && CurrentLang(State()) == lang
    {
      if lang !in Supported {
        return;
      }
      docLang := Some(lang);
      stored := Some(lang);
      if itBtn.Some? {
        itBtn := Some(itBtn.value.(ariaPressed := Some(AriaBool(lang == "it"))));
      }
      if enBtn.Some? {
        enBtn := Some(enBtn.value.(ariaPressed := Some(AriaBool(lang == "en"))));
      }
    }

    /** The click listener's body. */
    method OnClick(t: Target)
      modifies this
      ensures State() == ClickEffect(old(State()), t)
      ensures old(Agreed(State())) ==> Agreed(State())
    {
      if Agreed(State()) {
        ClickPreservesAgreed(State(), t);
      }
      if t.NotElement? {
        return;
      }
      var btn := Closest(t.path);
      if btn.None? {
        return;
      }
      var lang := t.path[btn.value].dataSetLang.value;
      if lang == "" {
        return;
      }
      SetLang(lang);
    }

    /** The startup call `setLang(getInitialLang())`. */
    method Start(locale: Option<string>)
      modifies this
      ensures State() == Startup(old(State()), locale)
      ensures Agreed(State())
    {
      var lang := InitialLang(stored, locale);
      SetLang(lang);
    }
  }

  // ---------------------------------------------------------------------
  // Worked cases
  // ---------------------------------------------------------------------

  /** A stored "EN" gives English whatever the locale. */
  lemma StoredUpperCaseEnglish(locale: Option<string>)
    ensures InitialLang(Some("EN"), locale) == "en"
  {
    assert EqualsIgnoringCase("EN", "en");
  }

  /** With nothing stored, "en-US" gives English and "fr-FR" Italian. */
  lemma LocaleExamples()
    ensures InitialLang(None, Some("en-US")) == "en"
    ensures InitialLang(None, Some("fr-FR")) == "it"
    ensures InitialLang(None, None) == "it"
  {
    assert "en-US"[..2] == "en";
    assert "fr-FR"[..2] == "fr";
    assert LowerChar('f') != LowerChar('e');
  }

  /** The guard of `setLang` is case-sensitive: "EN" and "fr" change nothing. */
  lemma UnsupportedCodesIgnored(s: PageState)
    ensures Apply(s, "EN") == s && Apply(s, "fr") == s
  {
  }

  /** A click on an unmarked element whose parent holds an empty mark is
      ignored, even though the grandparent is marked "it". */
  lemma ClickBelowEmptyMark(s: PageState)
    ensures ClickEffect(s, Element([Node(None), Node(Some("")), Node(Some("it"))])) == s
  {
    ClickOnEmptyMarkIgnored(s, [Node(None), Node(Some("")), Node(Some("it"))], 1);
  }

  /** A click on an unmarked element inside the button marked "it" applies
      Italian. */
  lemma ClickInsideItalianButton(s: PageState)
    ensures ClickEffect(s, Element([Node(None), Node(Some("it")), Node(None)])) == Apply(s, "it")
  {
    ClickAppliesNearestMark(s, [Node(None), Node(Some("it")), Node(None)], 1, "it");
  }
}

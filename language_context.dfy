/** The interface language: a two-state switch and a translation lookup that falls back to the key. */
module LanguageContext {

  datatype Language = En | Hi

  const EnTable: map<string, string> := map[
    "nav.home" := "Home",
    "nav.politics" := "Politics",
    "nav.sports" := "Sports",
    "nav.business" := "Business",
    "nav.entertainment" := "Entertainment",
    "nav.technology" := "Technology",
    "nav.videos" := "Videos",
    "nav.live" := "Live",
    "breaking.label" := "BREAKING",
    "search.placeholder" := "Search news...",
    "newsletter.title" := "Newsletter",
    "newsletter.description" := "Subscribe to get latest news updates",
    "newsletter.button" := "Subscribe",
    "admin.dashboard" := "Admin Dashboard",
    "latest.news" := "Latest News",
    "featured.articles" := "Featured Articles",
    "live.streams" := "Live Streams",
    "categories" := "Categories",
    "date.format" := "en-US"
  ]

  const HiTable: map<string, string> := map[
    "nav.home" := "होम",
    "nav.politics" := "राजनीति",
    "nav.sports" := "खेल",
    "nav.business" := "व्यापार",
    "nav.entertainment" := "मनोरंजन",
    "nav.technology" := "तकनीक",
    "nav.videos" := "वीडियो",
    "nav.live" := "लाइव",
    "breaking.label" := "ब्रेकिंग",
    "search.placeholder" := "समाचार खोजें...",
    "newsletter.title" := "न्यूज़लेटर",
    "newsletter.description" := "नवीनतम समाचार अपडेट के लिए सब्सक्राइब करें",
    "newsletter.button" := "सब्सक्राइब करें",
    "admin.dashboard" := "एडमिन डैशबोर्ड",
    "latest.news" := "ताज़ा खबरें",
    "featured.articles" := "फीचर्ड आर्टिकल्स",
    "live.streams" := "लाइव स्ट्रीम",
    "categories" := "श्रेणियां",
    "date.format" := "hi-IN"
  ]

  /** `translations[language]`. */
  function Table(language: Language): map<string, string> {
    match language
    case En => EnTable
    case Hi => HiTable
  }

  /** The switch `toggleLanguage` makes. */
  function Toggled(language: Language): Language {
    if language == En then Hi else En
  }

  /** `translations[language][key] || key`: a present, non-empty entry, or else the key itself. */
  function Translate(language: Language, key: string): string {
    var table := Table(language);
    if key in table && table[key] != "" then table[key] else key
  }

  /** The translation provider's state. */
  class LanguageProvider {
    var language: Language

    /** The provider starts in English. */
    constructor ()
      ensures language == En
    {
      language := En;
    }

    /** `toggleLanguage`: English becomes Hindi and Hindi becomes English. */
    method ToggleLanguage()
      modifies this
      ensures language == Toggled(old(language))
    {
      language := Toggled(language);
    }

    /** `t`: the lookup in the current language. */
    function T(key: string): string
      reads this
    {
      Translate(language, key)
    }
  }

  // ---------------------------------------------------------------------------
  // Properties

  /** The switch has two states: it always changes the language, and toggling twice is the identity. */
  lemma ToggledInvolution(language: Language)
    ensures Toggled(language) != language
    ensures Toggled(Toggled(language)) == language
  {
  }

  /** Both tables translate the same keys, and none of their entries is empty. */
  lemma TablesAgreeOnKeys()
    ensures EnTable.Keys == HiTable.Keys
    ensures forall key :: key in EnTable ==> EnTable[key] != "" && HiTable[key] != ""
  {
  }

  /** A key of the tables is translated to its entry, and any other key is returned as it is. */
  lemma TranslateLookup(language: Language, key: string)
    ensures key in Table(language) ==> Translate(language, key) == Table(language)[key]
    ensures key !in Table(language) ==> Translate(language, key) == key
  {
    TablesAgreeOnKeys();
  }

  /** A key gets a translation different from itself in one language exactly when it does in the other. */
  lemma TranslatableInBoth(key: string)
    ensures Translate(En, key) != key <==> Translate(Hi, key) != key
    ensures Translate(En, key) != key <==> key in EnTable
  {
    TablesAgreeOnKeys();
    if key in EnTable {
      EntriesDifferFromKeys(key);
    }
  }

  /** No entry of either table is its own key. */
  lemma EntriesDifferFromKeys(key: string)
    requires key in EnTable
    ensures EnTable[key] != key && HiTable[key] != key
  {
  }

  /** Two toggles of a provider give back the language it had, and the lookup follows the language. */
  method ToggleTwice(p: LanguageProvider, key: string)
    modifies p
    ensures p.language == old(p.language)
    ensures p.T(key) == old(p.T(key))
  {
    p.ToggleLanguage();
    p.ToggleLanguage();
  }
}

/**
  The main screen's interactor: which input and output languages to show at
  start-up, saving the user's choice, and where the language catalog comes
  from and how it is post-processed.
 */
module MainScreen {
  import opened Wrappers
  import opened Const
  import opened Entities
  import opened Services
  import opened Utils

  /** `iterator().next()` on an empty key set throws `NoSuchElementException`. */
  datatype LookupError = NoSuchElement

  class MainInteractor {
    const db: DbLanguagesService

    constructor (db: DbLanguagesService)
      ensures this.db == db
    {
      this.db := db;
    }

    /** The saved input language, or automatic detection when nothing is saved. */
    function GetInputLang(): (lang: string)
      reads db
      ensures db.AreLangsSaved() ==> lang == db.saved.value.inputLang
      ensures !db.AreLangsSaved() ==> lang == LangCodeAuto
    {
      if db.AreLangsSaved() then db.GetSelectedLangs().inputLang else LangCodeAuto
    }

    /**
      The saved output language; with nothing saved, the catalog's first key
      for an English-speaking user and English for everyone else.
     */
    function GetOutputLang(languages: Languages): (r: Result<string, LookupError>)
      reads db, languages
      ensures db.AreLangsSaved() ==> r == Success(db.saved.value.outputLang)
      ensures !db.AreLangsSaved() && languages.userLanguageCode != LangCodeEn ==> r == Success(LangCodeEn)
      ensures !db.AreLangsSaved() && languages.userLanguageCode == LangCodeEn && languages.languages != [] ==>
                r == Success(languages.languages[0].code)
      ensures r.Failure? <==>
                !db.AreLangsSaved() && languages.userLanguageCode == LangCodeEn && languages.languages == []
    {
      if db.AreLangsSaved() then
        Success(db.GetSelectedLangs().outputLang)
      else if languages.userLanguageCode == LangCodeEn then
        if languages.languages == [] then Failure(NoSuchElement) else Success(languages.languages[0].code)
      else
        Success(LangCodeEn)
    }

    /** Stores the pair as given; afterwards both getters return exactly these codes. */
    method SaveLangs(inputLang: string, outputLang: string)
      modifies db
      ensures db.saved == Some(LangPair(inputLang, outputLang))
      ensures GetInputLang() == inputLang
      ensures forall languages: Languages :: GetOutputLang(languages) == Success(outputLang)
    {
      db.SaveLangs(inputLang, outputLang);
    }

    /**
      Chooses the catalog source and post-processes what it delivers.
      `preferred` is the user's preferred-languages catalog, `deviceLocale`
      the device's language code and `netReply` what the catalog service
      delivers for that locale (`None` when the request fails). The catalog
      comes from the network exactly when the device locale is one of the
      preferred languages; on success its map is reordered by display name
      and its user language code set to the device locale, in place.
     */
    method GetLanguages(preferred: Languages, deviceLocale: string, netReply: Option<Languages>)
      returns (r: Option<Languages>)
      modifies preferred, if netReply.Some? then {netReply.value} else {}
      ensures deviceLocale in Keys(old(preferred.languages)) ==> r == netReply
      ensures deviceLocale !in Keys(old(preferred.languages)) ==> r == Some(preferred)
      ensures r.Some? ==> SortedByName(r.value.languages)
      ensures r.Some? ==> multiset(r.value.languages) == multiset(old(r.value.languages))
      ensures r.Some? ==> AsMap(r.value.languages) == AsMap(old(r.value.languages))
      ensures r.Some? ==> r.value.userLanguageCode == deviceLocale
      ensures r.None? || r.value != preferred ==> unchanged(preferred)
      ensures netReply.Some? && (r.None? || r.value != netReply.value) ==> unchanged(netReply.value)
      ensures r.Some? && !db.AreLangsSaved() && deviceLocale != LangCodeEn ==>
                GetOutputLang(r.value) == Success(LangCodeEn)
      ensures r.Some? && !db.AreLangsSaved() && deviceLocale == LangCodeEn && r.value.languages != [] ==>
                OutputIsLeastNamed(r.value, GetOutputLang(r.value))
    {
      var source: Option<Languages>;
      if deviceLocale in Keys(preferred.languages) {
        source := netReply;
      } else {
        source := Some(preferred);
      }
      if source.Some? {
        var languages := source.value;
        var sortedLanguages := SortByValues(languages.languages);
        SortKeepsMap(languages.languages);
        languages.SetLanguages(sortedLanguages);
        languages.SetUserLanguageCode(deviceLocale);
        if !db.AreLangsSaved() && deviceLocale == LangCodeEn && sortedLanguages != [] {
          FallbackIsLeastNamed(this, languages);
        }
      }
      r := source;
    }
  }

  /**
    `out` names a catalog language whose display name comes first: it is a
    key of the catalog and no other language's name is below its own.
   */
  ghost predicate OutputIsLeastNamed(languages: Languages, out: Result<string, LookupError>)
    reads languages
  {
    && out.Success?
    && exists e :: e in languages.languages && e.code == out.value
         && forall other :: other in languages.languages ==> NameLeq(e.name, other.name)
  }

  /**
    With nothing saved and an English-speaking user, a name-sorted catalog
    yields as output the language whose display name comes first.
   */
  lemma FallbackIsLeastNamed(interactor: MainInteractor, languages: Languages)
    requires !interactor.db.AreLangsSaved()
    requires languages.userLanguageCode == LangCodeEn
    requires languages.languages != [] && SortedByName(languages.languages)
    ensures OutputIsLeastNamed(languages, interactor.GetOutputLang(languages))
  {
    FirstIsLeast(languages.languages);
    assert languages.languages[0] in languages.languages;
  }

  /** An example: nothing saved, catalog {en: English, es: Spanish}, a French user. */
  method OutputForFrenchUser() returns (out: Result<string, LookupError>)
    ensures out == Success(LangCodeEn)
  {
    var db := new DbLanguagesService();
    var interactor := new MainInteractor(db);
    var catalog: OrderedMap := [Entry("en", "English"), Entry("es", "Spanish")];
    var languages := new Languages(catalog, "fr");
    out := interactor.GetOutputLang(languages);
  }
}

# Main-screen language selection of a Yandex-Translate client

This project models the language-selection rules of the translation app's
main screen, `MainInteractor`, and proves them in Dafny:

- **Input language** (`getInputLang`): the saved input language, or the
  automatic-detection code when no pair is saved.
- **Output language** (`getOutputLang`): the saved output language. When no
  pair is saved, the result depends on the catalog's user language code. For
  English (`en`) it is the first key of the catalog. For any other code it is
  English. An empty catalog with `en` makes `iterator().next()` throw, so it
  is modelled as `Failure(NoSuchElement)`.
- **Saving the pair** (`saveLangs`): both codes go to the database service
  unchanged, and nothing else changes.
- **Catalog** (`getLanguages`): the catalog is fetched from the network
  exactly when the device locale is a key of the user's preferred-languages
  catalog. Otherwise the preferred catalog itself is used. On success, that
  object is changed in place: its map is replaced by the same entries
  ordered by display name, and its user language code is set to the device
  locale.

Files (one module each):

- `wrappers.dfy`: `Option` and `Result`.
- `const.dfy`: the two fallback codes, `LangCodeEn` and `LangCodeAuto`.
- `entities.dfy`: the `Languages` catalog class, the `LangPair` datatype,
  and `OrderedMap`. An `OrderedMap` stands for a `LinkedHashMap<String, String>`:
  a sequence of (code, name) entries whose codes are all distinct.
- `services.dfy`: `DbLanguagesService`, a class that holds at most one saved pair.
- `utils.dfy`: `SortByValues` (reordering by display name) and the name order.
- `main_interactor.dfy`: the `MainInteractor` class and the lemmas about it.

The end-to-end result is in the contract of `GetLanguages`. Suppose nothing is
saved and the device locale is English. Then the output language that
`GetOutputLang` picks from the returned catalog is the language whose display
name sorts first.

Two details of the output fallback, as the code has them:

- The fallback reads `languages.getUserLanguageCode()` (MainInteractor.java:43),
  and `getLanguages` sets that field to the device locale (MainInteractor.java:71).
  The model takes the user language code from the `Languages` object, as the code does.
- The fallback is the first key in map order (MainInteractor.java:45). After
  `getLanguages`, that order is by display name, not by code.

## Model

| member | source | states |
|---|---|---|
| MainScreen.MainInteractor.GetInputLang | app/src/main/java/com/vladimirkondenko/yamblz/screens/main/MainInteractor.java:35-37 | with a pair saved, the result is its input language; with none saved, it is the automatic-detection code |
| MainScreen.MainInteractor.GetOutputLang | app/src/main/java/com/vladimirkondenko/yamblz/screens/main/MainInteractor.java:39-51 | with a pair saved, the saved output language, whatever the catalog; with none saved, English unless the user language code is English, in which case the first catalog key; it fails exactly when nothing is saved, the user code is English and the catalog is empty |
| MainScreen.MainInteractor.SaveLangs | app/src/main/java/com/vladimirkondenko/yamblz/screens/main/MainInteractor.java:53-55 | only the database changes; it then holds exactly the two codes given, and afterwards GetInputLang returns the input code and GetOutputLang returns the output code for every catalog |
| MainScreen.MainInteractor.GetLanguages | app/src/main/java/com/vladimirkondenko/yamblz/screens/main/MainInteractor.java:57-74 | the network reply is used exactly when the device locale is a preferred key, and the preferred catalog otherwise; a failed reply yields no catalog and changes nothing; on success, only the chosen catalog changes: its map becomes a name-sorted permutation of its entries, with the same code-to-name map, and its user code becomes the device locale; with nothing saved, the output is English for a non-English locale, and for an English locale it is the catalog language whose name sorts first |
| MainScreen.FallbackIsLeastNamed | app/src/main/java/com/vladimirkondenko/yamblz/screens/main/MainInteractor.java:43-45 | with nothing saved, an English user code and a non-empty name-sorted catalog, the output language is a catalog key whose display name is not above any other name |
| MainScreen.OutputForFrenchUser | app/src/main/java/com/vladimirkondenko/yamblz/screens/main/MainInteractor.java:43-48 | with nothing saved, the catalog {en: English, es: Spanish} and user code fr, the output language is English |
| Utils.SortByValues | app/src/main/java/com/vladimirkondenko/yamblz/screens/main/MainInteractor.java:69 | the result is ordered by display name and holds the same entries as the input, with the same multiplicities |
| Utils.SortKeepsMap | app/src/main/java/com/vladimirkondenko/yamblz/screens/main/MainInteractor.java:69-70 | sorting keeps the catalog the same code-to-name map and the same key set |
| Entities.Languages.SetLanguages | app/src/main/java/com/vladimirkondenko/yamblz/screens/main/MainInteractor.java:70 | replaces the map and keeps the user language code |
| Entities.Languages.SetUserLanguageCode | app/src/main/java/com/vladimirkondenko/yamblz/screens/main/MainInteractor.java:71 | replaces the user language code and keeps the map |
| Services.DbLanguagesService.SaveLangs | app/src/main/java/com/vladimirkondenko/yamblz/screens/main/MainInteractor.java:54 | the saved pair becomes exactly the two codes given |

## Left out

- The threading in `getLanguages` is not modelled: `subscribeOn` and `observeOn` switch threads. The result is a plain return value, and the success callback runs synchronously.
- Android's `Context` and the helpers `LanguageUtils.getInputLanguages` and `LanguageUtils.getDeviceLocale`, which are not modelled, become parameters of `GetLanguages`: the preferred catalog and the device locale.
- `NetLanguagesService` becomes the parameter `netReply`. It stands for what the service delivers for the device locale, and `None` stands for a failed request. How the request is made is not part of this model.
- The two `Const` values are assumed: `LANG_CODE_EN` = "en" and `LANG_CODE_AUTO` = "auto". No proof depends on "auto".
- Utils.SortByValues: `Utils.sortByValues` is not modelled, so its comparator is an assumption. The model orders names by code point, character by character, with a proper prefix first. This agrees with Java's `String.compareTo` on text without supplementary characters (above U+FFFF); `compareTo` compares UTF-16 code units instead. The model's body is an insertion sort, and only its contract is claimed: sorted by name, and the same entries. `GetLanguages` promises only that contract too, so which of two equal names comes first is left open.
- The Java `DbLanguagesService` and `Languages` are not modelled; the classes of those names stand in for them. The database class stores exactly what it is given. The `Languages` class has only the two fields that `MainInteractor` reads and writes.
- Java `null` is not modelled. A null user language code would make the `switch` throw, and a null map would do the same; here, strings and maps are always present.
- The other screens, the Dagger modules and the test wiring are not modelled: `TranslationFragment`, `HistoryFragment`, `TranslationModule` and `TestMainModule`. They hold UI, event-bus and dependency-injection code. This includes the debounce, the input-length filter and the error-message switch of the translation screen.

/**
  The entities the main screen works with: a language catalog (`Languages`,
  an ordered code -> display-name map stamped with the user's language code)
  and the saved input/output language pair.
 */
module Entities {

  /** One catalog entry: a language code and its display name. */
  datatype Entry = Entry(code: string, name: string)

  /** No two entries share a code, as in a `LinkedHashMap`. */
  ghost predicate DistinctCodes(s: seq<Entry>) {
    forall i, j :: 0 <= i < j < |s| ==> s[i].code != s[j].code
  }

  /** An insertion-ordered map from language code to display name. */
  type OrderedMap = s: seq<Entry> | DistinctCodes(s) witness []

  /** The key set of an ordered map. */
  function Keys(s: seq<Entry>): set<string> {
    set e | e in s :: e.code
  }

  /** The code -> name map an ordered map stands for, forgetting the order. */
  function AsMap(s: seq<Entry>): map<string, string> {
    if s == [] then map[] else AsMap(s[1..])[s[0].code := s[0].name]
  }

  /** AsMap has exactly the keys of the entries and maps each code to its entry's name. */
  lemma {:induction false} AsMapEntries(s: OrderedMap)
    ensures AsMap(s).Keys == Keys(s)
    ensures forall e :: e in s ==> AsMap(s)[e.code] == e.name
  {
    if s != [] {
      var t: OrderedMap := s[1..];
      AsMapEntries(t);
      assert Keys(s) == Keys(t) + {s[0].code} by {
        assert forall e :: e in s <==> e in t || e == s[0];
      }
      forall e | e in s
        ensures AsMap(s)[e.code] == e.name
      {
        if e != s[0] {
          var i :| 0 <= i < |s| && s[i] == e;
          assert i > 0;
          assert e.code != s[0].code;
        }
      }
    }
  }

  /** Two ordered maps holding the same entries, in whatever order, are the same map. */
  lemma SameEntriesSameMap(s: OrderedMap, t: OrderedMap)
    requires forall e :: e in s <==> e in t
    ensures AsMap(s) == AsMap(t)
  {
    AsMapEntries(s);
    AsMapEntries(t);
    assert Keys(s) == Keys(t);
    forall k | k in AsMap(s)
      ensures AsMap(s)[k] == AsMap(t)[k]
    {
      var e :| e in s && e.code == k;
    }
  }

  /** The user's last selected pair of languages. */
  datatype LangPair = LangPair(inputLang: string, outputLang: string)

  /**
    A language catalog. `getLanguages` replaces its map and its user
    language code in place, through the two setters.
   */
  class Languages {
    var languages: OrderedMap
    var userLanguageCode: string

    constructor (languages: OrderedMap, userLanguageCode: string)
      ensures this.languages == languages && this.userLanguageCode == userLanguageCode
    {
      this.languages := languages;
      this.userLanguageCode := userLanguageCode;
    }

    method SetLanguages(languages: OrderedMap)
      modifies this
      ensures this.languages == languages
      ensures userLanguageCode == old(userLanguageCode)
    {
      this.languages := languages;
    }

    method SetUserLanguageCode(userLanguageCode: string)
      modifies this
      ensures this.userLanguageCode == userLanguageCode
      ensures languages == old(languages)
    {
      this.userLanguageCode := userLanguageCode;
    }
  }
}

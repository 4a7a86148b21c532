/** The local store of the user's last selected language pair. */
module Services {
  import opened Wrappers
  import opened Entities

  /** A database service that keeps at most one saved pair. */
  class DbLanguagesService {
    var saved: Option<LangPair>

    constructor ()
      ensures saved == None
    {
      saved := None;
    }

    predicate AreLangsSaved()
      reads this
    {
      saved.Some?
    }

    function GetSelectedLangs(): LangPair
      reads this
      requires AreLangsSaved()
    {
      saved.value
    }

    /** Overwrites the saved pair with exactly the two codes given. */
    method SaveLangs(inputLang: string, outputLang: string)
      modifies this
      ensures saved == Some(LangPair(inputLang, outputLang))
    {
      saved := Some(LangPair(inputLang, outputLang));
    }
  }
}

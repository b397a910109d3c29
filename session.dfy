/**
 * The per-session store of App.py (`st.session_state`): a dictionary that
 * survives the re-runs of the script. Submitting the form writes the link and
 * the target language one after the other; later renders read them back.
 */
module Session {
  import opened Wrappers

  const LinkKey: string := "youtube_link"
  const LanguageKey: string := "target_language"

  class SessionState {
    /** The dictionary; other parts of a page may keep their own keys in it. */
    var entries: map<string, string>

    /** Both fields are set together or neither is. */
    ghost predicate Valid()
      reads this
    {
      LinkKey in entries <==> LanguageKey in entries
    }

    /**
     * The stored link and target language, when a link was submitted. Reading
     * the language after finding the link cannot fail while Valid() holds.
     */
    function Stored(): Option<(string, string)>
      reads this
      requires Valid()
    {
      if LinkKey in entries then Some((entries[LinkKey], entries[LanguageKey])) else None
    }

    /** A new session holds nothing. */
    constructor ()
      ensures Valid() && entries == map[] && Stored() == None
    {
      entries := map[];
    }

    /**
     * Submitting the form stores both inputs, replacing any earlier pair, and
     * leaves every other key as it was.
     */
    method Submit(link: string, targetLanguage: string)
      requires Valid()
      modifies this
      ensures Valid()
      ensures Stored() == Some((link, targetLanguage))
      ensures entries.Keys == old(entries.Keys) + {LinkKey, LanguageKey}
      ensures forall k | k in old(entries) && k != LinkKey && k != LanguageKey :: entries[k] == old(entries[k])
    {
      entries := entries[LinkKey := link];
      entries := entries[LanguageKey := targetLanguage];
    }
  }
}

# YouTube transcript-to-notes converter, modelled in Dafny

This is a Dafny model of the logic in `App.py`, a Streamlit page. The page takes a video
link and a target language, fetches the video's captions, has Gemini summarise them, and
can translate the summary before showing it. The model covers the script's own logic:

- **`VideoId`** (`video_id.dfy`): the identifier extractor `extract_video_id`. Both
  regular expressions are modelled by hand. Each shape has a specification predicate that
  says how the subject string splits: lead + gap + `v=` + id + rest (`LongForm`), or
  lead + id + rest (`ShortForm`). The lead is an optional `http://` or `https://`, then one
  of `www.youtube.com`, `youtu.be` or `youtube`, then `/`. Executable recognisers
  (`MatchLong`, `MatchShort`) are proved to agree with these predicates.
  - The greedy `.+` of the long form is modelled as a scan that gives back one character
    at a time (`LastLongAt`), so the identifier after the *last* suitable `v=` wins.
  - `.` is any character except a newline. `$` matches at the end or just before a final
    newline (`Subject`).
  - The nine possible leads are mutually prefix-free (`LeadLength`). So backtracking over
    the scheme and host alternatives never changes the result.
  - `ExtractVideoId` is the loop over the two patterns, with its early `break`.
- **`Notes`** (`notes.dfy`): the notes pipeline as pure functions.
  - The transcript is the caption texts joined with single spaces (`Join`).
  - The functions are `ExtractTranscriptDetails`, `GenerateGeminiContent` and
    `TranslateText`, plus the "Get Detailed Notes" handler (`GetDetailedNotes`).
  - Each external call receives an abstract outcome:
    - captions: `Fetched(fragments) | Disabled | FetchFailed`
    - model: `Summary(text) | QuotaExceeded | SummaryFailed`
    - translator: `Translation(text) | TranslationFailed`
  - A run records every call made, with its input, and every item shown, in order.
    Python exceptions become `Flow` values.
- **`Session`** (`session.dfy`): `st.session_state` as a class over a map. Submitting the
  form writes the link and then the language. The invariant `Valid()` says both keys are
  present or neither is, and `Submit` keeps it.

Behaviour of the code that the model keeps, although a reader might expect otherwise:

- The translation test compares the selected language with the code `"en"`. The selector
  offers language *names*, so English is translated like any other choice. The check is
  kept literal (`ShouldTranslate`).
- A captions failure other than "disabled" is shown twice. It is shown once where it is
  caught (App.py:51), raised again, and shown a second time by the handler (App.py:124).
- A video whose captions join to the empty string ends the run with nothing shown.
- `https://youtube.com/...` (no `www.`) matches neither pattern (`BareDomainRejected`).

## Model

| member | source | states |
|---|---|---|
| `VideoId.Subject` | App.py:26-27 | the text the anchored patterns must consume is the input less at most one final newline (`$` also matches before it) |
| `VideoId.LeadLength` | App.py:26-27 | finds the scheme + host + `/` lead when there is one; whenever any prefix is a lead, it is exactly that one (the leads are prefix-free) |
| `VideoId.LastLongAt` | App.py:26 | greedy `.+` backtracking: returns the largest position after the lead at which `v=` + 11 id characters + a newline-free rest match, and None when there is no such position |
| `VideoId.MatchLong` | App.py:26-30 | no contract of its own: `re.match` of the long pattern; stated by MatchLongAgrees (both directions against the split predicate), LongCaptureUnique and ResultIsId |
| `VideoId.MatchShort` | App.py:27-30 | no contract of its own: `re.match` of the short pattern; stated by MatchShortAgrees and ResultIsId |
| `VideoId.MatchLongAgrees` | App.py:26 | the long recogniser returns an id exactly when the subject splits as lead + gap + `v=` + id + rest, and the id it returns is the capture of the split with the longest gap |
| `VideoId.MatchShortAgrees` | App.py:27 | the short recogniser returns an id when the subject splits as lead + id + rest; every such split yields exactly that id |
| `VideoId.LongCaptureUnique` | App.py:26 | the greedy capture of the long pattern is unique |
| `VideoId.FirstOf` | App.py:29-33 | no contract of its own: the capture of the first pattern in the list that matches; ExtractVideoId is proved equal to it, and FirstMatchCases unfolds it for the pattern list |
| `VideoId.FirstMatch` | App.py:23-34 | no contract of its own: the value `extract_video_id` returns; stated by FirstMatchCases, ResultIsId, NoneWithoutLead, NoneIffNoShape, LongFormWins, LongCaptureIsResult and ShortFormOtherwise |
| `VideoId.ExtractVideoId` | App.py:23-34 | the loop over the pattern list with its early `break` returns the capture of the first pattern that matches, or None |
| `VideoId.FirstMatchCases` | App.py:29-33 | the long pattern is tried first and the short pattern only when it fails |
| `VideoId.ResultIsId` | App.py:26-32 | a returned id has exactly 11 characters from `[A-Za-z0-9_-]` and occurs as a contiguous substring of the input |
| `VideoId.NoneWithoutLead` | App.py:24-34 | the result is None unless the input begins with an optional `http://`/`https://` and then `www.youtube.com/`, `youtu.be/` or `youtube/` |
| `VideoId.NoneIffNoShape` | App.py:24-34 | the result is None exactly when neither the long nor the short split exists |
| `VideoId.LongFormWins` | App.py:29-33 | when the long pattern matches, its greedy capture is returned, even if the short pattern would also match |
| `VideoId.LongCaptureIsResult` | App.py:26-33 | the greedy long capture is exactly what is returned |
| `VideoId.ShortFormOtherwise` | App.py:27-33 | when only the short pattern matches, the result is the 11 characters right after the slash that ends the lead |
| `VideoId.WatchLinkYieldsId` | App.py:26 | for every valid id, `https://www.youtube.com/watch?v=` + id yields that id |
| `VideoId.ShareLinkYieldsId` | App.py:27 | for every valid id, `https://youtu.be/` + id yields that id, because the long form cannot match |
| `VideoId.ExampleLinks` | App.py:25-28 | `https://www.youtube.com/watch?v=dQw4w9WgXcQ` and `https://youtu.be/dQw4w9WgXcQ` both yield `dQw4w9WgXcQ` |
| `VideoId.LastParameterWins` | App.py:26 | with two `v=` parameters, the identifier after the later one is returned |
| `VideoId.BareDomainRejected` | App.py:26-27 | any `https://youtube.com/...` link yields None |
| `Notes.Texts` | App.py:44 | the list comprehension keeps the fragments' texts, one per fragment, in order |
| `Notes.Join` | App.py:44 | no contract of its own: `" ".join`; stated by JoinSmall, JoinLength, JoinSplit and the round trip SplitJoin |
| `Notes.JoinSmall` | App.py:44 | zero fragments join to `""`, and one fragment joins to its own text |
| `Notes.JoinLength` | App.py:44 | for n >= 1 texts, the transcript's length is the sum of the text lengths plus n - 1 |
| `Notes.JoinSplit` | App.py:44 | order is kept: cutting the list at any point cuts the transcript at a single separating space |
| `Notes.SplitJoin` | App.py:44 | round trip: for any non-empty list of space-free texts, splitting the transcript on spaces gives back exactly that list |
| `Notes.ExtractTranscriptDetails` | App.py:37-52 | no contract of its own: the ValueError for a link without an id, the one captions call, the joined transcript, the disabled banner and the shown-and-raised failure; stated through the handler by InvalidLinkShownTwice, DisabledCaptionsHalt, FetchFailureShownTwice, EmptyTranscriptSkipsSummary and SummarizerInput |
| `Notes.GenerateGeminiContent` | App.py:55-58 | no contract of its own: one model call with prompt + transcript, returning the reply or raising; stated by SummarizerInput, QuotaReported and SummaryFailureReported |
| `Notes.TranslateText` | App.py:61-68 | `translate_text` never raises, and it makes exactly one call to the translator, with the text and the destination language |
| `Notes.ShouldTranslate` | App.py:114 | no contract of its own: the test `summary and target_language != 'en'`; stated by TranslationWhen and UntranslatedIdentity |
| `Notes.Caught` | App.py:121-124 | no contract of its own: the handler's two `except` banners; stated by QuotaReported, SummaryFailureReported and FetchFailureShownTwice |
| `Notes.GetDetailedNotes` | App.py:109-124 | no contract of its own: one press of the button; stated by CallsInOrder, SummarizerInput, TranslationWhen, SummarizedRunEndsVisibly and the outcome lemmas below |
| `Notes.RequestNotes` | App.py:103-111 | no contract of its own: the button is offered only when the stored link has an id; stated by NoInvalidUrlFromPage |
| `Notes.CallsInOrder` | App.py:109-124 | calls go strictly in sequence: captions, then model, then translator, each at most once |
| `Notes.DisabledCaptionsHalt` | App.py:47-49 | disabled captions show exactly one banner, and only the captions service is called |
| `Notes.FetchFailureShownTwice` | App.py:50-52 | any other captions failure is shown, raised again and shown again by the handler, and the model is not called |
| `Notes.EmptyTranscriptSkipsSummary` | App.py:111-113 | an empty transcript ends the run with nothing shown and no call to the model |
| `Notes.SummarizerInput` | App.py:55-58 | the model is called exactly when a valid link gives a non-empty transcript, and it receives exactly prompt + transcript |
| `Notes.QuotaReported` | App.py:121-122 | a quota failure of the model shows only the distinct quota message |
| `Notes.SummaryFailureReported` | App.py:123-124 | any other model failure shows the generic message with its reason |
| `Notes.TranslationWhen` | App.py:114-115 | the translator is called exactly when the summary is non-empty and the language is not the code `en`, and it receives that summary and that language |
| `Notes.UntranslatedIdentity` | App.py:118-120 | without translation, the notes shown are the model's reply, unchanged |
| `Notes.TranslatedNotes` | App.py:115-117 | a successful translation is what the notes show |
| `Notes.TranslationFailureWritesNone` | App.py:66-68 | a failed translation shows its banner, and then the absent result is written as the notes |
| `Notes.NoInvalidUrlFromPage` | App.py:103-111 | from the page, anything shown follows a captions request for the link's id, so the invalid-link branch is never taken |
| `Notes.InvalidLinkShownTwice` | App.py:39-41 | called with a link that has no identifier, the handler makes no call and shows the ValueError twice |
| `Notes.SummarizedRunEndsVisibly` | App.py:113-124 | once the model is called, the last item shown is the notes exactly when the model succeeded, and a banner otherwise |
| `Session.SessionState.constructor` | App.py:100 | a fresh session holds no link |
| `Session.SessionState.Stored` | App.py:100-102 | no contract of its own: reads back the link and the language when the link key is present; its value is stated by the constructor (None) and by Submit (the submitted pair) |
| `Session.SessionState.Submit` | App.py:96-98 | a form submission stores the link and the language together, keeps the invariant that both keys are present or neither is, and leaves other keys unchanged |

## Left out

- Streamlit rendering is not modelled: the CSS block, the title, the form widgets, the
  thumbnail `st.image` and the "Detailed Notes" heading. The notes and the error banners
  are modelled as the `Display` items of a run.
- The external services are not modelled: the captions API, Gemini and Google Translate.
  Each call is given an abstract outcome. An exception's text (`{e}`) is the outcome's
  `reason` string.
- Environment and key loading (`load_dotenv`, `genai.configure`) is configuration I/O.
- The `LANGUAGES` table belongs to the translation library. The language is an opaque
  string.
- Streamlit re-runs the whole script on every interaction, and the "Get Detailed Notes"
  button has its own click timing. `RequestNotes` models one press, for a link read back
  from the session.
- Only the two patterns of `extract_video_id` are modelled, not Python's `re` engine.
- An exception from the captions service that happens to be a `ResourceExhausted` is
  treated as a generic failure.
- Exceptions outside `Exception` (interrupts) are not modelled.

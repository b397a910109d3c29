/**
 * The notes pipeline of App.py: fetch the captions of a video, join them into
 * one transcript, have the language model summarise prompt + transcript,
 * optionally translate the summary, and show either the notes or error
 * banners.
 *
 * The three external services are not modelled; each call is given the
 * outcome the service produces for it (a value, the distinct failure the
 * script tells apart, or a generic failure with its message). A run records
 * which calls were made, with which inputs, and what the page shows, in
 * order. Python exceptions become the `Flow` datatype.
 */
module Notes {
  import opened Wrappers
  import VideoId

  // ---------------------------------------------------------------------------
  // Constants of the script
  // ---------------------------------------------------------------------------

  /** The fixed instruction put in front of the transcript. */
  const Prompt: string :=
    "You are a YouTube video summarizer. You will be taking the transcript text\n" +
    "and summarizing the entire video and providing the important summary in points\n" +
    "within 250 words. Please provide the summary of the text given here: "

  /** The language code for which translation is skipped. */
  const English: string := "en"

  const DisabledMessage: string := "Subtitles are disabled for this video."
  const QuotaMessage: string := "API quota exceeded. Please try again later."
  /** The message of the ValueError raised for a link without an identifier. */
  const InvalidUrl: string := "Invalid YouTube URL"

  /** `f"An error occurred: {e}"`. */
  function ErrorMessage(reason: string): string {
    "An error occurred: " + reason
  }

  /** `f"An error occurred during translation: {e}"`. */
  function TranslationErrorMessage(reason: string): string {
    "An error occurred during translation: " + reason
  }

  // ---------------------------------------------------------------------------
  // Outcomes of the external services, calls, what is shown
  // ---------------------------------------------------------------------------

  /** One caption fragment; only its text is used. */
  datatype Fragment = Fragment(text: string)

  /** What the captions service does for one request. */
  datatype FetchOutcome = Fetched(fragments: seq<Fragment>) | Disabled | FetchFailed(reason: string)

  /** What the language model does for one request. */
  datatype SummaryOutcome = Summary(text: string) | QuotaExceeded(reason: string) | SummaryFailed(reason: string)

  /** What the translation service does for one request. */
  datatype TranslationOutcome = Translation(text: string) | TranslationFailed(reason: string)

  /** A call to an external service, with what it is given. */
  datatype Call =
    | FetchTranscript(videoId: string)
    | GenerateContent(input: string)
    | Translate(text: string, dest: string)

  /** An item rendered on the page: an error banner, or the notes (`st.write` of a value or of None). */
  datatype Display = ErrorBanner(message: string) | NotesText(text: Option<string>)

  /** An exception: the quota one (ResourceExhausted) or any other. */
  datatype Exception = Failure(reason: string) | Exhausted(reason: string)

  /** How a Python function ends: returning a value or raising. */
  datatype Flow<T> = Returned(value: T) | Raised(exception: Exception)

  /** The effect of one function of the script: its calls, what it shows, how it ends. */
  datatype Step<T> = Step(calls: seq<Call>, shown: seq<Display>, flow: Flow<T>)

  /** The effect of one press of "Get Detailed Notes". */
  datatype Run = Run(calls: seq<Call>, shown: seq<Display>)

  // ---------------------------------------------------------------------------
  // The transcript: " ".join(texts)
  // ---------------------------------------------------------------------------

  /** `[i["text"] for i in fragments]`. */
  function Texts(fragments: seq<Fragment>): (texts: seq<string>)
    ensures |texts| == |fragments|
    ensures forall i | 0 <= i < |fragments| :: texts[i] == fragments[i].text
  {
    if fragments == [] then [] else [fragments[0].text] + Texts(fragments[1..])
  }

  /** `" ".join(texts)`. */
  function Join(texts: seq<string>): string {
    if |texts| == 0 then ""
    else if |texts| == 1 then texts[0]
    else texts[0] + " " + Join(texts[1..])
  }

  /** The sum of the lengths of the texts. */
  function TotalLength(texts: seq<string>): nat {
    if texts == [] then 0 else |texts[0]| + TotalLength(texts[1..])
  }

  /** Zero texts join to "", one text joins to itself. */
  lemma JoinSmall(texts: seq<string>)
    ensures |texts| == 0 ==> Join(texts) == ""
    ensures |texts| == 1 ==> Join(texts) == texts[0]
  {}

  /** n >= 1 texts join to their total length plus n - 1 separators. */
  lemma {:induction false} JoinLength(texts: seq<string>)
    requires |texts| >= 1
    ensures |Join(texts)| == TotalLength(texts) + |texts| - 1
  {
    if |texts| > 1 {
      JoinLength(texts[1..]);
    }
  }

  /**
   * Order is kept: cutting the list anywhere cuts the joined text at one
   * separating space.
   */
  lemma {:induction false} JoinSplit(texts: seq<string>, i: nat)
    requires 0 < i < |texts|
    ensures Join(texts) == Join(texts[..i]) + " " + Join(texts[i..])
  {
    if i > 1 {
      JoinSplit(texts[1..], i - 1);
      assert texts[1..][..i - 1] == texts[..i][1..];
      assert texts[1..][i - 1..] == texts[i..];
    }
  }

  /** Splitting on single spaces, the inverse of Join for space-free texts. */
  function SplitSpaces(s: string): (parts: seq<string>)
    ensures |parts| >= 1
  {
    if s == [] then [""]
    else
      var tail := SplitSpaces(s[1..]);
      if s[0] == ' ' then [""] + tail else [[s[0]] + tail[0]] + tail[1..]
  }

  /** A text without spaces is one part, and a space after it ends that part. */
  lemma {:induction false} SplitWord(w: string, rest: string)
    requires ' ' !in w
    ensures SplitSpaces(w) == [w]
    ensures SplitSpaces(w + " " + rest) == [w] + SplitSpaces(rest)
  {
    if w != [] {
      SplitWord(w[1..], rest);
      assert w[0] != ' ' && [w[0]] + w[1..] == w;
      assert (w + " " + rest)[1..] == w[1..] + " " + rest;
    } else {
      assert w + " " + rest == [' '] + rest;
    }
  }

  /** Round trip: a non-empty list of space-free texts is recovered from the joined text. */
  lemma {:induction false} SplitJoin(texts: seq<string>)
    requires |texts| >= 1
    requires forall i | 0 <= i < |texts| :: ' ' !in texts[i]
    ensures SplitSpaces(Join(texts)) == texts
  {
    if |texts| == 1 {
      SplitWord(texts[0], "");
    } else {
      SplitJoin(texts[1..]);
      SplitWord(texts[0], Join(texts[1..]));
    }
  }

  // ---------------------------------------------------------------------------
  // The three functions of the script
  // ---------------------------------------------------------------------------

  /**
   * `extract_transcript_details`: take the identifier out of the link (raising
   * ValueError when there is none), fetch the captions and join them.
   * Disabled captions are shown and give None; any other failure is shown
   * and raised again.
   */
  function ExtractTranscriptDetails(link: string, fetch: FetchOutcome): Step<Option<string>> {
    match VideoId.FirstMatch(link)
    case None => Step([], [ErrorBanner(ErrorMessage(InvalidUrl))], Raised(Failure(InvalidUrl)))
    case Some(videoId) =>
      var calls := [FetchTranscript(videoId)];
      match fetch
      case Fetched(fragments) => Step(calls, [], Returned(Some(Join(Texts(fragments)))))
      case Disabled => Step(calls, [ErrorBanner(DisabledMessage)], Returned(None))
      case FetchFailed(reason) => Step(calls, [ErrorBanner(ErrorMessage(reason))], Raised(Failure(reason)))
  }

  /** `generate_gemini_content`: send prompt + transcript, return the reply text. */
  function GenerateGeminiContent(transcriptText: string, prompt: string, response: SummaryOutcome): Step<string> {
    var calls := [GenerateContent(prompt + transcriptText)];
    match response
    case Summary(text) => Step(calls, [], Returned(text))
    case QuotaExceeded(reason) => Step(calls, [], Raised(Exhausted(reason)))
    case SummaryFailed(reason) => Step(calls, [], Raised(Failure(reason)))
  }

  /**
   * `translate_text`: every failure is caught and shown, and the result is
   * then None; nothing is raised.
   */
  function TranslateText(text: string, targetLanguage: string, response: TranslationOutcome): (r: Step<Option<string>>)
    ensures r.flow.Returned?
    ensures r.calls == [Translate(text, targetLanguage)]
  {
    match response
    case Translation(translated) => Step([Translate(text, targetLanguage)], [], Returned(Some(translated)))
    case TranslationFailed(reason) =>
      Step([Translate(text, targetLanguage)], [ErrorBanner(TranslationErrorMessage(reason))], Returned(None))
  }

  /** The test `summary and target_language != 'en'`. */
  predicate ShouldTranslate(summary: string, targetLanguage: string) {
    summary != "" && targetLanguage != English
  }

  /** The banner for an exception that reaches the button handler. */
  function Caught(e: Exception): Display {
    match e
    case Exhausted(_) => ErrorBanner(QuotaMessage)
    case Failure(reason) => ErrorBanner(ErrorMessage(reason))
  }

  /**
   * The handler of "Get Detailed Notes": transcript, then (for a non-empty
   * transcript) summary, then (when asked for) translation, then the notes.
   * An exception from the first two stages ends the run with a banner.
   */
  function GetDetailedNotes(link: string, targetLanguage: string, fetch: FetchOutcome,
                            summarizer: SummaryOutcome, translator: TranslationOutcome): Run
  {
    var transcript := ExtractTranscriptDetails(link, fetch);
    match transcript.flow
    case Raised(e) => Run(transcript.calls, transcript.shown + [Caught(e)])
    case Returned(text) =>
      if text.None? || text.value == "" then Run(transcript.calls, transcript.shown)
      else
        var summary := GenerateGeminiContent(text.value, Prompt, summarizer);
        var calls := transcript.calls + summary.calls;
        var shown := transcript.shown + summary.shown;
        match summary.flow
        case Raised(e) => Run(calls, shown + [Caught(e)])
        case Returned(s) =>
          if ShouldTranslate(s, targetLanguage) then
            var translated := TranslateText(s, targetLanguage, translator);
            Run(calls + translated.calls, shown + translated.shown + [NotesText(translated.flow.value)])
          else Run(calls, shown + [NotesText(Some(s))])
  }

  /**
   * What the page does once the notes are requested for the stored link: the
   * button is only offered when an identifier can be taken out of the link.
   */
  function RequestNotes(link: string, targetLanguage: string, fetch: FetchOutcome,
                        summarizer: SummaryOutcome, translator: TranslationOutcome): Run
  {
    if VideoId.FirstMatch(link).None? then Run([], [])
    else GetDetailedNotes(link, targetLanguage, fetch, summarizer, translator)
  }

  // ---------------------------------------------------------------------------
  // Properties of the pipeline
  // ---------------------------------------------------------------------------

  /** The stage of a call: captions, then model, then translation. */
  function Stage(c: Call): nat {
    match c
    case FetchTranscript(_) => 0
    case GenerateContent(_) => 1
    case Translate(_, _) => 2
  }

  /** The calls of a run are made strictly in pipeline order, each at most once. */
  lemma CallsInOrder(link: string, lang: string, fetch: FetchOutcome,
                     summarizer: SummaryOutcome, translator: TranslationOutcome)
    ensures var run := GetDetailedNotes(link, lang, fetch, summarizer, translator);
            |run.calls| <= 3 && forall i | 0 <= i < |run.calls| :: Stage(run.calls[i]) == i
  {
    var run := GetDetailedNotes(link, lang, fetch, summarizer, translator);
    match VideoId.FirstMatch(link)
    case None =>
      assert run.calls == [];
    case Some(id) =>
      if fetch.Fetched? && Join(Texts(fetch.fragments)) != "" {
        var generate := GenerateContent(Prompt + Join(Texts(fetch.fragments)));
        if summarizer.Summary? && ShouldTranslate(summarizer.text, lang) {
          assert run.calls == [FetchTranscript(id), generate, Translate(summarizer.text, lang)];
        } else {
          assert run.calls == [FetchTranscript(id), generate];
        }
      } else {
        assert run.calls == [FetchTranscript(id)];
      }
  }

  /**
   * Disabled captions: one banner, and only the captions service was asked
   * (the link holds an identifier, as it does whenever the button is shown).
   */
  lemma DisabledCaptionsHalt(link: string, lang: string, summarizer: SummaryOutcome, translator: TranslationOutcome)
    requires VideoId.FirstMatch(link).Some?
    ensures var run := GetDetailedNotes(link, lang, Disabled, summarizer, translator);
            run.shown == [ErrorBanner(DisabledMessage)] &&
            run.calls == [FetchTranscript(VideoId.FirstMatch(link).value)]
  {}

  /**
   * Any other captions failure is shown where it is caught, raised again and
   * shown a second time by the handler; the model is not asked.
   */
  lemma FetchFailureShownTwice(link: string, lang: string, reason: string,
                               summarizer: SummaryOutcome, translator: TranslationOutcome)
    requires VideoId.FirstMatch(link).Some?
    ensures var run := GetDetailedNotes(link, lang, FetchFailed(reason), summarizer, translator);
            run.shown == [ErrorBanner(ErrorMessage(reason)), ErrorBanner(ErrorMessage(reason))] &&
            run.calls == [FetchTranscript(VideoId.FirstMatch(link).value)]
  {}

  /** An empty transcript ends the run silently, before the model is asked. */
  lemma EmptyTranscriptSkipsSummary(link: string, lang: string, fragments: seq<Fragment>,
                                    summarizer: SummaryOutcome, translator: TranslationOutcome)
    requires VideoId.FirstMatch(link).Some?
    requires Join(Texts(fragments)) == ""
    ensures var run := GetDetailedNotes(link, lang, Fetched(fragments), summarizer, translator);
            run.shown == [] && run.calls == [FetchTranscript(VideoId.FirstMatch(link).value)]
  {}

  /**
   * The model is asked exactly when the captions came back as a non-empty
   * transcript, and it is given exactly prompt + transcript.
   */
  lemma SummarizerInput(link: string, lang: string, fetch: FetchOutcome,
                        summarizer: SummaryOutcome, translator: TranslationOutcome)
    ensures var run := GetDetailedNotes(link, lang, fetch, summarizer, translator);
            (exists input :: GenerateContent(input) in run.calls) <==>
              (VideoId.FirstMatch(link).Some? && fetch.Fetched? && Join(Texts(fetch.fragments)) != "")
    ensures var run := GetDetailedNotes(link, lang, fetch, summarizer, translator);
            forall input | GenerateContent(input) in run.calls ::
              fetch.Fetched? && input == Prompt + Join(Texts(fetch.fragments))
  {
    var run := GetDetailedNotes(link, lang, fetch, summarizer, translator);
    if VideoId.FirstMatch(link).Some? && fetch.Fetched? && Join(Texts(fetch.fragments)) != "" {
      assert run.calls[1] == GenerateContent(Prompt + Join(Texts(fetch.fragments)));
    }
  }

  /** A quota failure of the model shows the quota banner and nothing else. */
  lemma QuotaReported(link: string, lang: string, fragments: seq<Fragment>, reason: string,
                      translator: TranslationOutcome)
    requires VideoId.FirstMatch(link).Some? && Join(Texts(fragments)) != ""
    ensures var run := GetDetailedNotes(link, lang, Fetched(fragments), QuotaExceeded(reason), translator);
            run.shown == [ErrorBanner(QuotaMessage)] && |run.calls| == 2
  {}

  /** Any other failure of the model shows the generic banner with its message. */
  lemma SummaryFailureReported(link: string, lang: string, fragments: seq<Fragment>, reason: string,
                               translator: TranslationOutcome)
    requires VideoId.FirstMatch(link).Some? && Join(Texts(fragments)) != ""
    ensures var run := GetDetailedNotes(link, lang, Fetched(fragments), SummaryFailed(reason), translator);
            run.shown == [ErrorBanner(ErrorMessage(reason))] && |run.calls| == 2
  {
    var transcript := ExtractTranscriptDetails(link, Fetched(fragments));
    assert transcript.shown == [] && transcript.flow == Returned(Some(Join(Texts(fragments))));
    var summary := GenerateGeminiContent(Join(Texts(fragments)), Prompt, SummaryFailed(reason));
    assert summary.shown == [] && summary.flow == Raised(Failure(reason));
  }

  /**
   * The translator is asked exactly when a non-empty summary came back and
   * the target language is not the code "en"; it is given that summary and
   * that language.
   */
  lemma TranslationWhen(link: string, lang: string, fetch: FetchOutcome,
                        summarizer: SummaryOutcome, translator: TranslationOutcome)
    ensures var run := GetDetailedNotes(link, lang, fetch, summarizer, translator);
            (exists text, dest :: Translate(text, dest) in run.calls) <==>
              (VideoId.FirstMatch(link).Some? && fetch.Fetched? && Join(Texts(fetch.fragments)) != "" &&
               summarizer.Summary? && summarizer.text != "" && lang != English)
    ensures var run := GetDetailedNotes(link, lang, fetch, summarizer, translator);
            forall text, dest | Translate(text, dest) in run.calls ::
              summarizer.Summary? && text == summarizer.text && dest == lang
  {
    TranslationCalls(link, lang, fetch, summarizer, translator);
    var run := GetDetailedNotes(link, lang, fetch, summarizer, translator);
    if summarizer.Summary? && summarizer.text != "" && lang != English {
      assert Translate(summarizer.text, lang) in run.calls <==>
             VideoId.FirstMatch(link).Some? && fetch.Fetched? && Join(Texts(fetch.fragments)) != "";
    }
  }

  /** The translator calls of a run: one with the summary and the language, or none. */
  lemma TranslationCalls(link: string, lang: string, fetch: FetchOutcome,
                         summarizer: SummaryOutcome, translator: TranslationOutcome)
    ensures var run := GetDetailedNotes(link, lang, fetch, summarizer, translator);
            forall c | c in run.calls && c.Translate? ::
              summarizer.Summary? && ShouldTranslate(summarizer.text, lang) &&
              c == Translate(summarizer.text, lang)
    ensures var run := GetDetailedNotes(link, lang, fetch, summarizer, translator);
            VideoId.FirstMatch(link).Some? && fetch.Fetched? && Join(Texts(fetch.fragments)) != "" &&
            summarizer.Summary? && ShouldTranslate(summarizer.text, lang) ==>
              Translate(summarizer.text, lang) in run.calls
  {
    var run := GetDetailedNotes(link, lang, fetch, summarizer, translator);
    match VideoId.FirstMatch(link)
    case None =>
      assert run.calls == [];
    case Some(id) =>
      if fetch.Fetched? && Join(Texts(fetch.fragments)) != "" {
        var generate := GenerateContent(Prompt + Join(Texts(fetch.fragments)));
        if summarizer.Summary? && ShouldTranslate(summarizer.text, lang) {
          assert run.calls == [FetchTranscript(id), generate, Translate(summarizer.text, lang)];
        } else {
          assert run.calls == [FetchTranscript(id), generate];
        }
      } else {
        assert run.calls == [FetchTranscript(id)];
      }
  }

  /**
   * Without translation (target "en" or an empty summary) the notes shown are
   * the model's reply, unchanged.
   */
  lemma UntranslatedIdentity(link: string, lang: string, fragments: seq<Fragment>, summary: string,
                             translator: TranslationOutcome)
    requires VideoId.FirstMatch(link).Some? && Join(Texts(fragments)) != ""
    requires lang == English || summary == ""
    ensures var run := GetDetailedNotes(link, lang, Fetched(fragments), Summary(summary), translator);
            run.shown == [NotesText(Some(summary))]
  {}

  /** A successful translation replaces the summary in the notes. */
  lemma TranslatedNotes(link: string, lang: string, fragments: seq<Fragment>, summary: string, translated: string)
    requires VideoId.FirstMatch(link).Some? && Join(Texts(fragments)) != ""
    requires ShouldTranslate(summary, lang)
    ensures var run := GetDetailedNotes(link, lang, Fetched(fragments), Summary(summary), Translation(translated));
            run.shown == [NotesText(Some(translated))]
  {}

  /**
   * A failed translation is shown as a banner, and the absent result is then
   * written as the notes.
   */
  lemma TranslationFailureWritesNone(link: string, lang: string, fragments: seq<Fragment>, summary: string,
                                     reason: string)
    requires VideoId.FirstMatch(link).Some? && Join(Texts(fragments)) != ""
    requires ShouldTranslate(summary, lang)
    ensures var run := GetDetailedNotes(link, lang, Fetched(fragments), Summary(summary), TranslationFailed(reason));
            run.shown == [ErrorBanner(TranslationErrorMessage(reason)), NotesText(None)]
  {}

  /**
   * From the page, the invalid-link branch of extract_transcript_details is
   * never taken: the button is only offered for a link with an identifier and
   * the same link is parsed again, so whatever is shown follows a request to
   * the captions service for that identifier.
   */
  lemma NoInvalidUrlFromPage(link: string, lang: string, fetch: FetchOutcome,
                             summarizer: SummaryOutcome, translator: TranslationOutcome)
    ensures var run := RequestNotes(link, lang, fetch, summarizer, translator);
            run.shown != [] ==>
              VideoId.FirstMatch(link).Some? && run.calls != [] &&
              run.calls[0] == FetchTranscript(VideoId.FirstMatch(link).value)
  {}

  /**
   * Called directly with a link without identifier, the handler would show the
   * ValueError twice (once where it is caught, once after it is raised again)
   * and call nothing.
   */
  lemma InvalidLinkShownTwice(link: string, lang: string, fetch: FetchOutcome,
                              summarizer: SummaryOutcome, translator: TranslationOutcome)
    requires VideoId.FirstMatch(link).None?
    ensures var run := GetDetailedNotes(link, lang, fetch, summarizer, translator);
            run.calls == [] &&
            run.shown == [ErrorBanner(ErrorMessage(InvalidUrl)), ErrorBanner(ErrorMessage(InvalidUrl))]
  {}

  /**
   * Every run that asks the model ends with exactly one item that is either
   * the notes or the banner of the stage that failed.
   */
  lemma SummarizedRunEndsVisibly(link: string, lang: string, fetch: FetchOutcome,
                                 summarizer: SummaryOutcome, translator: TranslationOutcome)
    requires VideoId.FirstMatch(link).Some? && fetch.Fetched? && Join(Texts(fetch.fragments)) != ""
    ensures var run := GetDetailedNotes(link, lang, fetch, summarizer, translator);
            |run.shown| >= 1 &&
            (run.shown[|run.shown| - 1].NotesText? <==> summarizer.Summary?)
  {
    var transcript := ExtractTranscriptDetails(link, fetch);
    assert transcript.shown == [] && transcript.flow == Returned(Some(Join(Texts(fetch.fragments))));
    var summary := GenerateGeminiContent(Join(Texts(fetch.fragments)), Prompt, summarizer);
    assert summary.shown == [];
  }
}

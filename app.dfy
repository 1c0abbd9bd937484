/**
 * The handler of the "Summarize" button: validate the inputs in order,
 * then load the transcript of a YouTube URL and hand it to the
 * summarisation chain.
 *
 * The API key comes from the environment and may be absent; the URL is
 * the text box's content. The URL validator of the `validators` package
 * is the parameter `isValidUrl`. The summarisation chain itself is not
 * modelled: `Summarize` records the documents it would be run on.
 */
module SummarizeApp {
  import opened Wrappers
  import opened PyStr
  import opened Transcript

  const YouTubeHost := "youtube.com"

  /** The branch the validation at the top of the handler takes. */
  datatype Check = MissingInfo | InvalidUrl | NotYouTube | FetchTranscript

  /** The error shown for a check that stops the handler. */
  function CheckMessage(c: Check): string
    requires c != FetchTranscript
  {
    match c
    case MissingInfo => "Please provide the information to get started"
    case InvalidUrl => "Please enter a valid Url. It can may be a YT video utl or website url"
    case NotYouTube => "Please enter a valid YouTube URL"
  }

  /** The input checks, in the order the handler makes them. An absent key
      makes `strip()` fail before any check, so callers must supply one. */
  function Validate(apiKey: Option<string>, url: string, isValidUrl: string -> bool): Check
    requires apiKey.Some?
  {
    if Strip(apiKey.value) == [] || Strip(url) == [] then MissingInfo
    else if !isValidUrl(url) then InvalidUrl
    else if Contains(url, YouTubeHost) then FetchTranscript
    else NotYouTube
  }

  /** What the user sees after pressing the button. */
  datatype Response =
    | Rejected(check: Check)          // an error message; nothing else runs
    | LoadFailed(error: LoadError)    // the loader's exception, displayed
    | DocsUnbound                     // the YouTube error, then the chain fails on the unset `docs`
    | Summarize(docs: seq<Document>)  // the chain is run on these documents

  function HandleClick(apiKey: Option<string>, url: string, isValidUrl: string -> bool,
                       exitCode: int, listing: seq<string>, read: string -> seq<string>): Response
    requires apiKey.Some?
  {
    match Validate(apiKey, url, isValidUrl)
    case MissingInfo => Rejected(MissingInfo)
    case InvalidUrl => Rejected(InvalidUrl)
    case NotYouTube => DocsUnbound
    case FetchTranscript =>
      match LoadTranscript(exitCode, listing, read)
      case Failure(e) => LoadFailed(e)
      case Success(docs) => Summarize(docs)
  }

  /** A blank key or URL is reported, and the URL validator is not consulted. */
  lemma BlankInputRejected(apiKey: Option<string>, url: string, isValidUrl: string -> bool)
    requires apiKey.Some?
    requires AllSpace(apiKey.value) || AllSpace(url)
    ensures Validate(apiKey, url, isValidUrl) == MissingInfo
    ensures forall other: string -> bool :: Validate(apiKey, url, other) == MissingInfo
  {
    StripBlank(apiKey.value);
    StripBlank(url);
  }

  /** The checks are ordered; each outcome holds exactly under its condition. */
  lemma ValidateOrder(apiKey: Option<string>, url: string, isValidUrl: string -> bool)
    requires apiKey.Some?
    ensures var blank := AllSpace(apiKey.value) || AllSpace(url);
      && (Validate(apiKey, url, isValidUrl) == MissingInfo <==> blank)
      && (Validate(apiKey, url, isValidUrl) == InvalidUrl <==> !blank && !isValidUrl(url))
      && (Validate(apiKey, url, isValidUrl) == NotYouTube <==>
            !blank && isValidUrl(url) && !Contains(url, YouTubeHost))
      && (Validate(apiKey, url, isValidUrl) == FetchTranscript <==>
            !blank && isValidUrl(url) && Contains(url, YouTubeHost))
  {
    StripBlank(apiKey.value);
    StripBlank(url);
  }

  /** The chain is run only for a non-blank key and a valid YouTube URL whose
      extractor run succeeded and produced a `.vtt` file; it is then run on
      exactly the one transcript document. */
  lemma SummarizeOnlyWhenLoaded(apiKey: Option<string>, url: string, isValidUrl: string -> bool,
                                exitCode: int, listing: seq<string>, read: string -> seq<string>)
    requires apiKey.Some?
    ensures HandleClick(apiKey, url, isValidUrl, exitCode, listing, read).Summarize? <==>
      && !AllSpace(apiKey.value) && !AllSpace(url)
      && isValidUrl(url) && Contains(url, YouTubeHost)
      && exitCode == 0
      && exists i :: 0 <= i < |listing| && IsSubtitleFile(listing[i])
    ensures HandleClick(apiKey, url, isValidUrl, exitCode, listing, read).Summarize? ==>
      HandleClick(apiKey, url, isValidUrl, exitCode, listing, read).docs ==
        [Document(Captions.TranscriptText(read(SubtitleFileName(listing).value)))]
  {
    ValidateOrder(apiKey, url, isValidUrl);
    LoadOutcome(listing, read);
  }

  /** A URL the validator rejects never reaches the loader or the chain,
      whatever the extractor would have done. */
  lemma InvalidUrlNeverSummarized(apiKey: Option<string>, url: string, isValidUrl: string -> bool,
                                  exitCode: int, listing: seq<string>, read: string -> seq<string>)
    requires apiKey.Some? && !isValidUrl(url)
    ensures HandleClick(apiKey, url, isValidUrl, exitCode, listing, read) in {Rejected(MissingInfo), Rejected(InvalidUrl)}
  {
  }
}

/**
 * `load_youtube_transcript`: after the subtitle extractor has run, check
 * its exit code, pick the first `.vtt` file of the output directory and
 * turn its lines into a single document.
 *
 * The extractor run, the temporary directory and the file read are
 * inputs here: the exit code, the directory listing in the order the
 * operating system returns it, and `read`, which gives the lines of the
 * file with a given name.
 */
module Transcript {
  import opened Wrappers
  import opened PyStr
  import opened Captions

  /** LangChain's `Document`, reduced to the field the code fills in. */
  datatype Document = Document(pageContent: string)

  /** The two `RuntimeError`s the loader raises. */
  datatype LoadError = FetchFailed | NoSubtitles

  function Message(e: LoadError): string {
    match e
    case FetchFailed => "Failed to fetch subtitles using yt-dlp"
    case NoSubtitles => "No subtitles available for this video"
  }

  const SubtitleSuffix := ".vtt"

  predicate IsSubtitleFile(name: string) {
    EndsWith(name, SubtitleSuffix)
  }

  /** Position of the first subtitle file in the listing, if any. */
  function FirstSubtitleIndex(names: seq<string>): (r: Option<nat>)
    ensures r.None? <==> forall i :: 0 <= i < |names| ==> !IsSubtitleFile(names[i])
    ensures r.Some? ==> r.value < |names| && IsSubtitleFile(names[r.value])
    ensures r.Some? ==> forall j :: 0 <= j < r.value ==> !IsSubtitleFile(names[j])
  {
    if names == [] then None
    else if IsSubtitleFile(names[0]) then Some(0)
    else match FirstSubtitleIndex(names[1..])
      case None => None
      case Some(i) => Some(i + 1)
  }

  /** Name of the first subtitle file in the listing, if any. */
  function SubtitleFileName(names: seq<string>): Option<string> {
    match FirstSubtitleIndex(names)
    case None => None
    case Some(i) => Some(names[i])
  }

  /** The loop over the directory listing that stops at the first match. */
  method FindSubtitleFile(names: seq<string>) returns (found: Option<string>)
    ensures found == SubtitleFileName(names)
  {
    found := None;
    var i := 0;
    while i < |names|
      invariant 0 <= i <= |names|
      invariant forall j :: 0 <= j < i ==> !IsSubtitleFile(names[j])
      invariant found == None
    {
      if IsSubtitleFile(names[i]) {
        assert FirstSubtitleIndex(names) == Some(i);
        found := Some(names[i]);
        break;
      }
      i := i + 1;
    }
  }

  /** What the loader returns for the given extractor outcome. */
  function LoadTranscript(exitCode: int, listing: seq<string>, read: string -> seq<string>): Result<seq<Document>, LoadError> {
    if exitCode != 0 then Failure(FetchFailed)
    else match SubtitleFileName(listing)
      case None => Failure(NoSubtitles)
      case Some(name) => Success([Document(TranscriptText(read(name)))])
  }

  /** The loader itself: the checks in order, the file search, the line
      loop and the join. */
  method LoadYoutubeTranscript(exitCode: int, listing: seq<string>, read: string -> seq<string>)
    returns (r: Result<seq<Document>, LoadError>)
    ensures r == LoadTranscript(exitCode, listing, read)
    ensures exitCode != 0 ==> r == Failure(FetchFailed)
  {
    if exitCode != 0 {
      return Failure(FetchFailed);
    }
    var subtitleFile := FindSubtitleFile(listing);
    if subtitleFile.None? {
      return Failure(NoSubtitles);
    }
    var lines := CollectCaptionLines(read(subtitleFile.value));
    var text := Join(" ", lines);
    return Success([Document(text)]);
  }

  /** The outcome of a successful extractor run: `NoSubtitles` exactly when
      no name in the listing ends in `.vtt`; otherwise exactly one document
      holding the transcript of the first such file in listing order. */
  lemma LoadOutcome(listing: seq<string>, read: string -> seq<string>)
    ensures LoadTranscript(0, listing, read) == Failure(NoSubtitles) <==>
      forall i :: 0 <= i < |listing| ==> !IsSubtitleFile(listing[i])
    ensures LoadTranscript(0, listing, read).Success? ==>
      exists i :: 0 <= i < |listing| && IsSubtitleFile(listing[i]) &&
        (forall j :: 0 <= j < i ==> !IsSubtitleFile(listing[j])) &&
        LoadTranscript(0, listing, read).value == [Document(TranscriptText(read(listing[i])))]
  {
    var first := FirstSubtitleIndex(listing);
    if first.Some? {
      var i := first.value;
      assert IsSubtitleFile(listing[i]);
    }
  }

  /** The single document's text is the kept caption lines joined by single
      spaces: it has no outer whitespace and is empty exactly when no line
      of the chosen file passes the caption test. */
  lemma LoadedDocument(listing: seq<string>, read: string -> seq<string>)
    requires LoadTranscript(0, listing, read).Success?
    ensures |LoadTranscript(0, listing, read).value| == 1
    ensures var text := LoadTranscript(0, listing, read).value[0].pageContent;
      var file := read(SubtitleFileName(listing).value);
      Stripped(text) && (text == [] <==> forall i :: 0 <= i < |file| ==> !IsCaptionText(Strip(file[i])))
  {
    var file := read(SubtitleFileName(listing).value);
    TranscriptStripped(file);
    TranscriptEmpty(file);
  }
}

# YouTube transcript summariser: verified model of the transcript path

The application in `text_summarization_from_video/app.py` is a one-page
Streamlit app. The user enters a URL and presses a button. The app checks
the Groq API key and the URL, fetches the English subtitles of a YouTube
video with the `yt-dlp` command-line tool, turns the WebVTT subtitle file
into plain text, and passes that text as one LangChain `Document` to a
map-reduce summarisation chain.

This project models the logic in that path that is the app's own code, in
Dafny, and proves properties of it:

- `pystr.dfy` (module `PyStr`): the Python string builtins the code relies
  on. These are `str.isspace` (the exact set of code points Python treats as
  whitespace), `strip`, `startswith`, `endswith`, the substring test
  `sub in s`, and `sep.join`.
- `captions.dfy` (module `Captions`): the line loop of the subtitle parser.
  Each line is stripped. It is kept when it is non-empty, contains no
  `-->` and does not start with `WEBVTT` or `NOTE`. The kept lines are
  joined with single spaces. The loop is a method proved equal to a pure
  selection function. Lemmas prove that this function is exact and keeps
  order, distributes over concatenation, and is idempotent.
- `transcript.dfy` (module `Transcript`): `load_youtube_transcript`. It
  checks the extractor's exit code, searches the directory listing for the
  first `.vtt` file (a loop with `break`), and wraps the transcript in one
  `Document`.
- `app.dfy` (module `SummarizeApp`): the button handler's ordered input
  checks and what the user sees for each outcome.
- `wrappers.dfy` (module `Wrappers`): `Option` and `Result`.

The parser follows the code, not the WebVTT standard. The lemmas record
three consequences:

- Header metadata such as `Kind: captions` is kept (`PlainLineKept`).
- A caption line whose text begins with `NOTE` is dropped, even when indented
  (`TagLineDropped`).
- The file is read as `utf-8`, not `utf-8-sig`, and a byte-order mark is not
  whitespace. So a signature line that starts with a byte-order mark is kept
  (`ByteOrderMarkKept`).

In the handler, a valid URL that does not contain `youtube.com` shows the
"valid YouTube URL" error. Execution then continues to `chain.run(docs)`
with `docs` unset. The resulting exception is caught and shown. The model
records this as the outcome `DocsUnbound`.

## Model

| member | source | states |
|---|---|---|
| `PyStr.StripLeft` | text_summarization_from_video/app.py:54 | the result is a suffix of the line, everything removed is whitespace, and it does not start with whitespace |
| `PyStr.StripRight` | text_summarization_from_video/app.py:54 | the result is a prefix of the line, everything removed is whitespace, and it does not end with whitespace |
| `PyStr.Strip` | text_summarization_from_video/app.py:54 | a stripped line has no leading or trailing whitespace |
| `PyStr.StripWindow` | text_summarization_from_video/app.py:54 | `strip()` returns a contiguous window of the line with only whitespace outside it |
| `PyStr.StripUnique` | text_summarization_from_video/app.py:54 | reference definition: whitespace around a core with no outer whitespace is removed, and the core is returned unchanged |
| `PyStr.StripStripped` | text_summarization_from_video/app.py:54 | stripping an already stripped string changes nothing |
| `PyStr.StripBlank` | text_summarization_from_video/app.py:76 | `not s.strip()` holds exactly when `s` is empty or all whitespace |
| `PyStr.StripKeepsPrefix` | text_summarization_from_video/app.py:54-55 | a word after leading blanks, bounded by non-whitespace characters, is still at the front after stripping |
| `PyStr.ContainsAt` | text_summarization_from_video/app.py:55 | `sub in s` holds exactly when `sub` occurs at some position of `s` |
| `PyStr.JoinAppend` | text_summarization_from_video/app.py:58 | joining two non-empty runs of parts puts exactly one separator between their joins |
| `PyStr.JoinEnds` | text_summarization_from_video/app.py:58 | the joined text starts with the first part and ends with the last |
| `PyStr.JoinEmpty` | text_summarization_from_video/app.py:58 | joining non-empty parts yields `""` exactly when there are no parts |
| `PyStr.JoinStripped` | text_summarization_from_video/app.py:58 | joining non-empty stripped parts yields text with no outer whitespace |
| `Captions.Select` | text_summarization_from_video/app.py:51-56 | the loop's result list is never longer than the file |
| `Captions.SelectExact` | text_summarization_from_video/app.py:51-56 | the kept items are the cleaned items that pass the test, at strictly increasing positions, and every position that passes is among them |
| `Captions.SelectAppend` | text_summarization_from_video/app.py:51-56 | selecting over a concatenation is the concatenation of the selections |
| `Captions.CollectCaptionLines` | text_summarization_from_video/app.py:51-56 | the line loop builds exactly the kept-line list of the file |
| `Captions.CaptionLinesSound` | text_summarization_from_video/app.py:53-56 | every kept line is non-empty, stripped, contains no `-->`, and starts with neither `WEBVTT` nor `NOTE` |
| `Captions.CaptionLinesExact` | text_summarization_from_video/app.py:53-56 | the kept lines are exactly the stripped lines that pass the test, in their original order |
| `Captions.CaptionLinesAppend` | text_summarization_from_video/app.py:53-56 | filtering is line by line: the kept lines of a concatenation are the concatenated kept lines |
| `Captions.CaptionLinesIdempotent` | text_summarization_from_video/app.py:53-56 | filtering the kept lines again leaves them unchanged |
| `Captions.PlainLineKept` | text_summarization_from_video/app.py:54-56 | a stripped line that starts with a letter other than W or N and has no `>` is kept, header metadata included |
| `Captions.TagLineDropped` | text_summarization_from_video/app.py:54-55 | a line whose first non-blank text is `WEBVTT` or `NOTE` is dropped, whatever follows |
| `Captions.ByteOrderMarkKept` | text_summarization_from_video/app.py:52-55 | a signature line that starts with a byte-order mark is kept as caption text |
| `Captions.TranscriptStripped` | text_summarization_from_video/app.py:58 | the transcript text has no leading or trailing whitespace |
| `Captions.TranscriptEmpty` | text_summarization_from_video/app.py:53-58 | the transcript is `""` exactly when no line of the file passes the test |
| `Captions.TranscriptAppend` | text_summarization_from_video/app.py:53-58 | the transcript of two file pieces is their transcripts joined by one space, or just one of them when the other has no kept lines |
| `Transcript.FirstSubtitleIndex` | text_summarization_from_video/app.py:41-45 | no index exactly when no name ends in `.vtt`; otherwise the index of a `.vtt` name with no `.vtt` name before it |
| `Transcript.FindSubtitleFile` | text_summarization_from_video/app.py:41-48 | the loop with `break` returns the name of the first `.vtt` entry in listing order, or nothing |
| `Transcript.LoadYoutubeTranscript` | text_summarization_from_video/app.py:37-60 | a non-zero exit code fails with "Failed to fetch subtitles" before the listing is searched; otherwise the loader returns the specified outcome |
| `Transcript.LoadOutcome` | text_summarization_from_video/app.py:41-60 | "No subtitles available" exactly when no name ends in `.vtt`; on success, exactly one document holding the transcript of the first `.vtt` file |
| `Transcript.LoadedDocument` | text_summarization_from_video/app.py:51-60 | the loaded document's text has no outer whitespace and is empty exactly when no line of the chosen file passes the test |
| `SummarizeApp.BlankInputRejected` | text_summarization_from_video/app.py:76-77 | a blank key or URL gives the "provide the information" error, whatever the URL validator would say |
| `SummarizeApp.ValidateOrder` | text_summarization_from_video/app.py:76-89 | the checks are ordered, and each outcome holds exactly under its condition; only a valid URL containing `youtube.com` reaches the loader |
| `SummarizeApp.SummarizeOnlyWhenLoaded` | text_summarization_from_video/app.py:76-94 | the chain runs exactly when the inputs pass, the extractor succeeds and a `.vtt` file exists, and then on the one transcript document |
| `SummarizeApp.InvalidUrlNeverSummarized` | text_summarization_from_video/app.py:76-79 | a URL the validator rejects ends in an input error and never reaches the loader or the chain |

## Left out

- The Streamlit page, text box, button, spinner and message display are left out. They are UI. The model returns the outcome the user would see (`Response`) and the messages as constants.
- Running `yt-dlp` in a temporary directory, `os.listdir`, `os.path.join` and opening and reading the file are left out. They are process and filesystem I/O. They appear as inputs: the exit code, the listing in the order the operating system returns it, and `read`, which maps a file name to the file's lines. Splitting the file into lines is part of that read.
- `validators.url` is a foreign library. It is the uninterpreted parameter `isValidUrl`.
- `ChatGroq`, `PromptTemplate` and `load_summarize_chain` make network calls to a language model. They are left out. `Summarize(docs)` records the documents the chain would be run on. A failure inside the chain is not modelled.
- `load_dotenv` and the environment lookup are configuration I/O. The key is an `Option<string>` input. A missing key makes line 76 raise outside the `try`, so `Validate` and `HandleClick` require a key.
- Python exception semantics are left out. Raised errors are `Result` failures, and the unbound `docs` in the non-YouTube branch is the outcome `DocsUnbound`.

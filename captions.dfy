/**
 * Turning the lines of a WebVTT subtitle file into one plain-text transcript
 * (the body of `load_youtube_transcript` after the file is opened).
 * Every line is stripped; a stripped line survives when it is non-empty,
 * contains no cue-timing arrow `-->` and does not start with `WEBVTT` or
 * `NOTE`. The survivors are joined with single spaces.
 *
 * This follows the code, not the WebVTT standard: header metadata such as
 * `Kind: captions`, cue identifiers and inline timestamp tags are kept,
 * while caption text that happens to start with `NOTE` is dropped.
 */
module Captions {
  import opened PyStr

  const TimingArrow := "-->"
  const HeaderTag := "WEBVTT"
  const NoteTag := "NOTE"

  /** The test applied to a line after stripping it. */
  predicate IsCaptionText(line: string) {
    line != [] && !Contains(line, TimingArrow) && !StartsWith(line, HeaderTag) && !StartsWith(line, NoteTag)
  }

  /** The list a loop builds when it reads `file` line by line, passes each
      line through `clean` and appends the result whenever `keep` accepts it. */
  function Select<T>(file: seq<T>, clean: T -> T, keep: T -> bool): (r: seq<T>)
    ensures |r| <= |file|
  {
    if file == [] then []
    else
      var line := clean(file[|file| - 1]);
      Select(file[..|file| - 1], clean, keep) + (if keep(line) then [line] else [])
  }

  /** Reading one more line appends at most that line's cleaned form. */
  lemma SelectSnoc<T>(file: seq<T>, clean: T -> T, keep: T -> bool, i: nat)
    requires i < |file|
    ensures Select(file[..i + 1], clean, keep) ==
      Select(file[..i], clean, keep) + (if keep(clean(file[i])) then [clean(file[i])] else [])
  {
    assert file[..i + 1][..i] == file[..i];
  }

  /** The selection is exact and keeps order: the selected items are the
      cleaned items of `file` that `keep` accepts, taken at strictly
      increasing positions, and every accepted position is among them. */
  lemma {:induction false} SelectExact<T>(file: seq<T>, clean: T -> T, keep: T -> bool) returns (idx: seq<nat>)
    ensures |idx| == |Select(file, clean, keep)|
    ensures forall j :: 0 <= j < |idx| ==> idx[j] < |file| && Select(file, clean, keep)[j] == clean(file[idx[j]])
    ensures forall j, k :: 0 <= j < k < |idx| ==> idx[j] < idx[k]
    ensures forall i :: 0 <= i < |file| ==> (keep(clean(file[i])) <==> i in idx)
  {
    if file == [] {
      idx := [];
    } else {
      var n := |file| - 1;
      var init := file[..n];
      var prev := SelectExact(init, clean, keep);
      SelectSnoc(file, clean, keep, n);
      assert file[..n + 1] == file;
      assert forall i :: 0 <= i < n ==> init[i] == file[i];
      if keep(clean(file[n])) {
        idx := prev + [n];
      } else {
        idx := prev;
      }
    }
  }

  /** The list `lines` holds once the loop has read every line of `file`. */
  function CaptionLines(file: seq<string>): seq<string> {
    Select(file, Strip, IsCaptionText)
  }

  /** Every kept line passes the test and is stripped. */
  lemma CaptionLinesSound(file: seq<string>)
    ensures forall k :: 0 <= k < |CaptionLines(file)| ==>
      var line := CaptionLines(file)[k]; IsCaptionText(line) && line != [] && Stripped(line)
  {
    var idx := SelectExact(file, Strip, IsCaptionText);
  }

  /** The loop over the file's lines, appending each kept line. */
  method CollectCaptionLines(file: seq<string>) returns (lines: seq<string>)
    ensures lines == CaptionLines(file)
  {
    lines := [];
    for i := 0 to |file|
      invariant lines == CaptionLines(file[..i])
    {
      SelectSnoc(file, Strip, IsCaptionText, i);
      var line := Strip(file[i]);
      if IsCaptionText(line) {
        lines := lines + [line];
      }
    }
    assert file[..|file|] == file;
  }

  /** The filter is exact and keeps order: the kept lines are the stripped
      lines of `file` that pass the test, at strictly increasing positions,
      and every line that passes the test is among them. */
  lemma CaptionLinesExact(file: seq<string>) returns (idx: seq<nat>)
    ensures |idx| == |CaptionLines(file)|
    ensures forall j :: 0 <= j < |idx| ==> idx[j] < |file| && CaptionLines(file)[j] == Strip(file[idx[j]])
    ensures forall j, k :: 0 <= j < k < |idx| ==> idx[j] < idx[k]
    ensures forall i :: 0 <= i < |file| ==> (IsCaptionText(Strip(file[i])) <==> i in idx)
  {
    idx := SelectExact(file, Strip, IsCaptionText);
  }

  /** Selection distributes over concatenation: it is a line-by-line stream. */
  lemma {:induction false} SelectAppend<T>(a: seq<T>, b: seq<T>, clean: T -> T, keep: T -> bool)
    ensures Select(a + b, clean, keep) == Select(a, clean, keep) + Select(b, clean, keep)
  {
    if b == [] {
      assert a + b == a;
    } else {
      var n := |b| - 1;
      assert (a + b)[..|a + b| - 1] == a + b[..n];
      assert (a + b)[|a + b| - 1] == b[n];
      SelectAppend(a, b[..n], clean, keep);
    }
  }

  /** Filtering two pieces of a file separately and concatenating the kept
      lines gives the kept lines of the whole file. */
  lemma CaptionLinesAppend(a: seq<string>, b: seq<string>)
    ensures CaptionLines(a + b) == CaptionLines(a) + CaptionLines(b)
  {
    SelectAppend(a, b, Strip, IsCaptionText);
  }

  /** Running the filter again over its own output changes nothing. */
  lemma {:induction false} CaptionLinesIdempotent(file: seq<string>)
    ensures CaptionLines(CaptionLines(file)) == CaptionLines(file)
  {
    if file != [] {
      var n := |file| - 1;
      var init := file[..n];
      SelectSnoc(file, Strip, IsCaptionText, n);
      assert file[..n + 1] == file;
      var line := Strip(file[n]);
      var c := if IsCaptionText(line) then [line] else [];
      assert CaptionLines(file) == CaptionLines(init) + c;
      CaptionLinesIdempotent(init);
      CaptionLinesAppend(CaptionLines(init), c);
      if c != [] {
        StripStripped(line);
        SelectSnoc(c, Strip, IsCaptionText, 0);
        assert c[..1] == c && c[..0] == [];
      }
    }
  }

  /** The text passed to the summariser: the kept lines joined by single spaces. */
  function TranscriptText(file: seq<string>): string {
    Join(" ", CaptionLines(file))
  }

  /** The transcript has no leading or trailing whitespace. */
  lemma TranscriptStripped(file: seq<string>)
    ensures Stripped(TranscriptText(file))
  {
    CaptionLinesSound(file);
    JoinStripped(" ", CaptionLines(file));
  }

  /** The transcript is "" exactly when no line of the file passes the test. */
  lemma TranscriptEmpty(file: seq<string>)
    ensures TranscriptText(file) == [] <==> forall i :: 0 <= i < |file| ==> !IsCaptionText(Strip(file[i]))
  {
    var idx := CaptionLinesExact(file);
    CaptionLinesSound(file);
    JoinEmpty(" ", CaptionLines(file));
    if idx != [] {
      assert idx[0] in idx;
    }
  }

  /** Transcribing two halves of a file and joining the two texts with a
      space gives the transcript of the whole file. */
  lemma TranscriptAppend(a: seq<string>, b: seq<string>)
    ensures TranscriptText(a + b) ==
      if CaptionLines(a) == [] then TranscriptText(b)
      else if CaptionLines(b) == [] then TranscriptText(a)
      else TranscriptText(a) + " " + TranscriptText(b)
  {
    CaptionLinesAppend(a, b);
    var ca, cb := CaptionLines(a), CaptionLines(b);
    if ca == [] {
      assert ca + cb == cb;
    } else if cb == [] {
      assert ca + cb == ca;
    } else {
      JoinAppend(" ", ca, cb);
    }
  }

  /** What one line contributes, given how its whitespace splits off. */
  lemma OneLine(line: string, before: string, core: string, after: string)
    requires line == before + core + after
    requires AllSpace(before) && AllSpace(after) && Stripped(core)
    ensures CaptionLines([line]) == if IsCaptionText(core) then [core] else []
  {
    StripUnique(before, core, after);
    SelectSnoc([line], Strip, IsCaptionText, 0);
    assert [line][..1] == [line] && [line][..0] == [];
  }

  /** A sufficient condition for a stripped line to count as caption text. */
  lemma PlainCaption(line: string)
    requires line != [] && line[0] != HeaderTag[0] && line[0] != NoteTag[0]
    requires forall i :: 0 <= i < |line| ==> line[i] != '>'
    ensures IsCaptionText(line)
  {
    MissingChar(line, TimingArrow, 2);
    if |HeaderTag| <= |line| {
      assert line[..|HeaderTag|][0] != HeaderTag[0];
    }
    if |NoteTag| <= |line| {
      assert line[..|NoteTag|][0] != NoteTag[0];
    }
  }

  /** A line whose stripped text starts with a letter other than `W` or `N`
      and has no `>` is kept. Header metadata such as `Kind: captions` or
      `Language: en`, which follows the signature line in files written by
      the subtitle extractor, is therefore kept in the transcript. */
  lemma PlainLineKept(before: string, core: string, after: string)
    requires AllSpace(before) && AllSpace(after) && Stripped(core)
    requires core != [] && core[0] != HeaderTag[0] && core[0] != NoteTag[0]
    requires forall i :: 0 <= i < |core| ==> core[i] != '>'
    ensures CaptionLines([before + core + after]) == [core]
  {
    OneLine(before + core + after, before, core, after);
    PlainCaption(core);
  }

  /** A line whose first non-blank characters are `WEBVTT` or `NOTE` is
      dropped whatever follows them, so caption text such as `NOTEworthy`
      is lost along with comment blocks. */
  lemma TagLineDropped(indent: string, tag: string, rest: string)
    requires AllSpace(indent) && (tag == HeaderTag || tag == NoteTag)
    ensures CaptionLines([indent + tag + rest]) == []
  {
    var line := indent + tag + rest;
    StripKeepsPrefix(indent, tag, rest);
    assert !IsCaptionText(Strip(line));
    SelectSnoc([line], Strip, IsCaptionText, 0);
    assert [line][..1] == [line] && [line][..0] == [];
  }

  /** A byte-order mark is not whitespace, so a signature line that starts
      with one is kept as caption text. */
  lemma ByteOrderMarkKept()
    ensures CaptionLines(["\U{FEFF}WEBVTT\n"]) == ["\U{FEFF}WEBVTT"]
  {
    var line := "\U{FEFF}WEBVTT";
    OneLine(line + "\n", "", line, "\n");
    PlainCaption(line);
    assert line + "\n" == "\U{FEFF}WEBVTT\n";
  }
}

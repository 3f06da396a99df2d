/** The string handling of the podcast summarizer (app.py): the split of the
    language model's reply into a headline and a summary, the two ways the
    video id is cut out of the pasted link, the thumbnail address, the
    assembly of the transcript from caption fragments, and the order in which
    the "Generate Detailed Summary" button runs these steps. The hosted
    services (transcript fetch, language model) are parameters: the model
    sees only what they return. */
module App {
  import opened Wrappers
  import opened PyStr

  /** The fixed instruction put in front of the transcript (app.py:24-26). */
  const PROMPT: string := "You are a video summarizer. You will be taking the transcript text\nand summarizing the entire video and providing the important summary in points\nwithin 250 words. Please provide the summary of the text given here:  "

  const NO_HEADLINE: string := "No headline available"
  const NO_SUMMARY: string := "No summary available"

  const THUMBNAIL_PREFIX: string := "http://img.youtube.com/vi/"
  const THUMBNAIL_SUFFIX: string := "/0.jpg"

  /** The transcript service: video id to the caption fragments' texts, in
      order, or the error it raised. */
  type TranscriptService = string -> Result<seq<string>, Error>

  /** The language model: prompt to reply text, or the error it raised. */
  type ModelService = string -> Result<string, Error>

  datatype Summary = Summary(headline: string, summary: string)

  // ---------------------------------------------------------------------
  // Headline / summary split (generate_gemini_content)
  // ---------------------------------------------------------------------

  /** `lines = text.split("\n", 1)`, then the headline is `lines[0]` and the
      summary `lines[1]`, each with its placeholder when the list is too short.
      The headline is the reply up to its first newline; when there is a
      newline, headline, newline and summary give back the reply exactly;
      otherwise the headline is the whole reply and the summary the
      placeholder. */
  function SplitResponse(text: string): (r: Summary)
    ensures '\n' !in r.headline
    ensures r.headline <= text
    ensures '\n' in text ==> r.headline + "\n" + r.summary == text
    ensures '\n' !in text ==> r.headline == text && r.summary == NO_SUMMARY
  {
    var lines := SplitOnce(text, "\n");
    ContainsChar(text, '\n');
    ContainsChar(lines[0], '\n');
    var headline := if |lines| > 0 then lines[0] else NO_HEADLINE;
    var summary := if |lines| > 1 then lines[1] else NO_SUMMARY;
    Summary(headline, summary)
  }

  /** The "No headline available" branch is dead: the headline is always
      taken from the reply, so the placeholder can only show up when the
      reply itself begins with it. */
  lemma HeadlinePlaceholderUnreachable(text: string)
    ensures SplitResponse(text).headline == SplitOnce(text, "\n")[0]
    ensures SplitResponse(text).headline == NO_HEADLINE ==> NO_HEADLINE <= text
  {
  }

  /** An empty reply gives an empty headline and the summary placeholder. */
  lemma EmptyResponse()
    ensures SplitResponse("") == Summary("", NO_SUMMARY)
  {
    ContainsChar("", '\n');
  }

  /** `generate_gemini_content(transcript, prompt)`: ask the model with the
      prompt followed by the transcript, then split its reply. An error from
      the model is passed on unchanged. */
  function GenerateGeminiContent(transcript: string, prompt: string, generate: ModelService): (r: Result<Summary, Error>)
    ensures generate(prompt + transcript).Failure? ==> r == Failure(generate(prompt + transcript).error)
    ensures r.Success? ==> generate(prompt + transcript).Success?
    ensures r.Success? ==> r.value.headline <= generate(prompt + transcript).value
    ensures generate(prompt + transcript).Success? ==> r == Success(SplitResponse(generate(prompt + transcript).value))
  {
    match generate(prompt + transcript)
    case Failure(e) => Failure(e)
    case Success(text) => Success(SplitResponse(text))
  }

  // ---------------------------------------------------------------------
  // Video id extraction and the thumbnail address
  // ---------------------------------------------------------------------

  /** `youtube_video_url.split("=")[1]` (app.py:53): IndexError exactly when
      the link has no `=`; otherwise the text after the first `=` up to the
      next `=` or the end, which therefore holds no `=`. */
  function TranscriptVideoId(url: string): (r: Result<string, Error>)
    ensures r.Failure? <==> '=' !in url
    ensures r.Failure? ==> r.error == IndexError
    ensures r.Success? ==> '=' !in r.value && SecondField(url, "=", r.value)
  {
    var parts := Split(url, "=");
    ContainsChar(url, '=');
    SplitPiecesFree(url, "=");
    var r := At(parts, 1);
    if r.Success? then
      SplitSecondField(url, "=");
      ContainsChar(r.value, '=');
      r
    else
      r
  }

  /** `youtube_link.split("v=")[1]` (app.py:148): IndexError exactly when the
      link has no `v=`; otherwise the text after the first `v=` up to the
      next `v=` or the end. */
  function ThumbnailVideoId(link: string): (r: Result<string, Error>)
    ensures r.Failure? <==> !Contains(link, "v=")
    ensures r.Failure? ==> r.error == IndexError
    ensures r.Success? ==> !Contains(r.value, "v=") && SecondField(link, "v=", r.value)
  {
    var parts := Split(link, "v=");
    SplitPiecesFree(link, "v=");
    var r := At(parts, 1);
    if r.Success? then
      SplitSecondField(link, "v=");
      r
    else
      r
  }

  /** The thumbnail address built at app.py:149 from the id of app.py:148:
      it fails exactly when the id does, and otherwise is the fixed prefix,
      the field after the first `v=`, and the fixed suffix. */
  function ThumbnailUrl(link: string): (r: Result<string, Error>)
    ensures r.Failure? <==> !Contains(link, "v=")
    ensures r.Failure? ==> r.error == IndexError
    ensures r.Success? ==>
      && |THUMBNAIL_PREFIX| + |THUMBNAIL_SUFFIX| <= |r.value|
      && r.value[..|THUMBNAIL_PREFIX|] == THUMBNAIL_PREFIX
      && r.value[|r.value| - |THUMBNAIL_SUFFIX|..] == THUMBNAIL_SUFFIX
      && SecondField(link, "v=", r.value[|THUMBNAIL_PREFIX|..|r.value| - |THUMBNAIL_SUFFIX|])
  {
    match ThumbnailVideoId(link)
    case Failure(e) => Failure(e)
    case Success(id) =>
      var url := THUMBNAIL_PREFIX + id + THUMBNAIL_SUFFIX;
      assert url[|THUMBNAIL_PREFIX|..|url| - |THUMBNAIL_SUFFIX|] == id;
      Success(url)
  }

  /** What the preview block (app.py:146-152) shows. */
  datatype Preview = NoPreview | ThumbnailImage(url: string) | InvalidLinkMessage

  /** Nothing for an empty link; the error message exactly when a non-empty
      link has no `v=`; otherwise the thumbnail of the extracted id. */
  function LinkPreview(link: string): (p: Preview)
    ensures p.NoPreview? <==> link == ""
    ensures p.InvalidLinkMessage? <==> link != "" && !Contains(link, "v=")
    ensures p.ThumbnailImage? ==> ThumbnailUrl(link) == Success(p.url)
  {
    if link == "" then NoPreview
    else
      match ThumbnailUrl(link)
      case Success(url) => ThumbnailImage(url)
      case Failure(_) => InvalidLinkMessage
  }

  /** The standard watch address, which ends in `v=`. */
  const WATCH_PREFIX: string := "https://www.youtube.com/watch?v="

  /** Only the last character of the watch address is `=`. */
  lemma WatchPrefixChars()
    ensures |WATCH_PREFIX| == 32
    ensures WATCH_PREFIX[30] == 'v' && WATCH_PREFIX[31] == '='
    ensures forall j :: 0 <= j < 31 ==> WATCH_PREFIX[j] != '='
  {
    assert WATCH_PREFIX[..31] == "https://www.youtube.com/watch?v";
    assert '=' !in "https://www.youtube.com/watch?v";
    forall j | 0 <= j < 31 ensures WATCH_PREFIX[j] != '=' {
      assert WATCH_PREFIX[j] == WATCH_PREFIX[..31][j];
    }
  }

  /** On a watch address, the transcript id is the text after `v=` up to the
      next `=`: `tail` is what follows it and starts with `=` when not empty. */
  lemma {:induction false} WatchUrlTranscriptId(id: string, tail: string)
    requires '=' !in id
    requires tail == [] || tail[0] == '='
    ensures TranscriptVideoId(WATCH_PREFIX + id + tail) == Success(id)
  {
    var url := WATCH_PREFIX + id + tail;
    WatchPrefixChars();
    forall j: nat | j < 31 ensures !OccursAt(url, "=", j) {
      assert url[j] == WATCH_PREFIX[j];
    }
    forall j: nat | 32 <= j < 32 + |id| ensures !OccursAt(url, "=", j) {
      assert url[j] == id[j - 32];
    }
    assert url[31] == '=';
    assert url[32..32 + |id|] == id;
    if tail != [] {
      assert url[32 + |id|] == tail[0];
    }
    assert SecondField(url, "=", id) by {
      assert OccursAt(url, "=", 31);
      assert FirstOccurrence(url, "=", 31);
      assert FieldEnd(url, "=", 32, 32 + |id|);
      assert FieldAfterFirst(url, "=", 31, id);
    }
    ContainsChar(url, '=');
    SecondFieldUnique(url, "=", id, TranscriptVideoId(url).value);
  }

  /** On a watch address, the thumbnail id is everything after `v=` when no
      further `v=` follows. */
  lemma {:induction false} WatchUrlThumbnailId(id: string)
    requires !Contains(id, "v=")
    ensures ThumbnailVideoId(WATCH_PREFIX + id) == Success(id)
  {
    var url := WATCH_PREFIX + id;
    WatchPrefixChars();
    forall j: nat | j < 30 ensures !OccursAt(url, "v=", j) {
      assert url[j + 1] == WATCH_PREFIX[j + 1];
    }
    assert !OccursAt(url, "v=", 31) by {
      assert url[31] == '=';
    }
    forall j: nat | 32 <= j ensures !OccursAt(url, "v=", j) {
      OccursInSuffix(url, "v=", 32, j - 32);
      assert url[32..] == id;
    }
    assert url[30..32] == "v=";
    assert url[32..32 + |id|] == id;
    assert SecondField(url, "v=", id) by {
      assert FirstOccurrence(url, "v=", 30);
      assert FieldEnd(url, "v=", 32, 32 + |id|);
      assert FieldAfterFirst(url, "v=", 30, id);
    }
    SecondFieldUnique(url, "v=", id, ThumbnailVideoId(url).value);
  }

  /** On a plain watch address whose id holds no `=`, both extractors agree
      on the id. */
  lemma WatchUrlIdsAgree(id: string)
    requires '=' !in id
    ensures TranscriptVideoId(WATCH_PREFIX + id) == Success(id)
    ensures ThumbnailVideoId(WATCH_PREFIX + id) == Success(id)
  {
    assert WATCH_PREFIX + id + [] == WATCH_PREFIX + id;
    WatchUrlTranscriptId(id, []);
    forall j: nat | j + 2 <= |id| ensures !OccursAt(id, "v=", j) {
      assert id[j..j + 2][1] == id[j + 1];
    }
    WatchUrlThumbnailId(id);
  }

  /** The example address with a start time: `v=abc&t=10` after the watch
      address. */
  const TIMED_URL: string := "https://www.youtube.com/watch?v=abc&t=10"

  /** The two extractors can disagree: with a start time after the id, the
      split on `=` stops at the next `=` and the split on `v=` does not. */
  lemma ExtractorsDisagree()
    ensures TranscriptVideoId(TIMED_URL) == Success("abc&t")
    ensures ThumbnailVideoId(TIMED_URL) == Success("abc&t=10")
  {
    TimedUrlTranscriptId();
    TimedUrlThumbnailId();
  }

  /** The transcript half of ExtractorsDisagree. */
  lemma TimedUrlTranscriptId()
    ensures TranscriptVideoId(TIMED_URL) == Success("abc&t")
  {
    var id, tail := "abc&t", "=10";
    assert '=' !in id;
    assert TIMED_URL == WATCH_PREFIX + id + tail;
    WatchUrlTranscriptId(id, tail);
  }

  /** The thumbnail half of ExtractorsDisagree. */
  lemma TimedUrlThumbnailId()
    ensures ThumbnailVideoId(TIMED_URL) == Success("abc&t=10")
  {
    var id := "abc&t=10";
    assert TIMED_URL == WATCH_PREFIX + id;
    assert 'v' !in id;
    forall j: nat | j + 2 <= |id| ensures !OccursAt(id, "v=", j) {
      assert id[j..j + 2][0] == id[j];
    }
    WatchUrlThumbnailId(id);
  }

  // ---------------------------------------------------------------------
  // Transcript assembly (extract_transcript_details)
  // ---------------------------------------------------------------------

  /** The transcript of fragments t1..tn: " " + t1 + " " + t2 + ... + " " + tn.
      Empty exactly for no fragments, and otherwise starting with a space. */
  function SpaceJoin(fragments: seq<string>): (r: string)
    ensures r == "" <==> fragments == []
    ensures fragments != [] ==> r[0] == ' '
  {
    if fragments == [] then "" else " " + fragments[0] + SpaceJoin(fragments[1..])
  }

  /** Sum of the fragments' lengths. */
  function TotalLength(fragments: seq<string>): nat
  {
    if fragments == [] then 0 else |fragments[0]| + TotalLength(fragments[1..])
  }

  /** Appending one fragment appends a space and that fragment: the step the
      loop at app.py:57-58 takes. */
  lemma {:induction false} SpaceJoinSnoc(fragments: seq<string>, t: string)
    ensures SpaceJoin(fragments + [t]) == SpaceJoin(fragments) + " " + t
  {
    if fragments != [] {
      assert (fragments + [t])[1..] == fragments[1..] + [t];
      SpaceJoinSnoc(fragments[1..], t);
    }
  }

  /** The transcript is one space per fragment plus the fragments' text. */
  lemma {:induction false} SpaceJoinLength(fragments: seq<string>)
    ensures |SpaceJoin(fragments)| == |fragments| + TotalLength(fragments)
  {
    if fragments != [] {
      SpaceJoinLength(fragments[1..]);
    }
  }

  /** Fragment `k` sits, in order, right after its own space, at offset
      `k + 1` plus the lengths of the fragments before it. */
  lemma {:induction false} SpaceJoinFragmentAt(fragments: seq<string>, k: nat)
    requires k < |fragments|
    ensures var start := k + 1 + TotalLength(fragments[..k]);
      && start + |fragments[k]| <= |SpaceJoin(fragments)|
      && SpaceJoin(fragments)[start - 1] == ' '
      && SpaceJoin(fragments)[start..start + |fragments[k]|] == fragments[k]
  {
    var head := " " + fragments[0];
    var tail := SpaceJoin(fragments[1..]);
    assert SpaceJoin(fragments) == head + tail;
    if k == 0 {
      assert fragments[..0] == [];
      assert (head + tail)[1..1 + |fragments[0]|] == fragments[0];
    } else {
      SpaceJoinFragmentAt(fragments[1..], k - 1);
      assert fragments[1..][..k - 1] == fragments[..k][1..];
      assert fragments[1..][k - 1] == fragments[k];
      var start' := k + TotalLength(fragments[1..][..k - 1]);
      assert TotalLength(fragments[..k]) == |fragments[0]| + TotalLength(fragments[1..][..k - 1]);
      assert start' + |fragments[k]| <= |tail|;
      assert (head + tail)[|head| + start' - 1] == tail[start' - 1];
      assert (head + tail)[|head| + start'..|head| + start' + |fragments[k]|] == tail[start'..start' + |fragments[k]|];
    }
  }

  /** The loop at app.py:56-58: start from the empty string and append a
      space and each fragment's text, in order. */
  method AssembleTranscript(fragments: seq<string>) returns (transcript: string)
    ensures transcript == SpaceJoin(fragments)
  {
    transcript := "";
    for k := 0 to |fragments|
      invariant transcript == SpaceJoin(fragments[..k])
    {
      SpaceJoinSnoc(fragments[..k], fragments[k]);
      assert fragments[..k + 1] == fragments[..k] + [fragments[k]];
      transcript := transcript + " " + fragments[k];
    }
    assert fragments[..|fragments|] == fragments;
  }

  /** What `extract_transcript_details(url)` returns or raises: the
      IndexError of the id split, the transcript service's error, or the
      assembled transcript. */
  function TranscriptFor(url: string, getTranscript: TranscriptService): (r: Result<string, Error>)
    ensures '=' !in url ==> r == Failure(IndexError)
    ensures '=' in url ==> var fetched := getTranscript(TranscriptVideoId(url).value);
      && (fetched.Failure? ==> r == Failure(fetched.error))
      && (fetched.Success? ==> r.Success? && |r.value| == |fetched.value| + TotalLength(fetched.value))
      && (fetched.Success? ==> (r.value == "" <==> fetched.value == []))
    ensures '=' in url && getTranscript(TranscriptVideoId(url).value).Success? ==>
      r == Success(SpaceJoin(getTranscript(TranscriptVideoId(url).value).value))
  {
    match TranscriptVideoId(url)
    case Failure(e) => Failure(e)
    case Success(id) =>
      match getTranscript(id)
      case Failure(e) => Failure(e)
      case Success(fragments) =>
        SpaceJoinLength(fragments);
        Success(SpaceJoin(fragments))
  }

  /** `extract_transcript_details` (app.py:51-63): cut out the id, fetch the
      fragments, run the assembly loop; errors are re-raised unchanged. */
  method ExtractTranscriptDetails(url: string, getTranscript: TranscriptService) returns (r: Result<string, Error>)
    ensures r == TranscriptFor(url, getTranscript)
  {
    var id := TranscriptVideoId(url);
    if id.Failure? {
      return Failure(id.error);
    }
    var fetched := getTranscript(id.value);
    if fetched.Failure? {
      return Failure(fetched.error);
    }
    var transcript := AssembleTranscript(fetched.value);
    return Success(transcript);
  }

  // ---------------------------------------------------------------------
  // The "Generate Detailed Summary" button (app.py:155-183)
  // ---------------------------------------------------------------------

  /** The record `save_summary` inserts; the insertion time is left out. */
  datatype Record = Record(youtubeUrl: string, headline: string, summary: string)

  /** What pressing the button leads to: an error message, nothing (empty
      transcript), or the shown headline and summary with the record saved
      when the user chose "Yes". */
  datatype SummaryOutcome =
    | ErrorShown(error: Error)
    | NothingShown
    | SummaryShown(result: Summary, saved: Option<Record>)

  /** The button handler: any error from the id split, the transcript
      service or the language model is shown and stops everything after it;
      the model is asked, and a record saved, only for a non-empty
      transcript; the saved record holds the link and the shown headline and
      summary. */
  function GenerateSummaryAction(link: string, getTranscript: TranscriptService, generate: ModelService, saveChosen: bool): (o: SummaryOutcome)
    ensures '=' !in link ==> o == ErrorShown(IndexError)
    ensures TranscriptFor(link, getTranscript).Failure? ==> o == ErrorShown(TranscriptFor(link, getTranscript).error)
    ensures TranscriptFor(link, getTranscript) == Success("") ==> o == NothingShown
    ensures o.SummaryShown? ==> TranscriptFor(link, getTranscript).Success? && TranscriptFor(link, getTranscript).value != ""
    ensures o.SummaryShown? ==> (o.saved.Some? <==> saveChosen)
    ensures o.SummaryShown? && o.saved.Some? ==> o.saved.value == Record(link, o.result.headline, o.result.summary)
    ensures var t := TranscriptFor(link, getTranscript);
      t.Success? && t.value != "" ==>
        var reply := generate(PROMPT + t.value);
        && (reply.Failure? ==> o == ErrorShown(reply.error))
        && (reply.Success? ==> o.SummaryShown? && o.result == SplitResponse(reply.value))
  {
    match TranscriptFor(link, getTranscript)
    case Failure(e) => ErrorShown(e)
    case Success(transcript) =>
      if transcript == "" then NothingShown
      else
        match GenerateGeminiContent(transcript, PROMPT, generate)
        case Failure(e) => ErrorShown(e)
        case Success(s) =>
          SummaryShown(s, if saveChosen then Some(Record(link, s.headline, s.summary)) else None)
  }

  /** A link without `=` stops at the id split: whatever the services would
      have answered and whatever the user chose, the outcome is the same
      error, so no service is consulted and nothing is saved. */
  lemma MalformedLinkStopsEarly(link: string, get1: TranscriptService, get2: TranscriptService,
                                gen1: ModelService, gen2: ModelService, save1: bool, save2: bool)
    requires '=' !in link
    ensures GenerateSummaryAction(link, get1, gen1, save1) == GenerateSummaryAction(link, get2, gen2, save2)
    ensures GenerateSummaryAction(link, get1, gen1, save1).ErrorShown?
  {
  }

  /** A video with no caption fragments gives an empty transcript, so the
      model is not asked and nothing is saved. */
  lemma NoFragmentsNothingShown(link: string, getTranscript: TranscriptService, generate: ModelService, saveChosen: bool)
    requires '=' in link
    requires getTranscript(TranscriptVideoId(link).value) == Success([])
    ensures GenerateSummaryAction(link, getTranscript, generate, saveChosen) == NothingShown
  {
  }
}

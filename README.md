# Podcast summarizer: verified model of its string handling

The application (`app.py`, a Streamlit script) takes a pasted YouTube link, fetches the
video's captions, asks a language model for a summary, and optionally stores the result in
MongoDB and reads it aloud through a text-to-speech service. Every substantive step is a call
to a hosted service. What the script computes itself, and what this project models and proves,
is:

- **the headline/summary split** of the model's reply (`generate_gemini_content`):
  `text.split("\n", 1)` with the two placeholder strings, including the dead
  `"No headline available"` branch;
- **the two video-id extractions**: `url.split("=")[1]` for the transcript and
  `link.split("v=")[1]` for the thumbnail, both failing with IndexError when the separator is
  missing, and the thumbnail address built from the second one;
- **the transcript assembly loop**, which appends `" " + text` for each caption fragment;
- **the order of the steps** behind the "Generate Detailed Summary" button: id, transcript,
  empty-transcript guard, language model, optional save.

The project has three modules:

- `wrappers.dfy` (`Wrappers`) holds Option and Result.
- `pystr.dfy` (`PyStr`) models Python's `str.split(sep)`, `str.split(sep, 1)`, `sep.join` and
  list indexing, for a non-empty separator. It proves that joining the pieces of a split with the
  separator gives back the string, that no piece contains the separator, and that `s.split(sep)[1]` is the text after the first separator
  up to the next one.
- `app.dfy` (`App`) holds the application's own logic.

The hosted services are parameters. The transcript service is a function from video id to the
caption texts or an error. The language model is a function from prompt to reply text or an
error. Only their results enter the model.

Three details of the code's behaviour are easy to misread:

- An empty reply from the language model gives headline `""` and summary
  `"No summary available"`. It does not give both placeholders, because Python's `"".split("\n", 1)`
  is `[""]`.
- The transcript is not just fragments separated by single spaces. Every fragment, the first
  one included, is preceded by a space, so a non-empty transcript starts with `" "`.
- The source file is stored with CRLF line ends. Python reads source text with universal
  newlines, so the prompt constant holds `"\n"` line breaks.

## Model

| member | source | states |
|---|---|---|
| `PyStr.FindFirst` | app.py:71 | the result is the leftmost occurrence of the separator, and there is none exactly when the separator does not occur |
| `PyStr.Split` | app.py:53 | `s.split(sep)` always has at least one piece, and more than one exactly when `sep` occurs in `s` |
| `PyStr.SplitJoin` | app.py:53 | joining the pieces of `s.split(sep)` with `sep` gives back `s` |
| `PyStr.SplitPiecesFree` | app.py:148 | no piece of `s.split(sep)` contains `sep` |
| `PyStr.SplitSecondField` | app.py:53 | when `sep` occurs, `s.split(sep)[1]` exists and is the text after the first `sep` up to the next `sep` or the end |
| `PyStr.SecondFieldUnique` | app.py:148 | that field is determined by the string: two candidates are equal |
| `PyStr.SplitOnce` | app.py:71 | `s.split(sep, 1)` has one or two pieces, two exactly when `sep` occurs; the first piece has no `sep`; with one piece it is `s`, with two `p0 + sep + p1 == s` |
| `PyStr.At` | app.py:53 | `xs[k]` raises IndexError exactly when `k` is past the end, and otherwise is element `k` |
| `App.SplitResponse` | app.py:71-73 | the headline never contains a newline and is a prefix of the reply; with a newline, `headline + "\n" + summary` is the reply exactly (the summary may hold further newlines); without one, the headline is the whole reply and the summary is `"No summary available"` |
| `App.HeadlinePlaceholderUnreachable` | app.py:72 | the headline is always the first piece of the split, so `"No headline available"` appears only when the reply itself begins with it |
| `App.EmptyResponse` | app.py:71-73 | an empty reply gives headline `""` and summary `"No summary available"` |
| `App.GenerateGeminiContent` | app.py:66-75 | the model is asked with the prompt followed by the transcript; its error is passed on unchanged; a successful reply gives exactly the headline/summary split of that reply |
| `App.TranscriptVideoId` | app.py:53 | IndexError exactly when the link has no `=`; otherwise the text after the first `=` up to the next `=` or the end, holding no `=` |
| `App.ThumbnailVideoId` | app.py:148 | IndexError exactly when the link has no `v=`; otherwise the text after the first `v=` up to the next `v=` or the end, holding no `v=` |
| `App.ThumbnailUrl` | app.py:148-149 | fails exactly when the link has no `v=`; otherwise is `http://img.youtube.com/vi/`, the field after the first `v=`, and `/0.jpg` |
| `App.LinkPreview` | app.py:146-152 | nothing for an empty link; the invalid-link message exactly when a non-empty link has no `v=`; otherwise the thumbnail address |
| `App.WatchUrlTranscriptId` | app.py:53 | on `https://www.youtube.com/watch?v=` + id + tail, with no `=` in id and tail empty or starting with `=`, the transcript id is id |
| `App.WatchUrlThumbnailId` | app.py:148 | on `https://www.youtube.com/watch?v=` + id, with no `v=` in id, the thumbnail id is id |
| `App.WatchUrlIdsAgree` | app.py:53 | on a plain watch address whose id has no `=`, both extractors return the same id |
| `App.ExtractorsDisagree` | app.py:148 | for `https://www.youtube.com/watch?v=abc&t=10` the transcript id is `abc&t` and the thumbnail id is `abc&t=10` |
| `App.SpaceJoin` | app.py:56-58 | the transcript of no fragments is `""`, and a non-empty one starts with a space |
| `App.SpaceJoinSnoc` | app.py:58 | appending a fragment to the list appends `" "` and the fragment to the transcript |
| `App.SpaceJoinLength` | app.py:56-58 | the transcript's length is the number of fragments plus the sum of their lengths |
| `App.SpaceJoinFragmentAt` | app.py:57-58 | fragment k appears, in order, right after a space, at offset k + 1 plus the lengths of the fragments before it |
| `App.AssembleTranscript` | app.py:56-60 | the loop's result equals the recursive join of the fragments |
| `App.TranscriptFor` | app.py:51-63 | IndexError for a link without `=`, whatever the service would answer; the service's error passed on; otherwise exactly the space-prefixed join of the fragments, of length n plus the fragments' lengths, empty exactly when there are no fragments |
| `App.ExtractTranscriptDetails` | app.py:51-63 | the method (id, fetch, assembly loop, re-raised errors) computes exactly `TranscriptFor` |
| `App.GenerateSummaryAction` | app.py:155-183 | any error from the id split, the transcript service or the model is shown; an empty transcript shows nothing; for a non-empty transcript the model's error is shown, or else the headline/summary split of its reply; a summary is shown only for a non-empty transcript; a record is saved exactly when "Yes" was chosen, holding the link and the shown headline and summary |
| `App.MalformedLinkStopsEarly` | app.py:157-160 | for a link without `=` the outcome is an error, the same whatever the services and the save choice |
| `App.NoFragmentsNothingShown` | app.py:159 | a video with no caption fragments gives an empty transcript, so the model is not asked and nothing is saved |

## Left out

- MongoDB access (`save_summary`, `get_latest_saved_summaries`, `search_summaries_by_headline`,
  app.py:29-48) is a thin wrapper over a database driver that is not part of this model. The
  insert appears only as the `Record` an outcome carries. The search passes the user's text as
  a regular expression, not as a literal substring. The insertion time is a clock read
  (`datetime.now()`), so `Record` has no timestamp.
- The language-model call (app.py:67-68), the transcript fetch (app.py:54) and the
  text-to-speech call with the joining of its audio chunks (`generate_audio`, app.py:79-92) are
  network services. The first two are function parameters. Text-to-speech and the "Generate
  Voice Summary" button (app.py:186-196) are not modelled.
- Streamlit UI, page setup, secrets, session state, search box, browse slider, spinners and the
  text of the messages (app.py:11-22, app.py:97-142, app.py:198-199) are presentation plumbing.
  The outcome datatypes name which message is shown, not its wording.
- App.GenerateSummaryAction: a failure of the save itself is not modelled, because MongoDB is
  out of scope. The radio button's answer is a boolean parameter. In the running app it is
  always "Yes": Streamlit reruns the script on every widget change, so when the button reads
  True the radio still holds its preselected "Yes", and changing the radio starts a new run in
  which the button reads False. In practice every generated summary is saved.
- App.TranscriptFor: each caption fragment is its `"text"` value. The other keys of a fragment
  (start, duration) are unused, and a fragment without `"text"` (a KeyError) is not modelled.
- PyStr.Split: only non-empty separators are modelled. Python raises ValueError for an empty
  one, and app.py never passes one.
- Exceptions other than IndexError are carried as `ServiceError(message)` with the service's
  message, not as distinct Python exception classes.

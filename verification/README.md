# Audio transcription page: a Dafny model

`main.py` of sermon-guide-helper is a Streamlit page. The user uploads an audio file,
and the page sends it to a speech-to-text service. It tidies the returned text into
paragraphs, keeps that text in the session, shows it, and offers it as a
`<name>_transcription.txt` download. A Reset button clears the text and renews the
upload widget.

This project models the page's three pieces of sequential logic as pure Dafny
functions and proves what they promise.

- **PyStr** (`pystr.dfy`) holds the Python string operations the page relies on:
  - `str.isspace` on one character;
  - `str.strip()`, as a scan for where the content starts and ends;
  - `str.split(sep)` for a one-character separator, keeping empty pieces;
  - `sep.join`.

  `strip` gets an independent characterisation: it cuts whitespace-only margins off
  and leaves a trimmed middle, and that result is unique. `split` is proved to be the
  inverse of `join`.
- **Paragraphs** (`paragraphs.dfy`) covers the post-processing of the service's text.
  - `Normalize` (line 85): split on `'\n'`, strip every line, drop the blank ones.
  - `Transcript` (line 106): join the survivors with `"\n\n"`.
- **Paths** (`paths.dfy`) models `os.path.splitext` following posixpath's rules, plus
  the two names derived from the uploaded file:
  - the temporary file's suffix (line 98);
  - the download name (lines 129-130).
- **Session** (`session.dfy`) models the session as a reducer.
  - Store-level pieces: the Streamlit session store is a map from keys to values.
    `Init` fills in missing keys (lines 69-76). `Load` and `Save` convert between the
    store and a typed `State(transcription, uploadCounter)`.
  - `Render` is one run of lines 93-140. It takes:
    - the state;
    - the file the upload widget holds, if any;
    - whether Reset was pressed;
    - the transcription service, as a function from a `Request` to a `Reply`.

    It returns the next state, whether the service was called, and what the page
    shows.
  - `Replay` runs a sequence of such runs, each starting from the previous state.
    Each run has its own service, so a service that raises once and answers later is
    expressible. Lemmas about `Replay` state properties of whole sessions.
- **Wrappers** (`wrappers.dfy`) defines `Option`, which stands for `None`-or-value.

Three behaviours of the code as written that the model follows:

- **The service raises.** The exception is not caught and the run stops. The stored
  transcription stays falsy, so the next run calls the service again (`RaiseIsRetried`).
- **A whitespace-only reply.** It is stored as `""`. That is falsy, so the next run
  with a file held calls the service again (`BlankReplyIsRetried`).
- **The file is replaced without Reset.** The service is not called and the old text
  stays on the page, but the download name follows the new file's name. This looks
  like a side effect of the "only transcribe if empty" guard rather than a chosen
  policy. The model follows the code.

## Model

| member | source | states |
|---|---|---|
| PyStr.Strip | main.py:85 | `p.strip()` is trimmed, and it is empty exactly when the line is whitespace only (the filter `if p.strip()`) |
| PyStr.StripCharacterized | main.py:85 | a string is what `strip()` returns exactly when it is the middle left after cutting whitespace-only margins off the line, with no whitespace at its ends; so there is one such result |
| PyStr.StripIdempotent | main.py:85 | stripping a stripped line changes nothing |
| PyStr.StripKeepsOnlyOwnChars | main.py:85 | stripping never introduces a character (in particular no `'\n'`) |
| PyStr.Split | main.py:85 | `split('\n')` gives at least one piece, no piece contains the separator, and joining the pieces with the separator gives the input back |
| PyStr.SplitOfJoin | main.py:85 | splitting separator-free pieces joined with the separator recovers exactly those pieces |
| Paragraphs.Normalize | main.py:85 | every paragraph is non-empty, has no leading or trailing whitespace and contains no newline |
| Paragraphs.KeepNonBlankGivesParagraphs | main.py:85 | the comprehension keeps at most as many items as there are lines, and each kept item is a paragraph when no line contains `'\n'` |
| Paragraphs.NonBlankIndices | main.py:85 | lists, in increasing order, the positions of exactly the non-blank lines |
| Paragraphs.NormalizeKeepsNonBlankLines | main.py:85 | the m-th paragraph is the stripped m-th non-blank line: the non-blank lines are kept, trimmed, in their order, and nothing else is kept |
| Paragraphs.KeepNonBlankAppend | main.py:85 | the comprehension distributes over concatenation of its input lines |
| Paragraphs.KeepNonBlankEmpty | main.py:85 | no paragraphs exactly when every line is blank |
| Paragraphs.Transcript | main.py:85-106 | the stored text holds the same paragraphs as the service's text, and it is `""` (falsy) exactly when that text was whitespace only |
| Paragraphs.ParagraphsSurviveRejoin | main.py:85-106 | paragraphs joined with `"\n\n"` normalise back to the same paragraphs |
| Paragraphs.NormalizeIdempotent | main.py:85-106 | storing the stored transcription again gives the same text (the clause that its paragraphs are unchanged is inherited from `Transcript`) |
| Paragraphs.SingleParagraphKept | main.py:85-106 | a reply that is one clean line is stored unchanged |
| Paragraphs.BlankLinesCollapse | main.py:85-106 | any run of whitespace-only lines between two paragraph lines becomes one blank line, and whitespace-only lines after the last one (a trailing newline among them) disappear |
| Paragraphs.HelloWorldExample | main.py:85-106 | the reply `"Hello world.\n\n\nThis is a test.\n"` is stored as `"Hello world.\n\nThis is a test."` |
| Paths.SplitExt | main.py:129 | `root + ext == name`. If the final component has a dot preceded by a non-dot character there, `ext` starts with `.` and holds no further dot or slash; otherwise `ext` is empty |
| Paths.SplitExtUnique | main.py:129 | any split with those properties is the one `splitext` returns |
| Paths.SplitCondition | main.py:129 | the scan `splitext` performs (last dot after last slash, some non-dot before it) decides exactly whether there is an extension |
| Paths.DotfileHasNoExtension | main.py:129 | a name like `.wav` has no extension |
| Paths.TempSuffix | main.py:98 | the temporary file's suffix is empty or starts with `.`; it is non-empty exactly when the name has an extension, and it is a suffix of the name |
| Paths.DownloadName | main.py:129-130 | the download name ends in `_transcription.txt`; without that ending, and followed by the temporary suffix, it gives the uploaded name back |
| Paths.DownloadNameIsTxt | main.py:129-130 | the download name splits into the uploaded root plus `_transcription`, with extension `.txt` |
| Paths.SpeechExample | main.py:98-130 | `speech.mp3` gives a `.mp3` temporary file and the download `speech_transcription.txt` |
| Session.Init | main.py:69-76 | the key set gains `transcription` and `upload_counter`. Existing keys keep their values; a missing key gets `None` or `0` |
| Session.Save | main.py:106-124 | writing the state back makes it what is read next, and no other key changes |
| Session.InitialisationOnlyFillsGaps | main.py:69-76 | a fresh session reads as `None`/`0`. A well-typed store becomes readable, and a readable store is left untouched |
| Session.RequestFor | main.py:98-104 | the service gets model `whisper-1` and the uploaded bytes, under a suffix that completes the uploaded root |
| Session.Render | main.py:93-140 | The service is called exactly when a file is held and the stored transcription is `None` or `""`. Without a call and without a reset, nothing changes. The run ends as `Failed` exactly when the service is called and raises; the screen carries the error, and nothing changes. With a file held, a non-empty text left in the state is always shown. Reset happens only when the text is shown, and then clears the text and adds exactly 1 to the counter. Otherwise the text shown is the stored one, under the held file's download name. A successful call stores the normalised reply |
| Session.UncalledServiceIsIrrelevant | main.py:93-95 | a run that does not call the service gives the same result with any service |
| Session.BlankReplyIsRetried | main.py:95-111 | a whitespace-only reply is stored as `""`, nothing is shown, and the next run with a file calls the service again |
| Session.RaiseIsRetried | main.py:93-104 | when the service raises, the state stays as it was, so the next run with a file calls the service again, whatever answers then |
| Session.RenderKeepsNormalized | main.py:85-106 | every run keeps the stored transcription `None` or already normalised |
| Session.Script | main.py:69-140 | a whole script run leaves a well-typed store that reads as the run's state, and other keys are kept. A store holding both keys runs the page from the state it holds; a fresh session runs it from `None`/`0` |
| Session.CounterCountsResets | main.py:123 | over any session the counter grows by exactly the number of resets |
| Session.ReplayKeepsNormalized | main.py:85-106 | every reachable stored transcription is normalised |
| Session.StoredTextBlocksCalls | main.py:95 | once a text is stored, runs without Reset never call the service and leave the state unchanged |
| Session.TranscribedAtMostOnceUntilReset | main.py:93-111 | while every run's service answers with non-blank text, there is at most one call between resets, whatever files are held |
| Session.RaiseThenAnswer | main.py:93-111 | a service that raises on one run and answers on the next is called on both; the second run stores and shows the normalised reply |
| Session.CleanReplyThenReset | main.py:93-124 | a clean one-line reply is stored and shown verbatim with counter 0; pressing Reset next gives `None` and counter 1 without a call |
| Session.SpeechScenario | main.py:93-130 | upload `speech.mp3` and get "Q1 numbers are up.": it is shown with download `speech_transcription.txt`. Reset gives `State(None, 1)`, and the next upload is transcribed afresh |

## Left out

- Page configuration, CSS, title, columns, text area, spinner and button styling
  (lines 1-59, 112-122, 132-140): rendering only.
  - The model keeps what is shown (`Screen`).
  - The model does not keep how it looks.
- The OpenAI client, the API-key check and the network call (lines 61-66, 78-84): the
  service is the function parameter `service`.
  - A call that returns is `Transcribed(text)`, with `str(transcript)` as `text`.
  - A call that raises is `Raised(error)`.
- Temporary-file creation, write and unlink (lines 98-108): file-system I/O. Only the
  suffix chosen for the file is modelled. The file's content is the upload's bytes,
  passed in `Request`. `Request` carries that suffix, not the random temporary path
  the client actually opens and sends.
- `current_model` (lines 71-72) and the `download_clicked` message (lines 141-142):
  they are set or read but never drive any behaviour.
- The allowed-extension list (line 90): the upload widget enforces it before the
  script sees a file. `Upload` accepts any name.
- `st.rerun()` and the widget key `uploader_<counter>` (lines 91, 125): how Streamlit
  re-runs the script. The file held by the widget and the Reset click are inputs of
  each run.
  - Streamlit only reports a click on a button shown in the previous run. The model
    does not restrict the `resetPressed` input to such runs.
  - A renewed widget key empties the widget. The next run's `upload` input is then
    simply `None`.
- PyStr.Split: only single-character separators are modelled, which is the only form
  the page uses.
- Paths.SplitExt: models the POSIX `os.path.splitext`. The Windows variant, with `\`
  and drive letters, is not part of this model.
- Session.Render: the counter is unbounded (`nat`), as Python's `int` is.
- Characters are Dafny `char`s. `str.isspace` is modelled by its code-point table,
  with no further Unicode handling.

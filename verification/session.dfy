/** The page's session logic (main.py lines 69-76 and 93-125) as a pure reducer.
    One call of `Render` is one run of the script: it reads the session state, the
    file currently held by the upload widget and whether Reset was pressed, and
    returns the next state, whether the transcription service was called, and what
    the page shows. The service itself is a function parameter. */
module Session {
  import opened Wrappers
  import opened PyStr
  import Paragraphs
  import Paths

  /** The kinds of value this page keeps in Streamlit's session store; `Other`
      stands for anything the page does not interpret (widget state, other keys). */
  datatype Value = PyNone | PyText(text: string) | PyInt(n: int) | Other

  type Store = map<string, Value>

  const TranscriptionKey: string := "transcription"
  const CounterKey: string := "upload_counter"

  /** The typed view of the two keys the page owns. */
  datatype State = State(transcription: Option<string>, uploadCounter: nat)

  /** The state of a fresh session. */
  const Initial: State := State(None, 0)

  /** The two owned keys, where present, hold values of the expected kind. */
  predicate WellTyped(store: Store) {
    && (TranscriptionKey in store ==> store[TranscriptionKey].PyNone? || store[TranscriptionKey].PyText?)
    && (CounterKey in store ==> store[CounterKey].PyInt? && store[CounterKey].n >= 0)
  }

  /** main.py lines 69-76: give each owned key its initial value unless it is
      already there. */
  function Init(store: Store): (r: Store)
    ensures r.Keys == store.Keys + {TranscriptionKey, CounterKey}
    ensures forall k :: k in store ==> r[k] == store[k]
    ensures TranscriptionKey !in store ==> r[TranscriptionKey] == PyNone
    ensures CounterKey !in store ==> r[CounterKey] == PyInt(0)
  {
    var withText := if TranscriptionKey in store then store else store[TranscriptionKey := PyNone];
    if CounterKey in withText then withText else withText[CounterKey := PyInt(0)]
  }

  /** Reads the owned keys; `None` when either is missing or of the wrong kind. */
  function Load(store: Store): Option<State>
  {
    if TranscriptionKey in store && CounterKey in store && WellTyped(store) then
      var text := if store[TranscriptionKey].PyText? then Some(store[TranscriptionKey].text) else None;
      Some(State(text, store[CounterKey].n))
    else
      None
  }

  /** Writes the owned keys back, leaving every other key as it was. */
  function Save(store: Store, st: State): (r: Store)
    ensures Load(r) == Some(st)
    ensures r.Keys == store.Keys + {TranscriptionKey, CounterKey}
    ensures forall k :: k in store && k != TranscriptionKey && k != CounterKey ==> r[k] == store[k]
  {
    var text := match st.transcription case None => PyNone case Some(t) => PyText(t);
    store[TranscriptionKey := text][CounterKey := PyInt(st.uploadCounter)]
  }

  /** Saving what was loaded changes nothing. */
  lemma SaveWhatWasLoaded(store: Store)
    requires Load(store).Some?
    ensures Save(store, Load(store).value) == store
  {
    var r := Save(store, Load(store).value);
    assert r[TranscriptionKey] == store[TranscriptionKey];
    assert r.Keys == store.Keys;
  }

  /** A fresh session starts with no transcription and counter 0, and on any later
      run initialisation leaves a session that already has both keys untouched. */
  lemma InitialisationOnlyFillsGaps(store: Store)
    ensures Load(Init(map[])) == Some(Initial)
    ensures WellTyped(store) ==> Load(Init(store)).Some?
    ensures Load(store).Some? ==> Init(store) == store
  {
    var empty: Store := map[];
    assert Init(empty) == map[TranscriptionKey := PyNone, CounterKey := PyInt(0)];
    if WellTyped(store) {
      assert WellTyped(Init(store));
    }
  }

  /** Python truthiness of the stored transcription: neither `None` nor `""`. */
  predicate Truthy(t: Option<string>) {
    t.Some? && t.value != ""
  }

  newtype byte = x: int | 0 <= x < 256

  /** The file held by the upload widget. */
  datatype Upload = Upload(name: string, content: seq<byte>)

  /** What the transcription service is given: the model name and the temporary
      file, that is, the uploaded bytes under a name ending in the upload's extension. */
  datatype Request = Request(model: string, content: seq<byte>, suffix: string)

  /** The service answers with text or raises. */
  datatype Reply = Transcribed(text: string) | Raised(error: string)

  type Transcriber = Request -> Reply

  const Model: string := "whisper-1"

  /** main.py lines 98-104: the request built from an upload. */
  function RequestFor(u: Upload): (q: Request)
    ensures q.model == Model && q.content == u.content
    ensures Paths.SplitExt(u.name).root + q.suffix == u.name
  {
    Request(Model, u.content, Paths.TempSuffix(u.name))
  }

  /** What one run of the script leaves on the page. */
  datatype Screen =
    | Uploader                                  // the upload widget and nothing below it
    | Shown(text: string, downloadName: string) // text area, Reset and Download buttons
    | Restarted                                 // Reset pressed: state updated, script re-run
    | Failed(error: string)                     // the service raised; the run ends there

  datatype Run = Run(state: State, called: bool, screen: Screen)

  /** main.py lines 123-124. */
  function Reset(st: State): State {
    State(None, st.uploadCounter + 1)
  }

  /** main.py lines 110-140, after the transcription guard: the display block, whose
      Reset button ends the run. */
  function Page(st: State, u: Upload, resetPressed: bool, called: bool): Run {
    if !Truthy(st.transcription) then Run(st, called, Uploader)
    else if resetPressed then Run(Reset(st), called, Restarted)
    else Run(st, called, Shown(st.transcription.value, Paths.DownloadName(u.name)))
  }

  /** One run of main.py lines 93-140. */
  function Render(st: State, upload: Option<Upload>, resetPressed: bool, service: Transcriber): (r: Run)
    // the service is called exactly when a file is held and the stored text is falsy
    ensures r.called <==> upload.Some? && !Truthy(st.transcription)
    // the counter moves only on reset, and then by one
    ensures r.state.uploadCounter == st.uploadCounter + (if r.screen.Restarted? then 1 else 0)
    // without a call and without a reset the state is unchanged
    ensures !r.called && !r.screen.Restarted? ==> r.state == st
    // a failing service leaves the state as it was
    ensures r.screen.Failed? ==> r.called && r.state == st
    // ... and it comes only from a service that raised
    ensures r.screen.Failed? ==> upload.Some? && service(RequestFor(upload.value)).Raised?
    // a call that raises ends the run as Failed, with the service's error
    ensures upload.Some? && !Truthy(st.transcription) && service(RequestFor(upload.value)).Raised? ==>
      r == Run(st, true, Failed(service(RequestFor(upload.value)).error))
    // reset happens only with a file held and the button pressed, and clears the text
    ensures r.screen.Restarted? ==> upload.Some? && resetPressed && r.state.transcription == None
    // ... and only while a non-empty text is on display: the stored one or the one just received
    ensures r.screen.Restarted? ==>
      || Truthy(st.transcription)
      || (&& service(RequestFor(upload.value)).Transcribed?
          && Paragraphs.Transcript(service(RequestFor(upload.value)).text) != "")
    // a held file and a stored text: the button is shown, so pressing it resets
    ensures upload.Some? && resetPressed && Truthy(st.transcription) ==> r.screen.Restarted?
    // a held file and a stored text without a press: the stored text is shown, under
    // a download name derived from whatever file the widget now holds
    ensures upload.Some? && !resetPressed && Truthy(st.transcription) ==>
      r.state == st && r.screen == Shown(st.transcription.value, Paths.DownloadName(upload.value.name))
    // with a file held, a non-empty text left in the state is on display
    ensures upload.Some? && Truthy(r.state.transcription) ==> r.screen.Shown?
    // what is shown is the state's non-empty text and the held file's download name
    ensures r.screen.Shown? ==>
      && upload.Some? && !resetPressed && Truthy(r.state.transcription)
      && r.screen.text == r.state.transcription.value
      && r.screen.downloadName == Paths.DownloadName(upload.value.name)
    // a successful call stores the normalised reply
    ensures r.called && !r.screen.Restarted? && service(RequestFor(upload.value)).Transcribed? ==>
      r.state.transcription == Some(Paragraphs.Transcript(service(RequestFor(upload.value)).text))
  {
    match upload
    case None => Run(st, false, Uploader)
    case Some(u) =>
      if Truthy(st.transcription) then Page(st, u, resetPressed, false)
      else
        match service(RequestFor(u))
        case Raised(e) => Run(st, true, Failed(e))
        case Transcribed(text) =>
          Page(st.(transcription := Some(Paragraphs.Transcript(text))), u, resetPressed, true)
  }

  /** When the service is not called, the run does not depend on it. */
  lemma UncalledServiceIsIrrelevant(st: State, upload: Option<Upload>, resetPressed: bool,
                                    service: Transcriber, other: Transcriber)
    requires !Render(st, upload, resetPressed, service).called
    ensures Render(st, upload, resetPressed, service) == Render(st, upload, resetPressed, other)
  {
  }

  /** A reply that is whitespace only is stored as `""`, which is falsy, so the
      next run with a file held calls the service again. */
  lemma BlankReplyIsRetried(st: State, u: Upload, resetPressed: bool, service: Transcriber,
                            next: Option<Upload>, nextPressed: bool, nextService: Transcriber)
    requires !Truthy(st.transcription)
    requires service(RequestFor(u)).Transcribed? && AllSpace(service(RequestFor(u)).text)
    ensures var r := Render(st, Some(u), resetPressed, service);
            && r.state.transcription == Some("")
            && r.screen == Uploader
            && (next.Some? ==> Render(r.state, next, nextPressed, nextService).called)
  {
  }

  /** A raising service leaves the state as it was, so the next run with a file held
      calls the service again, whatever the button and whichever service answers. */
  lemma RaiseIsRetried(st: State, u: Upload, resetPressed: bool, service: Transcriber,
                       next: Upload, nextPressed: bool, nextService: Transcriber)
    requires !Truthy(st.transcription)
    requires service(RequestFor(u)).Raised?
    ensures var r := Render(st, Some(u), resetPressed, service);
            && r.called && r.state == st && r.screen.Failed?
            && Render(r.state, Some(next), nextPressed, nextService).called
  {
  }

  /** The stored transcription is always `None` or text already in normal form. */
  predicate Normalized(st: State) {
    st.transcription.None? || Paragraphs.Transcript(st.transcription.value) == st.transcription.value
  }

  /** Every run keeps the stored transcription in normal form. */
  lemma RenderKeepsNormalized(st: State, upload: Option<Upload>, resetPressed: bool, service: Transcriber)
    requires Normalized(st)
    ensures Normalized(Render(st, upload, resetPressed, service).state)
  {
    if upload.Some? && service(RequestFor(upload.value)).Transcribed? {
      Paragraphs.NormalizeIdempotent(service(RequestFor(upload.value)).text);
    }
  }

  /** One run of the whole script: initialise the store, run the page, write back. */
  datatype ScriptRun = ScriptRun(store: Store, run: Run)

  function Script(store: Store, upload: Option<Upload>, resetPressed: bool, service: Transcriber): (r: ScriptRun)
    requires WellTyped(store)
    ensures WellTyped(r.store) && Load(r.store) == Some(r.run.state)
    ensures forall k :: k in store && k != TranscriptionKey && k != CounterKey ==> k in r.store && r.store[k] == store[k]
    // a store that already holds both keys is run from the state it holds
    ensures Load(store).Some? ==> r.run == Render(Load(store).value, upload, resetPressed, service)
    // a fresh session is run from `None` and `0`
    ensures TranscriptionKey !in store && CounterKey !in store ==>
      r.run == Render(Initial, upload, resetPressed, service)
  {
    InitialisationOnlyFillsGaps(store);
    var st := Load(Init(store)).value;
    var run := Render(st, upload, resetPressed, service);
    ScriptRun(Save(Init(store), run.state), run)
  }

  /** The inputs of one run: the file the widget holds, whether Reset was pressed, and
      how the service answers during that run (a service may raise once and answer
      the next time). */
  datatype Input = Input(upload: Option<Upload>, resetPressed: bool, service: Transcriber)

  datatype Trace = Trace(runs: seq<Run>, last: State)

  /** Runs the script once per input, each run starting from the previous run's state. */
  function Replay(st: State, inputs: seq<Input>): (t: Trace)
    ensures |t.runs| == |inputs|
    decreases |inputs|
  {
    if |inputs| == 0 then Trace([], st)
    else
      var r := Render(st, inputs[0].upload, inputs[0].resetPressed, inputs[0].service);
      var rest := Replay(r.state, inputs[1..]);
      Trace([r] + rest.runs, rest.last)
  }

  function Calls(runs: seq<Run>): nat {
    if |runs| == 0 then 0 else (if runs[0].called then 1 else 0) + Calls(runs[1..])
  }

  function Resets(runs: seq<Run>): nat {
    if |runs| == 0 then 0 else (if runs[0].screen.Restarted? then 1 else 0) + Resets(runs[1..])
  }

  /** The upload counter counts the resets: it never decreases and grows by one per reset. */
  lemma {:induction false} CounterCountsResets(st: State, inputs: seq<Input>)
    ensures var t := Replay(st, inputs);
            t.last.uploadCounter == st.uploadCounter + Resets(t.runs)
    decreases |inputs|
  {
    if |inputs| > 0 {
      var r := Render(st, inputs[0].upload, inputs[0].resetPressed, inputs[0].service);
      CounterCountsResets(r.state, inputs[1..]);
      assert ([r] + Replay(r.state, inputs[1..]).runs)[1..] == Replay(r.state, inputs[1..]).runs;
    }
  }

  /** A reachable state is normalised. */
  lemma {:induction false} ReplayKeepsNormalized(st: State, inputs: seq<Input>)
    requires Normalized(st)
    ensures Normalized(Replay(st, inputs).last)
    decreases |inputs|
  {
    if |inputs| > 0 {
      RenderKeepsNormalized(st, inputs[0].upload, inputs[0].resetPressed, inputs[0].service);
      var r := Render(st, inputs[0].upload, inputs[0].resetPressed, inputs[0].service);
      ReplayKeepsNormalized(r.state, inputs[1..]);
    }
  }

  /** The service always answers with some non-blank text. */
  ghost predicate AnswersWithText(service: Transcriber) {
    forall q :: service(q).Transcribed? && !AllSpace(service(q).text)
  }

  /** Once a transcription is stored, runs without a reset never call the service. */
  lemma {:induction false} StoredTextBlocksCalls(st: State, inputs: seq<Input>)
    requires Truthy(st.transcription)
    requires forall i :: 0 <= i < |inputs| ==> !inputs[i].resetPressed
    ensures Calls(Replay(st, inputs).runs) == 0
    ensures Replay(st, inputs).last == st
    decreases |inputs|
  {
    if |inputs| > 0 {
      var r := Render(st, inputs[0].upload, inputs[0].resetPressed, inputs[0].service);
      StoredTextBlocksCalls(r.state, inputs[1..]);
      assert ([r] + Replay(r.state, inputs[1..]).runs)[1..] == Replay(r.state, inputs[1..]).runs;
    }
  }

  /** While every run's service answers with non-blank text, the audio is transcribed
      at most once until the session is reset, however often the page re-runs and
      whatever file is held. */
  lemma {:induction false} TranscribedAtMostOnceUntilReset(st: State, inputs: seq<Input>)
    requires forall i :: 0 <= i < |inputs| ==> AnswersWithText(inputs[i].service)
    requires forall i :: 0 <= i < |inputs| ==> !inputs[i].resetPressed
    ensures Calls(Replay(st, inputs).runs) <= 1
    decreases |inputs|
  {
    if |inputs| > 0 {
      var r := Render(st, inputs[0].upload, inputs[0].resetPressed, inputs[0].service);
      var rest := Replay(r.state, inputs[1..]);
      assert ([r] + rest.runs)[1..] == rest.runs;
      if r.called {
        StoredTextBlocksCalls(r.state, inputs[1..]);
      } else {
        TranscribedAtMostOnceUntilReset(r.state, inputs[1..]);
      }
    }
  }

  /** A two-run session, unrolled. */
  lemma ReplayTwo(st: State, i1: Input, i2: Input)
    ensures var r1 := Render(st, i1.upload, i1.resetPressed, i1.service);
            var r2 := Render(r1.state, i2.upload, i2.resetPressed, i2.service);
            Replay(st, [i1, i2]) == Trace([r1, r2], r2.state)
  {
    var r1 := Render(st, i1.upload, i1.resetPressed, i1.service);
    assert [i1, i2][1..] == [i2] && [i2][1..] == [];
    var r2 := Render(r1.state, i2.upload, i2.resetPressed, i2.service);
    assert Replay(r1.state, [i2]) == Trace([r2], r2.state);
  }

  /** A service that raises on one run and answers on the next: both runs call it, and
      the second stores and shows the normalised reply. */
  lemma RaiseThenAnswer(st: State, u: Upload, first: Transcriber, second: Transcriber)
    requires !Truthy(st.transcription)
    requires first(RequestFor(u)).Raised?
    requires second(RequestFor(u)).Transcribed? && !AllSpace(second(RequestFor(u)).text)
    ensures var t := Replay(st, [Input(Some(u), false, first), Input(Some(u), false, second)]);
            var stored := Paragraphs.Transcript(second(RequestFor(u)).text);
            && Calls(t.runs) == 2
            && t.runs[0].screen.Failed?
            && t.runs[1].screen == Shown(stored, Paths.DownloadName(u.name))
            && t.last == st.(transcription := Some(stored))
  {
    var stored := Paragraphs.Transcript(second(RequestFor(u)).text);
    var r1 := Render(st, Some(u), false, first);
    assert r1 == Run(st, true, Failed(first(RequestFor(u)).error));
    var r2 := Render(st, Some(u), false, second);
    assert stored != "";
    assert r2 == Run(st.(transcription := Some(stored)), true, Shown(stored, Paths.DownloadName(u.name)));
    ReplayTwo(st, Input(Some(u), false, first), Input(Some(u), false, second));
    assert [r1, r2][1..] == [r2] && [r2][1..] == [];
    assert Calls([r2]) == 1;
    assert Calls([r1, r2]) == 2;
  }

  /** A reply that is already one clean paragraph is stored and shown verbatim on the
      first run, and pressing Reset on the next run clears it and bumps the counter. */
  lemma CleanReplyThenReset(u: Upload, text: string, service: Transcriber)
    requires Paragraphs.IsParagraph(text)
    requires service(RequestFor(u)) == Transcribed(text)
    ensures var r1 := Render(Initial, Some(u), false, service);
            && r1 == Run(State(Some(text), 0), true, Shown(text, Paths.DownloadName(u.name)))
            && Render(r1.state, Some(u), true, service) == Run(State(None, 1), false, Restarted)
  {
    Paragraphs.SingleParagraphKept(text);
  }

  /** Upload `speech.mp3`, get "Q1 numbers are up.", press Reset: the counter moves
      to 1, the text is cleared, and the next upload is transcribed afresh. */
  // The file name is written as root + extension so that the verifier sees where
  // `splitext` cuts it.
  lemma SpeechScenario(content: seq<byte>, next: Upload, service: Transcriber)
    requires forall q :: service(q) == Transcribed("Q1 numbers are up.")
    ensures var u := Upload("speech" + ".mp3", content);
            var r1 := Render(Initial, Some(u), false, service);
            var r2 := Render(r1.state, Some(u), true, service);
            && r1.called
            && r1.screen == Shown("Q1 numbers are up.", "speech" + "_transcription.txt")
            && !r2.called && r2.screen.Restarted? && r2.state == State(None, 1)
            && Render(r2.state, Some(next), false, service).called
  {
    var text := "Q1 numbers are up.";
    var u := Upload("speech" + ".mp3", content);
    assert Paragraphs.IsParagraph(text) by {
      assert text[0] == 'Q' && text[|text| - 1] == '.' && '\n' !in text;
    }
    assert service(RequestFor(u)) == Transcribed(text);
    CleanReplyThenReset(u, text, service);
    Paths.SpeechExample();
  }
}

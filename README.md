# Stutter Corrector — a verified model of its pipeline

The Stutter Corrector is a desktop tool (`v2.py`). It records speech, transcribes it
with Whisper, asks a Groq chat model to remove the stutter, and speaks the result
with gTTS. This project models the logic between those services in Dafny and
proves what that logic guarantees:

- `correct_stutter`, which falls back to the input;
- the "text after the first colon" rule;
- the interactive handler `record_and_process`, which moves through its status labels as a small state machine;
- the batch handler `batch_process`, which stops at its first failure;
- the two save handlers.

The modules follow the structure of the program:

- `pystr.dfy` (module `PyStr`) holds the Python primitives the code relies on,
  in a stated approximation:
  - `str.strip()` trims ASCII whitespace, including the separators 0x1C-0x1F;
  - `str.split(":", 1)` splits at the first colon;
  - `os.path.splitext` follows the POSIX rules.
- `providers.dfy` (module `Providers`) holds the world the program talks to:
  - The microphone, Whisper, Groq, gTTS and the permission to write a path are
    arrow-typed fields of an `Environment`.
  - Each of them answers with a `Result`, so any of them can fail.
  - The directory tree is the class `FileSystem`, a map from path to contents
    that `Write` and `Replace` (`os.replace`) update in place.
- `stages.dfy` (module `Stages`) holds the module-level helpers of `v2.py`:
  - `correct_stutter` as a function of the completion service;
  - `record_audio` and `text_to_speech` as methods on the file system, each
    proved against a function (`Recorded`, `Spoken`) that gives the new files;
  - `transcribe_audio`.
- `pipeline.dfy` (module `Pipeline`) holds the handlers as functions of the
  providers and of the starting files:
  - `Interact` for `record_and_process`;
  - `ProcessAll`/`BatchRun` for `batch_process`;
  - `SaveText` and `SaveAudio` for the save handlers.

  It also holds the lemmas that state what those handlers guarantee.
- `app.dfy` (module `App`) holds the class `StutterCorrectorApp`:
  - Its fields are the status label, the progress bar, the two text boxes, the
    language menu and the output directory.
  - Two ghost fields record every status text set and every message box opened.
  - Each handler changes these step by step, as the Python method does. The
    recording, batch and save handlers are proved to end in the state the matching
    `Pipeline` function describes; `ChooseLanguage` and `ClearText` state their new
    fields directly.

In the interactive run, the text shown as corrected and spoken is computed from the
transcript, not from what `correct_stutter` returns (v2.py:160-167). Of the chat
call, only its failure, and the error that failure names, matters, and only for the
error box then opened:
`Pipeline.CorrectionIsDiscarded` proves this. Batch mode uses the reply directly,
with no colon rule.

The model follows the code as written, including these behaviours:

- the colon rule is applied to the transcript, not to the corrected text;
- `correct_stutter` has no short-circuit for empty text, and the service is
  asked anyway (`Stages.CorrectStutterAsksEvenForEmptyText`);
- `text_to_speech` does not reject empty text itself, so whether it fails is up to
  the synthesizer;
- batch mode has no per-file isolation: the `try` encloses the whole loop, so the
  first failure abandons the remaining files;
- the Whisper model is loaded again on every call rather than once.

## Model

| member | source | states |
|---|---|---|
| PyStr.LeadingSpaces | v2.py:165 | the count of leading characters `strip` removes never exceeds the length, and the character after them is not whitespace |
| PyStr.LeadingSpacesAreSpaces | v2.py:165 | every character in the removed prefix is whitespace |
| PyStr.TrailingSpaces | v2.py:165 | the count of trailing characters `strip` removes never exceeds the length, and the character before them is not whitespace |
| PyStr.TrailingSpacesAreSpaces | v2.py:165 | every character in the removed suffix is whitespace |
| PyStr.Strip | v2.py:165 | the stripped text is no longer than its input and neither starts nor ends with whitespace |
| PyStr.StripIsInnerSlice | v2.py:165 | the stripped text is a contiguous slice of the input, preceded and followed only by whitespace |
| PyStr.StripEmptyIffAllSpace | v2.py:205-206 | text strips to "" exactly when every character is whitespace, in both directions |
| PyStr.StripIdempotent | v2.py:165 | stripping a stripped text changes nothing |
| PyStr.StripTrailingNewline | v2.py:205 | the newline the text widget appends on `get` does not change the stripped text |
| PyStr.IndexOf | v2.py:165 | the index found holds the character, and no earlier position does |
| PyStr.SplitOnce | v2.py:165 | without the separator the text is one part; with it there are two parts, the first free of the separator, and joining them around the separator rebuilds the text |
| PyStr.RFind | v2.py:244 | -1 exactly when the character is absent; otherwise the position holds it and nothing after it does |
| PyStr.ExtStart | v2.py:244 | the cut point is the end of the path, or a dot with no separator and no other dot after it |
| PyStr.RFindIsLast | v2.py:244 | every occurrence of the character lies at or before the position `rfind` returns |
| PyStr.RFindAt | v2.py:244 | an occurrence with none after it is the position `rfind` returns |
| PyStr.ExtStartAtLastDot | v2.py:244 | a dot after the last separator, preceded in its component by something other than dots, makes the path cut at its last dot: the extension is dropped |
| PyStr.ExtensionShape | v2.py:244 | the last dot, when it follows the last separator, begins a tail free of separators and further dots |
| PyStr.SplitExt | v2.py:244 | root and extension concatenate to the path; the extension is empty or a dot followed by no dot and no separator |
| PyStr.SplitExtExample | v2.py:244 | "d/a.wav" splits into "d/a" and ".wav" |
| PyStr.ExtStartSkipsLeadingDots | v2.py:244 | a cut point always follows, within the final component, something other than a dot, so leading dots never start an extension |
| PyStr.SplitExtDotFileExample | v2.py:244 | "d/.wav" has no extension: it splits into itself and "" |
| Providers.FileSystem.Write | v2.py:245-246 | writing succeeds exactly when the path is writable; then only that path changes, otherwise nothing changes |
| Providers.FileSystem.Replace | v2.py:223 | replacing succeeds exactly when the destination is writable; then the files are those `Moved` gives, otherwise unchanged |
| Providers.Moved | v2.py:223 | after a move the destination holds the source contents, the source is gone unless it is the destination, and every other path is untouched |
| Stages.CorrectionRequest | v2.py:21-35 | one user message to `llama3-8b-8192` capped at 512 tokens, whose content is the fixed prompt followed by the text verbatim |
| Stages.CorrectionRequestInjective | v2.py:21-24 | different texts give different requests |
| Stages.CorrectStutter | v2.py:18-42 | one completion attempt; on success the reply is returned with nothing to report, on failure the input comes back unchanged with the failure to report |
| Stages.CorrectStutterAsksEvenForEmptyText | v2.py:18-39 | empty text is still sent to the service and its reply is used |
| Stages.Frames | v2.py:47 | the frame count `int(duration * sample_rate)` is stated by `Stages.Recorded`, whose recording holds exactly that many samples |
| Stages.Take | v2.py:47 | the capture keeps exactly the number of frames requested |
| Stages.Recorded | v2.py:45-50 | recording succeeds exactly when the device delivers and the path is writable; then only the recording path changes and holds a single-channel WAV at the requested rate with `duration * rate` samples |
| Stages.RecordedSamples | v2.py:47-49 | the saved samples are the first frames the device captured, in order |
| Stages.RecordAudio | v2.py:45-50 | the file system ends as `Recorded` says on success and is unchanged on failure, which carries the same error |
| Stages.Transcribe | v2.py:53-56 | a missing file fails with that path; otherwise the result is Whisper's answer for the file contents and language |
| Stages.Spoken | v2.py:59-63 | synthesis succeeds exactly when gTTS answers for English and the path is writable; then only that path changes, to the MP3 speech |
| Stages.TextToSpeech | v2.py:59-63 | the file system ends as `Spoken` says on success and is unchanged on failure, which carries the same error |
| Pipeline.StatusText | v2.py:139-177 | every label of a working stage ends in "...", and only the "Ready" label does not |
| Pipeline.StatusTextInjective | v2.py:139-177 | the five stages set five different label texts, so a trail of stages is the sequence of texts set |
| Pipeline.CorrectionNotices | v2.py:40-41 | no box after a successful correction; after a failed one, exactly one error box carrying that failure |
| Pipeline.ColonRule | v2.py:164-167 | the colon rule; its contract is stated by `ColonRuleShortens`, `ColonRuleCutsAtFirstColon`, `ColonRuleStripped` and `ColonRuleDropsPrefix` |
| Pipeline.ColonRuleShortens | v2.py:164-167 | text without a colon is kept whole; text with one comes out strictly shorter |
| Pipeline.ColonRuleCutsAtFirstColon | v2.py:164-165 | with a colon, the result is the stripped text after the first colon |
| Pipeline.ColonRuleStripped | v2.py:165 | with a colon, the result has nothing left to strip |
| Pipeline.ColonRuleDropsPrefix | v2.py:164-165 | a reply such as "Corrected: I went to the store" becomes the stripped text after the prefix |
| Pipeline.Interact | v2.py:136-184 | `record_and_process` as a function of the providers and the starting files; what it guarantees is stated by `InteractStages` (stages, boxes and files by the outcome of each provider), `InteractShape`, `InteractOutcome`, `InteractWritesOnlyDefaults`, `TrailFollowsStageOrder`, `RecordingLength` and `CorrectionIsDiscarded` |
| Pipeline.InteractStages | v2.py:139-184 | a failed recording ends the run at [Recording, Ready] with the recorder's error and no file changed; a failed transcription ends it at [Recording, Transcribing, Ready] with the transcriber's error and only the recording saved; otherwise the transcript shown is Whisper's answer, all four stages run, the boxes are the correction's error box if any followed by the success box or the speech failure's error box, and a failed speech leaves the files as after the recording |
| Pipeline.InteractShape | v2.py:136-184 | a run returns to Ready after the recording, after the transcription, or after all four stages; a cancelled prompt changes nothing and opens no box; the corrected text is the colon rule on the transcript and is shown exactly when the transcript is |
| Pipeline.InteractOutcome | v2.py:175-184 | the success box appears exactly when the speech for the shown text is written to `corrected_audio.mp3`, and it is the last box; any other started run ends with an error box |
| Pipeline.InteractWritesOnlyDefaults | v2.py:149-176 | a run only adds or overwrites files, and changes nothing but `recorded_audio.wav` and `corrected_audio.mp3` |
| Pipeline.SpeechStage | v2.py:160-184 | the correction and speech stages always open at least one message box |
| Pipeline.FromRecording | v2.py:151-184 | the stages after the recording; stated by `FromRecordingBoxes` (the boxes and files of a transcribed run), `FromRecordingOutcome` and `InteractStages` |
| Pipeline.FromRecordingBoxes | v2.py:158-184 | after a successful transcription, the boxes are the error box of a failed correction, if any, then the success box or the error box carrying the speech failure; a failed speech leaves the files, `corrected_audio.mp3` included, as after the recording |
| Pipeline.FromRecordingOutcome | v2.py:150-184 | after the recording, success means the speech is at the default path and the last box says so; otherwise the last box is an error; only the default audio path can change |
| Pipeline.TrailFollowsStageOrder | v2.py:139-184 | the label texts set are always a prefix of Recording, Transcribing, Correcting, Generating, followed by Ready |
| Pipeline.RecordingLength | v2.py:143-150 | a recorded run saves a single-channel 16 kHz WAV of exactly `duration * 16000` samples, between 16000 and 960000 |
| Pipeline.CorrectionIsDiscarded | v2.py:160-176 | two runs whose completion services differ set the same labels, transcript and corrected text, write the same files, open boxes in both or in neither with the same last box, and open the same boxes apart from the correction's error box |
| Pipeline.OutputPath | v2.py:244 | the input without its extension, followed by a suffix; stated by `OutputPathShape`, `OutputPathDropsExtension`, `OutputPathNotInput` and `OutputsAreNew` |
| Pipeline.TextOutput | v2.py:244 | the text output, `OutputPath` with "_corrected.txt"; stated by `OutputsAreNew` and `OutputPathExample` |
| Pipeline.AudioOutput | v2.py:249 | the audio output, `OutputPath` with "_corrected.mp3"; stated by `OutputsAreNew` and `OutputPathExample` |
| Pipeline.OutputPathDropsExtension | v2.py:244-249 | when the last component has an extension, the output is the path up to its last dot followed by the suffix |
| Pipeline.OutputPathExample | v2.py:244-249 | "d/a.wav" gives "d/a" followed by "_corrected.txt" and by "_corrected.mp3" |
| Pipeline.OutputPathShape | v2.py:244-249 | an output name ends with its suffix, and what precedes the suffix is the input without its extension |
| Pipeline.OutputPathNotInput | v2.py:244-249 | a suffix that does not start with a dot never reproduces the input path |
| Pipeline.OutputsAreNew | v2.py:244-249 | neither output overwrites its input, and the text and audio outputs of one input differ |
| Pipeline.ProcessFile | v2.py:238-250 | after a failure a pass changes nothing; the rest, including the text output that a failed speech keeps, is stated by `ProcessFileOutcome` and `ProcessFileEffect` |
| Pipeline.ProcessFileOutcome | v2.py:240-250 | a pass completes exactly when the transcription, the text write and the speech all succeed; otherwise it fails with the error of the first failing step, in that order; a transcribed file adds exactly the error box of its correction; a failed speech keeps the text output written before it |
| Pipeline.ProcessFileEffect | v2.py:240-250 | a completed pass writes the `correct_stutter` reply and its speech to the two outputs and counts one more file; a failed pass counts none; files and boxes are only added; no other file changes |
| Pipeline.ProcessAll | v2.py:238-250 | the loop over the selected files; stated by `ProcessAllStep`, `ProcessAllGrows`, `FirstFailureStops`, `CompletedRunHasAllOutputs` and `FailedRunStopsAtDone` |
| Pipeline.ProcessAllStep | v2.py:238 | the loop over `i + 1` files is one more pass after the loop over `i` |
| Pipeline.ProcessAllGrows | v2.py:238-250 | the loop only adds files and boxes, completes at most one file per selected file, and does nothing once a file has failed |
| Pipeline.FirstFailureStops | v2.py:231-254 | files selected after the first failure leave no trace |
| Pipeline.CompletedRunHasAllOutputs | v2.py:238-252 | a run without failure completed every selected file and left both outputs of each |
| Pipeline.FailedRunStopsAtDone | v2.py:238-254 | a failed run completed exactly the files before the failing one, in selection order |
| Pipeline.BatchRun | v2.py:230-254 | an empty selection does nothing; otherwise no file is removed |
| Pipeline.BatchReportsAllOrFailure | v2.py:252-254 | the handler leaves the files of the loop over the selection and adds one box after the loop's boxes: it reports `len(file_paths)` files exactly when no file failed, and then every file was completed; after a failure it is the error box of that failure |
| Pipeline.SaveText | v2.py:204-214 | blank text is refused with a warning and nothing else; non-blank text is never refused: with a chosen writable path it is saved stripped at that path, changing nothing else and announced by one box, and with a cancelled dialog or an unwritable path nothing changes and no box opens |
| Pipeline.SaveAudio | v2.py:216-224 | a missing default file is reported; with an existing default file and a chosen writable path the files become exactly those `Moved` gives, announced by one box; with a cancelled dialog or an unwritable path nothing changes and no box opens |
| App.StutterCorrectorApp.constructor | v2.py:71-134 | the window starts Ready and idle, with empty text boxes, English selected and the working directory as output directory |
| App.StutterCorrectorApp.SetStatus | v2.py:139 | the label is set to the stage and the stage is appended to the trail of labels set |
| App.StutterCorrectorApp.ChooseLanguage | v2.py:86-89 | a pick from the menu becomes the selected language |
| App.StutterCorrectorApp.Abort | v2.py:181-184 | the `except` clause sets Ready, stops the progress bar and opens one error box |
| App.StutterCorrectorApp.RecordAndProcess | v2.py:136-184 | the labels, text boxes, files and boxes end as `Interact` describes, with the status Ready and the progress bar stopped |
| App.StutterCorrectorApp.ProcessRecording | v2.py:151-184 | the stages after the recording end as `FromRecording` describes |
| App.StutterCorrectorApp.CorrectAndSpeak | v2.py:158-184 | the corrected box shows the colon rule on the transcript, the labels are Correcting, Generating and Ready, and files and boxes end as `SpeechStage` describes |
| App.StutterCorrectorApp.SaveCorrectedText | v2.py:204-214 | files and boxes end as `SaveText` describes for the box contents |
| App.StutterCorrectorApp.SaveCorrectedAudio | v2.py:216-224 | files and boxes end as `SaveAudio` describes |
| App.StutterCorrectorApp.ClearText | v2.py:226-228 | both text boxes are empty |
| App.StutterCorrectorApp.BatchProcess | v2.py:230-254 | the loop keeps the files and boxes equal to `ProcessAll` over the files handled so far, and the handler ends as `BatchRun` describes |
| App.StutterCorrectorApp.ProcessOne | v2.py:238-250 | one loop pass leaves the files, boxes and failure as `ProcessFile` describes |

## Left out

- Widget construction and layout, the progress bar's animation and the dialogs
  (v2.py:70-134). The dialog answers are parameters of the handlers; the progress
  bar is a boolean.
- Playback (`play_audio`, `play_recorded_audio`, `play_corrected_audio`,
  v2.py:65-67 and 186-202): shell commands with no state to model.
- `set_output_directory` (v2.py:256-260): it only sets the initial folder of later
  dialogs, which are not modelled.
- Loading `.env` and creating the Groq client (v2.py:11-15): process environment.
- The internals of sounddevice, scipy, Whisper, Groq and gTTS. They are the
  uninterpreted fields of `Environment`, and within one run each answers the same
  request the same way. The reload of the Whisper model on every call has no
  visible effect in that setting.
- `print` output of the helpers (v2.py:46, 50, 62).
- A file that gTTS or `open` leaves partly written when it fails: a failed write
  leaves the files unchanged.
- Exceptions raised in `save_corrected_text` and `save_corrected_audio`, which have
  no `try` and end in Tk's callback handler: the model changes nothing and opens no box.
- Windows path rules: `os.path.splitext` is modelled for '/' separators only.
- PyStr.Strip: removes ASCII whitespace and the separators 0x1C-0x1F only, not the
  non-ASCII whitespace `str.strip()` also removes (U+0085, U+00A0, U+2000-U+200A and
  the other Unicode spaces).
- Providers.Moved: files are keyed by the path string, with no working-directory
  resolution and no symbolic links, so two names for one file are two files. In
  `Pipeline.SaveAudio`, choosing `<cwd>/corrected_audio.mp3` in the save dialog is
  modelled as a move to a new key that removes `corrected_audio.mp3`, whereas
  `os.replace` onto the same file does nothing.
- Pipeline.BatchRun: its own contract states only the empty selection and that no
  file disappears; `Pipeline.BatchReportsAllOrFailure` ties a non-empty run to
  `ProcessAll` (its files, its boxes and the final box), and the lemmas about
  `ProcessAll` state the per-file and failure behaviour.
- Pipeline.SpeechStage: its own contract states only that a box is opened; its
  boxes and files are stated by `Pipeline.FromRecordingBoxes` and
  `Pipeline.InteractStages`, and its success by `Pipeline.FromRecordingOutcome`.

/** The state `StutterCorrectorApp` keeps in its widgets, and its handlers. Each
    handler changes that state step by step, as the Python handler does, and is
    proved to end in the state the matching function of module Pipeline describes. */
module App {
  import opened PyStr
  import opened Providers
  import opened Stages
  import opened Pipeline

  /** Appending two labels one at a time appends both. */
  lemma TwoAppended<T>(a: seq<T>, x: T, y: T)
    ensures a + [x] + [y] == a + [x, y]
  {
  }

  lemma ThreeAppended<T>(a: seq<T>, x: T, y: T, z: T)
    ensures a + [x] + [y] + [z] == a + [x, y, z]
  {
  }

  lemma AppendAssoc<T>(a: seq<T>, b: seq<T>, c: seq<T>)
    ensures a + b + c == a + (b + c)
  {
  }

  /** The entries of the language menu. */
  const LanguageChoices: seq<Language> := ["en", "es", "fr", "de", "hi"]

  class StutterCorrectorApp {
    /** The stage the status label announces; it shows `StatusText(status)`. */
    var status: Status
    /** Whether the progress bar is running. */
    var busy: bool
    /** The contents of the "Recorded Text" box. */
    var inputText: string
    /** The contents of the "Corrected Text" box. */
    var correctedText: string
    /** The selected language (`language_var`). */
    var language: Language
    var outputDirectory: Path
    /** Every stage the status label has been set to, in order (Tk paints only some of them). */
    ghost var statusTrail: seq<Status>
    /** Every message box opened, in order. */
    ghost var notices: seq<Notice>

    constructor (workingDirectory: Path)
      ensures status == Ready && !busy && inputText == "" && correctedText == ""
      ensures language == "en" && outputDirectory == workingDirectory
      ensures statusTrail == [] && notices == []
    {
      status := Ready;
      busy := false;
      inputText := "";
      correctedText := "";
      language := "en";
      outputDirectory := workingDirectory;
      statusTrail := [];
      notices := [];
    }

    /** A pick from the language menu. */
    method ChooseLanguage(choice: Language)
      requires choice in LanguageChoices
      modifies this`language
      ensures language == choice
    {
      language := choice;
    }

    method SetStatus(stage: Status)
      modifies this`status, this`statusTrail
      ensures status == stage && statusTrail == old(statusTrail) + [stage]
    {
      status := stage;
      statusTrail := statusTrail + [stage];
    }

    /** The `except` clause of `record_and_process`. */
    method Abort(cause: Error)
      modifies this`status, this`statusTrail, this`busy, this`notices
      ensures status == Ready && statusTrail == old(statusTrail) + [Ready] && !busy
      ensures notices == old(notices) + [RunFailed(cause)]
    {
      SetStatus(Ready);
      busy := false;
      notices := notices + [RunFailed(cause)];
    }

    /** `record_and_process`, with `answer` the reply to the duration prompt (None when cancelled). */
    method RecordAndProcess(env: Environment, answer: Option<Duration>, fs: FileSystem)
      modifies this`status, this`busy, this`inputText, this`correctedText, this`statusTrail, this`notices, fs
      ensures var r := Interact(env, language, answer, old(fs.files));
        && statusTrail == old(statusTrail) + r.trail
        && inputText == (if r.transcript.Some? then r.transcript.value else old(inputText))
        && correctedText == (if r.corrected.Some? then r.corrected.value else old(correctedText))
        && fs.files == r.files
        && notices == old(notices) + r.notices
      ensures status == Ready && !busy
    {
      SetStatus(Recording);
      busy := true;
      if answer.None? {
        SetStatus(Ready);
        busy := false;
        TwoAppended(old(statusTrail), Recording, Ready);
        return;
      }
      var recorded := RecordAudio(env, fs, answer.value, SampleRate, RecordedPath);
      if recorded.Fail? {
        Abort(recorded.error);
        TwoAppended(old(statusTrail), Recording, Ready);
        assert Interact(env, language, answer, old(fs.files)) == Run([Recording, Ready], None, None, fs.files, [RunFailed(recorded.error)]);
        return;
      }
      ghost var rest := FromRecording(env, language, fs.files);
      assert Interact(env, language, answer, old(fs.files)) == rest.(trail := [Recording] + rest.trail);
      ProcessRecording(env, fs);
      AppendAssoc(old(statusTrail), [Recording], rest.trail);
    }

    /** The stages of `record_and_process` after the recording is saved. */
    method ProcessRecording(env: Environment, fs: FileSystem)
      modifies this`status, this`busy, this`inputText, this`correctedText, this`statusTrail, this`notices, fs
      ensures var r := FromRecording(env, language, old(fs.files));
        && statusTrail == old(statusTrail) + r.trail
        && inputText == (if r.transcript.Some? then r.transcript.value else old(inputText))
        && correctedText == (if r.corrected.Some? then r.corrected.value else old(correctedText))
        && fs.files == r.files
        && notices == old(notices) + r.notices
      ensures status == Ready && !busy
    {
      ghost var r := FromRecording(env, language, fs.files);
      SetStatus(Transcribing);
      var transcript := Transcribe(env, fs.files, RecordedPath, language);
      if transcript.Fail? {
        assert r == Run([Transcribing, Ready], None, None, fs.files, [RunFailed(transcript.error)]);
        Abort(transcript.error);
        TwoAppended(old(statusTrail), Transcribing, Ready);
        return;
      }
      ghost var stage := SpeechStage(env, transcript.value, fs.files);
      assert r == Run([Transcribing, Correcting, Generating, Ready], Some(transcript.value), Some(ColonRule(transcript.value)), stage.0, stage.1);
      inputText := transcript.value;
      CorrectAndSpeak(env, transcript.value, fs);
      AppendAssoc(old(statusTrail), [Transcribing], [Correcting, Generating, Ready]);
    }

    /** The stages of `record_and_process` after the transcription: the correction, whose
        result is replaced by the colon rule on the transcript, and the speech for the text shown. */
    method CorrectAndSpeak(env: Environment, transcript: string, fs: FileSystem)
      modifies this`status, this`busy, this`correctedText, this`statusTrail, this`notices, fs
      ensures correctedText == ColonRule(transcript)
      ensures statusTrail == old(statusTrail) + [Correcting, Generating, Ready]
      ensures var (spoken, boxes) := SpeechStage(env, transcript, old(fs.files));
        fs.files == spoken && notices == old(notices) + boxes
      ensures status == Ready && !busy
    {
      SetStatus(Correcting);
      var correction := CorrectStutter(env.complete, transcript);
      ghost var errors := CorrectionNotices(correction);
      notices := notices + errors;
      var corrected := correction.text;
      // the correction is overwritten by the text after the colon of the transcript
      corrected := ColonRule(transcript);
      correctedText := corrected;
      SetStatus(Generating);

      var spoken := TextToSpeech(env, fs, corrected, CorrectedAudioPath);
      if spoken.Fail? {
        Abort(spoken.error);
        AppendAssoc(old(notices), errors, [RunFailed(spoken.error)]);
      } else {
        SetStatus(Ready);
        busy := false;
        notices := notices + [AudioProcessed];
        AppendAssoc(old(notices), errors, [AudioProcessed]);
      }
      ThreeAppended(old(statusTrail), Correcting, Generating, Ready);
    }

    /** `save_corrected_text`, with `answer` the path chosen in the save dialog ("" when cancelled). */
    method SaveCorrectedText(env: Environment, answer: Path, fs: FileSystem)
      modifies this`notices, fs
      ensures var r := SaveText(env, correctedText, answer, old(fs.files));
        fs.files == r.0 && notices == old(notices) + r.1
    {
      var text := Strip(correctedText + "\n");
      if text == [] {
        notices := notices + [NoTextToSave];
        return;
      }
      if answer != "" {
        var written := fs.Write(env, answer, TextFile(text));
        if written.Ok? {
          notices := notices + [TextSaved(answer)];
        }
      }
    }

    /** `save_corrected_audio`, with `answer` the path chosen in the save dialog ("" when cancelled). */
    method SaveCorrectedAudio(env: Environment, answer: Path, fs: FileSystem)
      modifies this`notices, fs
      ensures var r := SaveAudio(env, answer, old(fs.files));
        fs.files == r.0 && notices == old(notices) + r.1
    {
      if CorrectedAudioPath !in fs.files {
        notices := notices + [AudioMissing];
        return;
      }
      if answer != "" {
        var moved := fs.Replace(env, CorrectedAudioPath, answer);
        if moved.Ok? {
          notices := notices + [AudioSaved(answer)];
        }
      }
    }

    /** `clear_text`: empties both text boxes. */
    method ClearText()
      modifies this`inputText, this`correctedText
      ensures inputText == "" && correctedText == ""
    {
      inputText := "";
      correctedText := "";
    }

    /** `batch_process`, with `selection` the files chosen in the open dialog, in order. */
    method BatchProcess(env: Environment, selection: seq<Path>, fs: FileSystem)
      modifies this`notices, fs
      ensures var r := BatchRun(env, language, selection, old(fs.files));
        fs.files == r.0 && notices == old(notices) + r.1
    {
      if selection == [] {
        return;
      }
      var i := 0;
      var failure: Option<Error> := None;
      ghost var b := Start(fs.files);
      while i < |selection| && failure.None?
        invariant 0 <= i <= |selection|
        invariant b == ProcessAll(env, language, Start(old(fs.files)), selection[..i])
        invariant fs.files == b.files && notices == old(notices) + b.notices && failure == b.failure
      {
        ProcessAllStep(env, language, Start(old(fs.files)), selection, i);
        failure, b := ProcessOne(env, selection[i], fs, b, old(notices));
        i := i + 1;
      }
      if failure.Some? {
        FirstFailureStops(env, language, Start(old(fs.files)), selection, i);
        notices := notices + [RunFailed(failure.value)];
        AppendAssoc(old(notices), b.notices, [RunFailed(failure.value)]);
      } else {
        assert selection[..i] == selection;
        notices := notices + [FilesProcessed(|selection|)];
        AppendAssoc(old(notices), b.notices, [FilesProcessed(|selection|)]);
      }
    }

    /** One pass of the loop body of `batch_process`, for the file at `path`; a failure
        is returned instead of raised, and ends the loop. */
    method ProcessOne(env: Environment, path: Path, fs: FileSystem, ghost before: Batch, ghost base: seq<Notice>)
      returns (failure: Option<Error>, ghost after: Batch)
      requires before.failure.None? && fs.files == before.files && notices == base + before.notices
      modifies this`notices, fs
      ensures after == ProcessFile(env, language, before, path)
      ensures fs.files == after.files && notices == base + after.notices && failure == after.failure
    {
      after := ProcessFile(env, language, before, path);
      var transcript := Transcribe(env, fs.files, path, language);
      if transcript.Fail? {
        return Some(transcript.error), after;
      }
      var correction := CorrectStutter(env.complete, transcript.value);
      notices := notices + CorrectionNotices(correction);
      AppendAssoc(base, before.notices, CorrectionNotices(correction));
      var written := fs.Write(env, TextOutput(path), TextFile(correction.text));
      if written.Fail? {
        return Some(written.error), after;
      }
      var spoken := TextToSpeech(env, fs, correction.text, AudioOutput(path));
      failure := if spoken.Fail? then Some(spoken.error) else None;
    }
  }
}

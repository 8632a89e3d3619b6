/** What the application's handlers do, as functions of the providers and of the
    state they start from: the interactive run of `record_and_process`, the batch
    run of `batch_process` and the two save handlers. The class in module App
    performs these step by step and is proved to end in the states given here. */
module Pipeline {
  import opened PyStr
  import opened Providers
  import opened Stages

  /** The stages the status label announces. */
  datatype Status = Ready | Recording | Transcribing | Correcting | Generating

  /** The text the status label shows for each stage. */
  function StatusText(s: Status): (text: string)
    ensures |text| >= 5 && (s != Ready <==> text[|text| - 3..] == "...")
  {
    match s
    case Ready => "Ready"
    case Recording => "Recording..."
    case Transcribing => "Transcribing..."
    case Correcting => "Correcting stutter..."
    case Generating => "Generating corrected audio..."
  }

  /** The five stages set five different texts, so the label texts set determine the stages. */
  lemma StatusTextInjective(a: Status, b: Status)
    requires StatusText(a) == StatusText(b)
    ensures a == b
  {
    // the five texts have five different lengths
    assert |StatusText(a)| == |StatusText(b)|;
  }

  /** What the duration prompt accepts: whole seconds from 1 to 60. */
  type Duration = d: int | 1 <= d <= 60 witness 1

  /** The status labels of the interactive run, in the order the stages begin. */
  const StageLabels: seq<Status> := [Recording, Transcribing, Correcting, Generating]

  /** The message boxes the handlers open. */
  datatype Notice =
    | CorrectionError(cause: Error)    // "Failed to correct stutter: ..."
    | AudioProcessed                   // "Audio processed and corrected successfully!"
    | FilesProcessed(count: nat)       // "Processed <count> files successfully!"
    | RunFailed(cause: Error)          // "An error occurred: ..."
    | NoTextToSave                     // "No corrected text to save."
    | AudioMissing                     // "Corrected audio file not found. ..."
    | TextSaved(path: Path)            // "Corrected text saved to <path>"
    | AudioSaved(path: Path)           // "Corrected audio saved to <path>"

  /** The error box `correct_stutter` opens, if any: one box naming the failure. */
  function CorrectionNotices(c: Correction): (ns: seq<Notice>)
    ensures c.failure.None? ==> ns == []
    ensures c.failure.Some? ==> ns == [CorrectionError(c.failure.value)]
  {
    if c.failure.Some? then [CorrectionError(c.failure.value)] else []
  }

  /** The text after the first colon, stripped; the whole text when there is no colon. */
  function ColonRule(t: string): string {
    var parts := SplitOnce(t, ':');
    if ':' in t then Strip(parts[1]) else t
  }

  /** Text without a colon is kept whole; text with one always loses at least the colon. */
  lemma ColonRuleShortens(t: string)
    ensures ':' !in t ==> ColonRule(t) == t
    ensures ':' in t ==> |ColonRule(t)| < |t|
  {
    if ':' in t {
      var parts := SplitOnce(t, ':');
      assert |t| == |parts[0]| + 1 + |parts[1]|;
    }
  }

  /** With a colon, the colon rule keeps the stripped text after the first colon. */
  lemma ColonRuleCutsAtFirstColon(t: string)
    requires ':' in t
    ensures var i := IndexOf(t, ':'); ColonRule(t) == Strip(t[i + 1..])
  {
    var parts := SplitOnce(t, ':');
    var i := IndexOf(t, ':');
    assert t == parts[0] + [':'] + parts[1];
    var j := |parts[0]|;
    assert t[j] == ':' && t[..j] == parts[0];
    assert j == i;
    assert parts[1] == t[i + 1..];
  }

  /** The colon rule keeps nothing that could be stripped. */
  lemma ColonRuleStripped(t: string)
    requires ':' in t
    ensures Strip(ColonRule(t)) == ColonRule(t)
  {
    var parts := SplitOnce(t, ':');
    assert ColonRule(t) == Strip(parts[1]);
    StripIdempotent(parts[1]);
  }

  /** The colon rule on a prefixed answer: "Corrected: I went to the store" becomes "I went to the store". */
  lemma ColonRuleDropsPrefix(head: string, body: string)
    requires ':' !in head
    ensures ColonRule(head + ":" + body) == Strip(body)
  {
    var t := head + ":" + body;
    assert t[..|head|] == head && t[|head|] == ':' && t[|head| + 1..] == body;
    var parts := SplitOnce(t, ':');
    assert parts[0] == head;
    assert ColonRule(t) == Strip(parts[1]);
  }

  /** What one interactive run leaves behind: the status labels set, in order; the
      text put in the "Recorded Text" and "Corrected Text" boxes, if any; the files;
      and the message boxes opened. */
  datatype Run = Run(trail: seq<Status>, transcript: Option<string>, corrected: Option<string>,
                     files: FileMap, notices: seq<Notice>)

  /** `record_and_process`, given the language selected, the answer to the duration
      prompt (None when it is cancelled) and the files beforehand. */
  function Interact(env: Environment, language: Language, answer: Option<Duration>, files: FileMap): Run {
    match answer
    case None => Run([Recording, Ready], None, None, files, [])
    case Some(duration) =>
      match Recorded(env, files, duration, SampleRate, RecordedPath)
      case Fail(e) => Run([Recording, Ready], None, None, files, [RunFailed(e)])
      case Ok(recorded) =>
        var r := FromRecording(env, language, recorded);
        r.(trail := [Recording] + r.trail)
  }

  /** The shape of every interactive run. */
  lemma InteractShape(env: Environment, language: Language, answer: Option<Duration>, files: FileMap)
    ensures var r := Interact(env, language, answer, files);
      // The status labels return to "Ready" right after the recording, right after the
      // transcription, or after all four stages; correcting the stutter never fails.
      && (r.trail == [Recording, Ready] || r.trail == [Recording, Transcribing, Ready] || r.trail == StageLabels + [Ready])
      // A cancelled prompt returns to "Ready" with nothing recorded and nothing shown.
      && (answer.None? ==>
          r.trail == [Recording, Ready] && r.transcript.None? && r.corrected.None? && r.files == files && r.notices == [])
      // The text shown as corrected is the colon rule applied to the transcript, set together with it.
      && (r.corrected.Some? <==> r.transcript.Some?)
      && (r.transcript.Some? ==> r.corrected.value == ColonRule(r.transcript.value))
      && (r.transcript.Some? <==> r.trail == StageLabels + [Ready])
  {
    if answer.Some? {
      var recorded := Recorded(env, files, answer.value, SampleRate, RecordedPath);
      if recorded.Ok? {
        var r := FromRecording(env, language, recorded.value);
        assert [Recording] + [Transcribing, Ready] == [Recording, Transcribing, Ready];
        assert [Recording] + [Transcribing, Correcting, Generating, Ready] == StageLabels + [Ready];
        assert Interact(env, language, answer, files) == r.(trail := [Recording] + r.trail);
      }
    }
  }

  /** Which stage ends the run, and why: a failed recording returns to "Ready" before the
      transcription with the recorder's error; a failed transcription returns right after it
      with the transcriber's error; otherwise the transcript shown is Whisper's answer. */
  lemma InteractStages(env: Environment, language: Language, duration: Duration, files: FileMap)
    ensures var r := Interact(env, language, Some(duration), files);
      var rec := Recorded(env, files, duration, SampleRate, RecordedPath);
      && (rec.Fail? ==>
          r.trail == [Recording, Ready] && r.transcript.None? && r.files == files && r.notices == [RunFailed(rec.error)])
      && (rec.Ok? ==>
          var t := Transcribe(env, rec.value, RecordedPath, language);
          && (t.Fail? ==>
              r.trail == [Recording, Transcribing, Ready] && r.transcript.None?
              && r.files == rec.value && r.notices == [RunFailed(t.error)])
          && (t.Ok? ==> r.trail == StageLabels + [Ready] && r.transcript == Some(t.value))
          && (t.Ok? ==>
              var c := CorrectStutter(env.complete, t.value);
              var s := Spoken(env, rec.value, ColonRule(t.value), CorrectedAudioPath);
              && r.notices == CorrectionNotices(c) + [if s.Ok? then AudioProcessed else RunFailed(s.error)]
              && r.files == (if s.Ok? then s.value else rec.value)))
  {
    var rec := Recorded(env, files, duration, SampleRate, RecordedPath);
    if rec.Ok? {
      FromRecordingBoxes(env, language, rec.value);
      var r := FromRecording(env, language, rec.value);
      assert Interact(env, language, Some(duration), files) == r.(trail := [Recording] + r.trail);
      assert [Recording] + [Transcribing, Ready] == [Recording, Transcribing, Ready];
      assert [Recording] + [Transcribing, Correcting, Generating, Ready] == StageLabels + [Ready];
    }
  }

  /** The run succeeds exactly when the speech for the text shown is written to the default
      path, and then the last box says so; any other outcome of a started run ends with one error box. */
  lemma InteractOutcome(env: Environment, language: Language, answer: Option<Duration>, files: FileMap)
    ensures var r := Interact(env, language, answer, files);
      && (AudioProcessed in r.notices <==>
          r.corrected.Some? && env.synthesize(r.corrected.value, SpeechLanguage).Ok? && env.writable(CorrectedAudioPath))
      && (AudioProcessed in r.notices ==>
          && r.notices[|r.notices| - 1] == AudioProcessed
          && CorrectedAudioPath in r.files
          && r.files[CorrectedAudioPath] == Mp3(env.synthesize(r.corrected.value, SpeechLanguage).value))
      && (answer.Some? && AudioProcessed !in r.notices ==> |r.notices| > 0 && r.notices[|r.notices| - 1].RunFailed?)
  {
    if answer.Some? {
      var recorded := Recorded(env, files, answer.value, SampleRate, RecordedPath);
      if recorded.Ok? {
        var r := FromRecording(env, language, recorded.value);
        FromRecordingOutcome(env, language, recorded.value);
        assert Interact(env, language, answer, files) == r.(trail := [Recording] + r.trail);
      }
    }
  }

  /** Files are only ever added or overwritten: the recording first, then the corrected audio. */
  lemma InteractWritesOnlyDefaults(env: Environment, language: Language, answer: Option<Duration>, files: FileMap)
    ensures var r := Interact(env, language, answer, files);
      && files.Keys <= r.files.Keys
      && forall p :: p in r.files && p != RecordedPath && p != CorrectedAudioPath ==> p in files && r.files[p] == files[p]
  {
    if answer.Some? {
      var recorded := Recorded(env, files, answer.value, SampleRate, RecordedPath);
      if recorded.Ok? {
        var r := FromRecording(env, language, recorded.value);
        FromRecordingOutcome(env, language, recorded.value);
        assert Interact(env, language, answer, files) == r.(trail := [Recording] + r.trail);
      }
    }
  }

  /** The rest of `record_and_process` once the recording is saved in `recorded`. */
  function FromRecording(env: Environment, language: Language, recorded: FileMap): Run {
    match Transcribe(env, recorded, RecordedPath, language)
    case Fail(e) => Run([Transcribing, Ready], None, None, recorded, [RunFailed(e)])
    case Ok(transcript) =>
      var (spoken, notices) := SpeechStage(env, transcript, recorded);
      Run([Transcribing, Correcting, Generating, Ready], Some(transcript), Some(ColonRule(transcript)), spoken, notices)
  }

  /** The correction and speech stages for a transcript: the files and the message boxes.
      The correction only contributes its error box; the speech is for the colon rule's text. */
  function SpeechStage(env: Environment, transcript: string, recorded: FileMap): (r: (FileMap, seq<Notice>))
    ensures |r.1| > 0
  {
    var errors := CorrectionNotices(CorrectStutter(env.complete, transcript));
    match Spoken(env, recorded, ColonRule(transcript), CorrectedAudioPath)
    case Fail(e) => (recorded, errors + [RunFailed(e)])
    case Ok(spoken) => (spoken, errors + [AudioProcessed])
  }

  /** After the recording, the run succeeds exactly when the speech for the text shown is
      written to the default path; otherwise it ends with one error box. Only the default
      audio path can change. */
  lemma FromRecordingOutcome(env: Environment, language: Language, recorded: FileMap)
    ensures var r := FromRecording(env, language, recorded);
      && (AudioProcessed in r.notices <==>
          r.corrected.Some? && env.synthesize(r.corrected.value, SpeechLanguage).Ok? && env.writable(CorrectedAudioPath))
      && (AudioProcessed in r.notices ==>
          r.notices[|r.notices| - 1] == AudioProcessed && CorrectedAudioPath in r.files
          && r.files[CorrectedAudioPath] == Mp3(env.synthesize(r.corrected.value, SpeechLanguage).value))
      && (AudioProcessed !in r.notices ==> |r.notices| > 0 && r.notices[|r.notices| - 1].RunFailed?)
      && recorded.Keys <= r.files.Keys
      && (forall p :: p in r.files && p != CorrectedAudioPath ==> p in recorded && r.files[p] == recorded[p])
  {
  }

  /** After a successful transcription the run opens the error box of a failed correction,
      if any, and then one box for the speech: the success box, or the error box carrying the
      speech failure. A failed speech leaves the files as they were after the recording, so
      `corrected_audio.mp3` keeps its previous contents or stays absent. */
  lemma FromRecordingBoxes(env: Environment, language: Language, recorded: FileMap)
    ensures var r := FromRecording(env, language, recorded);
      var t := Transcribe(env, recorded, RecordedPath, language);
      t.Ok? ==>
        var c := CorrectStutter(env.complete, t.value);
        var s := Spoken(env, recorded, ColonRule(t.value), CorrectedAudioPath);
        && r.notices == CorrectionNotices(c) + [if s.Ok? then AudioProcessed else RunFailed(s.error)]
        && r.files == (if s.Ok? then s.value else recorded)
  {
  }

  /** Every trail of the interactive run begins some of the stages in their order and then returns to "Ready". */
  lemma TrailFollowsStageOrder(env: Environment, language: Language, answer: Option<Duration>, files: FileMap)
    ensures var t := Interact(env, language, answer, files).trail;
      exists k :: 1 <= k <= |StageLabels| && t == StageLabels[..k] + [Ready]
  {
    InteractShape(env, language, answer, files);
    assert StageLabels[..1] == [Recording] && StageLabels[..2] == [Recording, Transcribing];
    assert StageLabels[..4] == StageLabels;
    var t := Interact(env, language, answer, files).trail;
    var k := if t == [Recording, Ready] then 1 else if t == [Recording, Transcribing, Ready] then 2 else 4;
    assert t == StageLabels[..k] + [Ready];
  }

  /** The recording requests `duration * 16000` single-channel samples, for a duration of 1 to 60 seconds. */
  lemma RecordingLength(env: Environment, language: Language, duration: Duration, files: FileMap)
    requires Recorded(env, files, duration, SampleRate, RecordedPath).Ok?
    ensures var w := Interact(env, language, Some(duration), files).files[RecordedPath];
      w.Wav? && w.channels == 1 && w.rate == SampleRate && |w.samples| == duration * SampleRate
      && SampleRate <= |w.samples| <= 60 * SampleRate
  {
    var recorded := Recorded(env, files, duration, SampleRate, RecordedPath).value;
    var r := Interact(env, language, Some(duration), files);
    assert r.files[RecordedPath] == recorded[RecordedPath];
  }

  /** The result of `correct_stutter` is overwritten: runs whose completion services
      differ set the same labels, show, speak and save the same text, and open the same boxes
      apart from the error box of a failed correction. */
  lemma CorrectionIsDiscarded(env: Environment, complete': ChatRequest -> Result<string>,
                              language: Language, answer: Option<Duration>, files: FileMap)
    ensures var r := Interact(env, language, answer, files);
            var r' := Interact(env.(complete := complete'), language, answer, files);
            r.trail == r'.trail && r.transcript == r'.transcript && r.corrected == r'.corrected && r.files == r'.files
            && (AudioProcessed in r.notices <==> AudioProcessed in r'.notices)
            && (r.notices == [] <==> r'.notices == [])
            && (r.notices != [] ==> r.notices[|r.notices| - 1] == r'.notices[|r'.notices| - 1])
            && (forall n :: n in r.notices && !n.CorrectionError? ==> n in r'.notices)
            && (forall n :: n in r'.notices && !n.CorrectionError? ==> n in r.notices)
  {
    var env' := env.(complete := complete');
    if answer.Some? {
      var d := answer.value;
      assert Recorded(env', files, d, SampleRate, RecordedPath) == Recorded(env, files, d, SampleRate, RecordedPath);
      var rec := Recorded(env, files, d, SampleRate, RecordedPath);
      if rec.Ok? {
        assert Transcribe(env', rec.value, RecordedPath, language) == Transcribe(env, rec.value, RecordedPath, language);
        var tr := Transcribe(env, rec.value, RecordedPath, language);
        if tr.Ok? {
          var shown := ColonRule(tr.value);
          assert Spoken(env', rec.value, shown, CorrectedAudioPath) == Spoken(env, rec.value, shown, CorrectedAudioPath);
        }
        var r, r' := FromRecording(env, language, rec.value), FromRecording(env', language, rec.value);
        FromRecordingOutcome(env, language, rec.value);
        FromRecordingOutcome(env', language, rec.value);
        assert Interact(env, language, answer, files) == r.(trail := [Recording] + r.trail);
        assert Interact(env', language, answer, files) == r'.(trail := [Recording] + r'.trail);
      }
    }
  }

  // ---- batch processing ----

  const TextSuffix: string := "_corrected.txt"
  const AudioSuffix: string := "_corrected.mp3"

  /** `os.path.splitext(p)[0] + suffix`. */
  function OutputPath(p: Path, suffix: string): Path {
    SplitExt(p).0 + suffix
  }

  /** An output path ends with its suffix, and what precedes the suffix is the input
      without its extension. */
  lemma OutputPathShape(p: Path, suffix: string)
    ensures var q := OutputPath(p, suffix);
      && |q| >= |suffix| && q[|q| - |suffix|..] == suffix
      && q[..|q| - |suffix|] + SplitExt(p).1 == p
  {
    var q := OutputPath(p, suffix);
    assert q[..|q| - |suffix|] == SplitExt(p).0;
  }

  /** When the input has an extension, the output name replaces it by the suffix. */
  lemma OutputPathDropsExtension(p: Path, suffix: string, j: nat)
    requires RFind(p, Sep) < j < |p| && p[j] == ExtSep && HasNonDot(p[RFind(p, Sep) + 1..j])
    ensures OutputPath(p, suffix) == p[..RFind(p, ExtSep)] + suffix
  {
    ExtStartAtLastDot(p, j);
  }

  /** "d/a.wav" gives "d/a_corrected.txt" and "d/a_corrected.mp3". */
  lemma OutputPathExample(p: Path)
    requires p == "d/a.wav"
    ensures TextOutput(p) == "d/a" + TextSuffix
    ensures AudioOutput(p) == "d/a" + AudioSuffix
  {
    SplitExtExample(p);
  }

  function TextOutput(p: Path): Path { OutputPath(p, TextSuffix) }
  function AudioOutput(p: Path): Path { OutputPath(p, AudioSuffix) }

  /** An output name never names its input (the extension starts with a dot, the suffix with
      an underscore), and the text and audio outputs of one input are different files. */
  lemma OutputsAreNew(p: Path)
    ensures TextOutput(p) != p && AudioOutput(p) != p && TextOutput(p) != AudioOutput(p)
  {
    OutputPathNotInput(p, TextSuffix);
    OutputPathNotInput(p, AudioSuffix);
    OutputPathShape(p, TextSuffix);
    OutputPathShape(p, AudioSuffix);
    assert TextOutput(p)[|TextOutput(p)| - 1] == 't' && AudioOutput(p)[|AudioOutput(p)| - 1] == '3';
  }

  lemma OutputPathNotInput(p: Path, suffix: string)
    requires |suffix| > 0 && suffix[0] != ExtSep
    ensures OutputPath(p, suffix) != p
  {
    var (root, ext) := SplitExt(p);
    assert OutputPath(p, suffix)[|root|..] == suffix;
    assert p[|root|..] == ext;
  }

  /** The state of `batch_process` after some files: the files, the message boxes, the
      number of files completed and the failure that ended the loop, if any. */
  datatype Batch = Batch(files: FileMap, notices: seq<Notice>, done: nat, failure: Option<Error>)

  /** One pass of the loop body for the file `p`: transcribe, correct, write the
      text, synthesize the audio. After a failure nothing more happens. */
  function ProcessFile(env: Environment, language: Language, b: Batch, p: Path): (r: Batch)
    ensures b.failure.Some? ==> r == b
  {
    if b.failure.Some? then b
    else
      match Transcribe(env, b.files, p, language)
      case Fail(e) => b.(failure := Some(e))
      case Ok(transcript) =>
        var c := CorrectStutter(env.complete, transcript);
        var b1 := b.(notices := b.notices + CorrectionNotices(c));
        if !env.writable(TextOutput(p)) then b1.(failure := Some(WriteFailed(TextOutput(p))))
        else
          var withText := b.files[TextOutput(p) := TextFile(c.text)];
          match Spoken(env, withText, c.text, AudioOutput(p))
          case Fail(e) => b1.(files := withText, failure := Some(e))
          case Ok(withAudio) => b1.(files := withAudio, done := b.done + 1)
  }

  /** A pass that completes leaves the corrected text and its speech at the two output
      paths; any pass only adds files and message boxes, and changes no file but its outputs. */
  lemma ProcessFileEffect(env: Environment, language: Language, b: Batch, p: Path)
    requires b.failure.None?
    ensures var r := ProcessFile(env, language, b, p);
      && b.files.Keys <= r.files.Keys && b.notices <= r.notices
      && (r.failure.None? ==> Transcribe(env, b.files, p, language).Ok?)
      && (r.failure.None? ==>
          var c := CorrectStutter(env.complete, Transcribe(env, b.files, p, language).value);
          && r.done == b.done + 1
          && TextOutput(p) in r.files && r.files[TextOutput(p)] == TextFile(c.text)
          && env.synthesize(c.text, SpeechLanguage).Ok?
          && AudioOutput(p) in r.files && r.files[AudioOutput(p)] == Mp3(env.synthesize(c.text, SpeechLanguage).value))
      && (r.failure.Some? ==> r.done == b.done)
      && (forall q :: q in r.files && q != TextOutput(p) && q != AudioOutput(p) ==> q in b.files && r.files[q] == b.files[q])
  {
    var t := Transcribe(env, b.files, p, language);
    if t.Ok? && env.writable(TextOutput(p)) {
      OutputsAreNew(p);
    }
  }

  /** What decides a pass: it completes exactly when the transcription, the text write and
      the speech all succeed; otherwise it fails with the error of the first step that
      failed. A transcribed file adds exactly the error box of the correction, if any, and a
      failed speech keeps the text output written before it. */
  lemma ProcessFileOutcome(env: Environment, language: Language, b: Batch, p: Path)
    requires b.failure.None?
    ensures var r := ProcessFile(env, language, b, p);
      var t := Transcribe(env, b.files, p, language);
      && (t.Fail? ==> r.failure == Some(t.error) && r.notices == b.notices && r.files == b.files)
      && (t.Ok? ==>
          var c := CorrectStutter(env.complete, t.value);
          var s := env.synthesize(c.text, SpeechLanguage);
          && r.notices == b.notices + CorrectionNotices(c)
          && (!env.writable(TextOutput(p)) ==> r.failure == Some(WriteFailed(TextOutput(p))) && r.files == b.files)
          && (env.writable(TextOutput(p)) && s.Fail? ==> r.failure == Some(s.error))
          && (env.writable(TextOutput(p)) && s.Ok? && !env.writable(AudioOutput(p)) ==>
              r.failure == Some(WriteFailed(AudioOutput(p))))
          && (env.writable(TextOutput(p)) && s.Ok? && env.writable(AudioOutput(p)) ==> r.failure.None?)
          // the text output written before the speech stays when the speech fails
          && (env.writable(TextOutput(p)) && (s.Fail? || !env.writable(AudioOutput(p))) ==>
              r.files == b.files[TextOutput(p) := TextFile(c.text)]))
  {
  }

  /** The loop over the selected files, in selection order. */
  function ProcessAll(env: Environment, language: Language, b: Batch, ps: seq<Path>): Batch
    decreases |ps|
  {
    if ps == [] then b
    else ProcessFile(env, language, ProcessAll(env, language, b, ps[..|ps| - 1]), ps[|ps| - 1])
  }

  /** The loop after `i + 1` files is one more pass after `i` files. */
  lemma ProcessAllStep(env: Environment, language: Language, b: Batch, ps: seq<Path>, i: nat)
    requires i < |ps|
    ensures ProcessAll(env, language, b, ps[..i + 1]) == ProcessFile(env, language, ProcessAll(env, language, b, ps[..i]), ps[i])
  {
    assert ps[..i + 1][..i] == ps[..i];
  }

  function Start(files: FileMap): Batch {
    Batch(files, [], 0, None)
  }

  /** `batch_process` after the file dialog returned `selection`: the files and the message boxes. */
  function BatchRun(env: Environment, language: Language, selection: seq<Path>, files: FileMap): (r: (FileMap, seq<Notice>))
    ensures selection == [] ==> r == (files, [])
    ensures files.Keys <= r.0.Keys
  {
    if selection == [] then (files, [])
    else
      var b := ProcessAll(env, language, Start(files), selection);
      ProcessAllGrows(env, language, Start(files), selection);
      (b.files, b.notices + [if b.failure.None? then FilesProcessed(|selection|) else RunFailed(b.failure.value)])
  }

  lemma {:induction false} ProcessAllGrows(env: Environment, language: Language, b: Batch, ps: seq<Path>)
    ensures var r := ProcessAll(env, language, b, ps);
      b.files.Keys <= r.files.Keys && b.notices <= r.notices && b.done <= r.done <= b.done + |ps|
    ensures b.failure.Some? ==> ProcessAll(env, language, b, ps) == b
    decreases |ps|
  {
    if ps != [] {
      var front := ps[..|ps| - 1];
      var mid := ProcessAll(env, language, b, front);
      ProcessAllGrows(env, language, b, front);
      if mid.failure.None? {
        ProcessFileEffect(env, language, mid, ps[|ps| - 1]);
      }
    }
  }

  /** Once a file has failed, the files after it leave no trace: the loop is left at the first failure. */
  lemma {:induction false} FirstFailureStops(env: Environment, language: Language, b: Batch, ps: seq<Path>, n: nat)
    requires n <= |ps| && ProcessAll(env, language, b, ps[..n]).failure.Some?
    ensures ProcessAll(env, language, b, ps) == ProcessAll(env, language, b, ps[..n])
    decreases |ps| - n
  {
    if n < |ps| {
      var front := ps[..|ps| - 1];
      assert front[..n] == ps[..n];
      FirstFailureStops(env, language, b, front, n);
      assert ProcessAll(env, language, b, ps) == ProcessFile(env, language, ProcessAll(env, language, b, front), ps[|ps| - 1]);
    } else {
      assert ps[..n] == ps;
    }
  }

  /** A run that ends without a failure completed every file, and left both outputs of each. */
  lemma {:induction false} CompletedRunHasAllOutputs(env: Environment, language: Language, b: Batch, ps: seq<Path>)
    requires b.failure.None?
    ensures var r := ProcessAll(env, language, b, ps);
      r.failure.None? ==> (r.done == b.done + |ps|
        && forall i :: 0 <= i < |ps| ==> TextOutput(ps[i]) in r.files && AudioOutput(ps[i]) in r.files)
    decreases |ps|
  {
    if ps != [] {
      var front, last := ps[..|ps| - 1], ps[|ps| - 1];
      var mid := ProcessAll(env, language, b, front);
      var r := ProcessFile(env, language, mid, last);
      assert ProcessAll(env, language, b, ps) == r;
      if r.failure.None? {
        CompletedRunHasAllOutputs(env, language, b, front);
        assert mid.failure.None?;
        ProcessFileEffect(env, language, mid, last);
        forall i | 0 <= i < |ps|
          ensures TextOutput(ps[i]) in r.files && AudioOutput(ps[i]) in r.files
        {
          if i < |ps| - 1 {
            assert ps[i] == front[i];
          }
        }
      }
    }
  }

  /** A run that ends with a failure completed the files before position `done`, in
      order, and failed on the file at that position. */
  lemma {:induction false} FailedRunStopsAtDone(env: Environment, language: Language, ps: seq<Path>, files: FileMap)
    ensures var r := ProcessAll(env, language, Start(files), ps);
      r.failure.Some? ==> (r.done < |ps|
        && ProcessAll(env, language, Start(files), ps[..r.done]).failure.None?
        && ProcessAll(env, language, Start(files), ps[..r.done + 1]) == r)
    decreases |ps|
  {
    if ps != [] {
      var front, last := ps[..|ps| - 1], ps[|ps| - 1];
      var mid := ProcessAll(env, language, Start(files), front);
      var r := ProcessFile(env, language, mid, last);
      assert ProcessAll(env, language, Start(files), ps) == r;
      if r.failure.Some? {
        if mid.failure.Some? {
          FailedRunStopsAtDone(env, language, front, files);
          assert r == mid;
          assert front[..r.done] == ps[..r.done] && front[..r.done + 1] == ps[..r.done + 1];
        } else {
          CompletedRunHasAllOutputs(env, language, Start(files), front);
          ProcessFileEffect(env, language, mid, last);
          assert r.done == |front|;
          assert ps[..r.done] == front && ps[..r.done + 1] == ps;
        }
      }
    }
  }

  /** The handler leaves the files of the loop over the selection and adds one last box to
      its boxes: the success box reports exactly the number of files processed, and appears
      only when every selected file was completed; otherwise it is the error box of the failure. */
  lemma BatchReportsAllOrFailure(env: Environment, language: Language, selection: seq<Path>, files: FileMap)
    requires selection != []
    ensures var (_, notices) := BatchRun(env, language, selection, files);
      var b := ProcessAll(env, language, Start(files), selection);
      |notices| > 0 &&
      BatchRun(env, language, selection, files).0 == b.files &&
      notices[..|notices| - 1] == b.notices &&
      (notices[|notices| - 1] == FilesProcessed(|selection|) <==> b.failure.None?) &&
      (b.failure.Some? ==> notices[|notices| - 1] == RunFailed(b.failure.value)) &&
      (b.failure.None? ==> b.done == |selection|)
  {
    CompletedRunHasAllOutputs(env, language, Start(files), selection);
  }

  // ---- saving ----

  /** `save_corrected_text` given the text box contents and the answer to the save dialog
      ("" when cancelled): the files and the message boxes. */
  function SaveText(env: Environment, boxText: string, answer: Path, files: FileMap): (r: (FileMap, seq<Notice>))
    // Blank text is refused before the dialog matters.
    ensures AllSpace(boxText) ==> r == (files, [NoTextToSave])
    // Whatever is written is the stripped, non-blank text, at the chosen path.
    ensures r.0 != files ==> answer != "" && r.0 == files[answer := TextFile(Strip(boxText))] && Strip(boxText) != []
    ensures r.0 != files ==> r.1 == [TextSaved(answer)]
    // Text that is not blank is never refused, and is saved when a writable path is chosen.
    ensures !AllSpace(boxText) ==> NoTextToSave !in r.1
    ensures !AllSpace(boxText) && answer != "" && env.writable(answer) ==>
      r == (files[answer := TextFile(Strip(boxText))], [TextSaved(answer)])
    // A cancelled dialog or a path that cannot be written changes nothing and opens no box.
    ensures !AllSpace(boxText) && (answer == "" || !env.writable(answer)) ==> r == (files, [])
  {
    // `get("1.0", tk.END)` returns the contents followed by a newline
    var text := Strip(boxText + "\n");
    StripTrailingNewline(boxText);
    StripEmptyIffAllSpace(boxText);
    if text == [] then (files, [NoTextToSave])
    else if answer == "" then (files, [])
    else if !env.writable(answer) then (files, [])
    else (files[answer := TextFile(text)], [TextSaved(answer)])
  }

  /** `save_corrected_audio` given the answer to the save dialog: the files and the message boxes. */
  function SaveAudio(env: Environment, answer: Path, files: FileMap): (r: (FileMap, seq<Notice>))
    ensures CorrectedAudioPath !in files ==> r == (files, [AudioMissing])
    // A completed save moves the default file: the chosen path holds it, the default path
    // is gone (unless it was itself chosen), and no other file changes.
    ensures r.1 == [AudioSaved(answer)] ==>
      CorrectedAudioPath in files && answer in r.0 && r.0[answer] == files[CorrectedAudioPath]
      && (answer != CorrectedAudioPath ==> CorrectedAudioPath !in r.0)
      && forall q :: q != answer && q != CorrectedAudioPath ==> (q in r.0 <==> q in files)
    ensures r.1 != [AudioSaved(answer)] ==> r.0 == files
    // An existing default file is moved whenever a writable path is chosen.
    ensures CorrectedAudioPath in files && answer != "" && env.writable(answer) ==>
      r == (Moved(files, CorrectedAudioPath, answer), [AudioSaved(answer)])
    // A cancelled dialog or a path that cannot be written changes nothing and opens no box.
    ensures CorrectedAudioPath in files && (answer == "" || !env.writable(answer)) ==> r == (files, [])
  {
    if CorrectedAudioPath !in files then (files, [AudioMissing])
    else if answer == "" then (files, [])
    else if !env.writable(answer) then (files, [])
    else (Moved(files, CorrectedAudioPath, answer), [AudioSaved(answer)])
  }
}

/** The module-level helpers of v2.py: stutter correction through the chat-completion
    service, recording, transcription and speech synthesis. */
module Stages {
  import opened PyStr
  import opened Providers

  const PromptPrefix: string :=
    "Correct the following stuttered text to make it fluent and natural. "
    + "Remove any repetitions of  words, but keep the meaning intact. "
    + "Here is the text: "
  const CompletionModel: string := "llama3-8b-8192"
  const CompletionTokenCap: nat := 512

  /** The single request `correct_stutter` sends: one user message that ends with the text. */
  function CorrectionRequest(text: string): (q: ChatRequest)
    ensures |q.messages| == 1 && q.messages[0].role == "user"
    ensures q.model == CompletionModel && q.maxTokens == CompletionTokenCap
    ensures |q.messages[0].content| == |PromptPrefix| + |text|
    ensures q.messages[0].content[..|PromptPrefix|] == PromptPrefix
    ensures q.messages[0].content[|PromptPrefix|..] == text
  {
    ChatRequest([ChatMessage("user", PromptPrefix + text)], CompletionModel, CompletionTokenCap)
  }

  /** Distinct texts give distinct requests: the prompt embeds the text verbatim. */
  lemma CorrectionRequestInjective(a: string, b: string)
    requires CorrectionRequest(a) == CorrectionRequest(b)
    ensures a == b
  {
    assert CorrectionRequest(a).messages[0].content[|PromptPrefix|..] == a;
  }

  /** The outcome of `correct_stutter`: the text it returns, and the failure it
      reports in an error box when the completion call raised. */
  datatype Correction = Correction(text: string, failure: Option<Error>)

  /** `correct_stutter`: one completion attempt; on any failure the input comes back unchanged. */
  function CorrectStutter(complete: ChatRequest -> Result<string>, text: string): (c: Correction)
    ensures c.failure.None? <==> complete(CorrectionRequest(text)).Ok?
    ensures c.failure.Some? ==> c.text == text && c.failure.value == complete(CorrectionRequest(text)).error
    ensures c.failure.None? ==> c.text == complete(CorrectionRequest(text)).value
  {
    match complete(CorrectionRequest(text))
    case Ok(content) => Correction(content, None)
    case Fail(e) => Correction(text, Some(e))
  }

  /** There is no short-circuit for empty text: the service is still asked, and its answer is used. */
  lemma CorrectStutterAsksEvenForEmptyText(complete: ChatRequest -> Result<string>, answer: string)
    requires complete(CorrectionRequest("")) == Ok(answer)
    ensures CorrectStutter(complete, "").text == answer
  {
  }

  const SampleRate: nat := 16000
  const RecordedPath: Path := "recorded_audio.wav"
  const CorrectedAudioPath: Path := "corrected_audio.mp3"
  /** gTTS is always asked for English, whatever language was selected. */
  const SpeechLanguage: Language := "en"

  /** `int(duration * sample_rate)`: the number of frames `record_audio` asks for. */
  function Frames(duration: nat, rate: nat): nat {
    duration * rate
  }

  /** The first `n` samples of a signal. */
  function Take(signal: Signal, n: nat): (s: seq<Int16>)
    ensures |s| == n
  {
    seq(n, (i: int) requires 0 <= i => signal(i))
  }

  /** The files after `record_audio(duration, rate, path)`, or the failure it raises. */
  function Recorded(env: Environment, files: FileMap, duration: nat, rate: nat, path: Path): (r: Result<FileMap>)
    ensures r.Ok? <==> env.capture(Frames(duration, rate), rate).Ok? && env.writable(path)
    ensures r.Ok? ==> path in r.value && r.value == files[path := r.value[path]]
    ensures r.Ok? ==> var w := r.value[path];
      w.Wav? && w.rate == rate && w.channels == 1 && |w.samples| == Frames(duration, rate)
  {
    match env.capture(Frames(duration, rate), rate)
    case Fail(e) => Fail(e)
    case Ok(signal) =>
      if env.writable(path) then Ok(files[path := Wav(rate, 1, Take(signal, Frames(duration, rate)))])
      else Fail(WriteFailed(path))
  }

  /** The saved recording holds exactly the first frames of what the device captured. */
  lemma RecordedSamples(env: Environment, files: FileMap, duration: nat, rate: nat, path: Path)
    requires Recorded(env, files, duration, rate, path).Ok?
    ensures var samples := Recorded(env, files, duration, rate, path).value[path].samples;
      forall i :: 0 <= i < |samples| ==> samples[i] == env.capture(Frames(duration, rate), rate).value(i)
  {
  }

  /** `record_audio`: capture single-channel 16-bit audio and save it as a WAV file. */
  method RecordAudio(env: Environment, fs: FileSystem, duration: nat, rate: nat, path: Path) returns (r: Result<()>)
    modifies fs
    ensures r.Ok? <==> Recorded(env, old(fs.files), duration, rate, path).Ok?
    ensures r.Ok? ==> fs.files == Recorded(env, old(fs.files), duration, rate, path).value
    ensures r.Fail? ==> fs.files == old(fs.files) && r.error == Recorded(env, old(fs.files), duration, rate, path).error
  {
    var frames := Frames(duration, rate);
    var captured := env.capture(frames, rate);
    if captured.Fail? {
      return Fail(captured.error);
    }
    var audio := Wav(rate, 1, Take(captured.value, frames));
    r := fs.Write(env, path, audio);
  }

  /** `transcribe_audio(path, language)`: the model reads the file at `path`. */
  function Transcribe(env: Environment, files: FileMap, path: Path, language: Language): (r: Result<string>)
    ensures path !in files ==> r == Fail(MissingFile(path))
    ensures path in files ==> r == env.transcribe(files[path], language)
  {
    if path in files then env.transcribe(files[path], language) else Fail(MissingFile(path))
  }

  /** The files after `text_to_speech(text, path)`, or the failure it raises. */
  function Spoken(env: Environment, files: FileMap, text: string, path: Path): (r: Result<FileMap>)
    ensures r.Ok? <==> env.synthesize(text, SpeechLanguage).Ok? && env.writable(path)
    ensures r.Ok? ==> r.value == files[path := Mp3(env.synthesize(text, SpeechLanguage).value)]
  {
    match env.synthesize(text, SpeechLanguage)
    case Fail(e) => Fail(e)
    case Ok(speech) => if env.writable(path) then Ok(files[path := Mp3(speech)]) else Fail(WriteFailed(path))
  }

  /** `text_to_speech`: synthesize English speech for the text and save it as an MP3 file. */
  method TextToSpeech(env: Environment, fs: FileSystem, text: string, path: Path) returns (r: Result<()>)
    modifies fs
    ensures r.Ok? <==> Spoken(env, old(fs.files), text, path).Ok?
    ensures r.Ok? ==> fs.files == Spoken(env, old(fs.files), text, path).value
    ensures r.Fail? ==> fs.files == old(fs.files) && r.error == Spoken(env, old(fs.files), text, path).error
  {
    var speech := env.synthesize(text, SpeechLanguage);
    if speech.Fail? {
      return Fail(speech.error);
    }
    r := fs.Write(env, path, Mp3(speech.value));
  }
}

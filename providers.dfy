/** The world the pipeline talks to: the microphone, the Whisper transcriber, the
    Groq chat-completion service, the gTTS synthesizer and the filesystem. Each
    provider is an uninterpreted, possibly failing function supplied by the caller;
    within one run a provider answers the same request the same way. */
module Providers {
  import opened PyStr

  /** A signed 16-bit PCM sample (`dtype='int16'`). */
  newtype Int16 = x: int | -0x8000 <= x < 0x8000

  /** What the input device delivers: sample `i` of the capture. */
  type Signal = nat -> Int16

  type Language = string

  type Byte = bv8

  /** The causes of the exceptions the pipeline can meet. */
  datatype Error =
    | DeviceUnavailable        // sounddevice could not open or read the microphone
    | MissingFile(path: Path)  // a file to read does not exist
    | TranscriptionFailed      // Whisper could not load its model or decode the audio
    | CompletionFailed         // the chat-completion request raised or had no first choice
    | SynthesisFailed          // gTTS could not synthesize the text
    | WriteFailed(path: Path)  // a file could not be created, written or replaced

  datatype Result<T> = Ok(value: T) | Fail(error: Error)

  datatype Option<T> = None | Some(value: T)

  /** Contents of the files the program reads and writes. */
  datatype FileContent =
    | Wav(rate: nat, channels: nat, samples: seq<Int16>)
    | TextFile(text: string)
    | Mp3(speech: seq<Byte>)

  type FileMap = map<Path, FileContent>

  /** One message of a chat-completion request. */
  datatype ChatMessage = ChatMessage(role: string, content: string)

  /** A chat-completion request: the messages, the model identifier and the output-token cap. */
  datatype ChatRequest = ChatRequest(messages: seq<ChatMessage>, model: string, maxTokens: nat)

  /** The external collaborators of one run. */
  datatype Environment = Environment(
    // sounddevice: capture a number of frames at a sample rate
    capture: (nat, nat) -> Result<Signal>,
    // Whisper "base": the text of a recording, in a language
    transcribe: (FileContent, Language) -> Result<string>,
    // Groq: the content of the first choice of the response to a request
    complete: ChatRequest -> Result<string>,
    // gTTS: the speech for a text in a language
    synthesize: (string, Language) -> Result<seq<Byte>>,
    // the filesystem accepts writes to this path
    writable: Path -> bool)

  /** The directory tree the program reads and writes, as a map from path to contents. */
  class FileSystem {
    var files: FileMap

    constructor (files: FileMap)
      ensures this.files == files
    {
      this.files := files;
    }

    /** `open(path, "w")` and write, or `tts.save(path)`: creates or overwrites `path`. */
    method Write(env: Environment, path: Path, content: FileContent) returns (r: Result<()>)
      modifies this
      ensures r.Ok? <==> env.writable(path)
      ensures r.Fail? ==> r.error == WriteFailed(path)
      ensures files == if r.Ok? then old(files)[path := content] else old(files)
    {
      if env.writable(path) {
        files := files[path := content];
        r := Ok(());
      } else {
        r := Fail(WriteFailed(path));
      }
    }

    /** `os.replace(src, dst)`: moves the file at `src` to `dst`, overwriting `dst`. */
    method Replace(env: Environment, src: Path, dst: Path) returns (r: Result<()>)
      requires src in files
      modifies this
      ensures r.Ok? <==> env.writable(dst)
      ensures r.Fail? ==> r.error == WriteFailed(dst)
      ensures files == if r.Ok? then Moved(old(files), src, dst) else old(files)
    {
      if env.writable(dst) {
        files := Moved(files, src, dst);
        r := Ok(());
      } else {
        r := Fail(WriteFailed(dst));
      }
    }
  }

  /** The files after moving `src` to `dst`. Moving a file onto itself leaves it in place,
      as `os.replace` does. */
  function Moved(files: FileMap, src: Path, dst: Path): (r: FileMap)
    requires src in files
    ensures dst in r && r[dst] == files[src]
    ensures src != dst ==> src !in r
    ensures forall q :: q != src && q != dst ==> (q in r <==> q in files)
    ensures forall q :: q in r && q != dst ==> r[q] == files[q]
  {
    (files - {src})[dst := files[src]]
  }
}

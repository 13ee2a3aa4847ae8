/**
 * The transcription route: `getTranscript` passes a text input through or asks the
 * speech recogniser about a file, and `POST` picks the status code.
 */
module SubsirlRoute {
  import opened Optional
  import opened JsString
  import opened Http
  import opened Lang

  /** The `audio` form field, which the schema admits as text or as a file. */
  datatype AudioInput = AudioText(text: string) | AudioFile(bytes: seq<bv8>)

  /**
   * `JSON.parse(data.config)` reduced to the one member read: `fromLanguage.symbol`,
   * `None` when the parsed value has no string there.
   */
  datatype LangConfig = LangConfig(fromSymbol: Option<string>)

  /** The parsed form: the audio and the config, `None` when the config is not JSON. */
  datatype AudioForm = AudioForm(audio: AudioInput, config: Option<LangConfig>)

  /** What `groq.audio.transcriptions.create` gives: it throws, or it returns `{ text }`. */
  datatype Recognition = RecognitionFails | Recognized(text: string)

  /** The recogniser request. */
  datatype WhisperCall = WhisperCall(file: seq<bv8>, model: string, temperature: real, language: string)

  /** `getTranscript`'s result and the recogniser call it made, if any. */
  datatype Transcript = Transcript(value: Option<string>, call: Option<WhisperCall>)

  /**
   * The config a page's `JSON.stringify(languageSelected)` turns into on this side, taking
   * `JSON.parse` to give back the `fromLanguage.symbol` that was serialised.
   */
  function ConfigOf(l: LangObj): LangConfig {
    LangConfig(Some(l.fromLanguage.symbol))
  }

  /**
   * `text.trim() || null` on the recogniser's answer, with the `catch` giving `null`: a failure
   * gives `null`, and a recognised text gives its trim, or `null` exactly when it is blank.
   */
  function Recognise(recognition: Recognition): (v: Option<string>)
    ensures recognition.RecognitionFails? ==> v.None?
    ensures recognition.Recognized? ==>
      (v.None? <==> IsBlank(recognition.text)) && (v.Some? ==> v.value == Trim(recognition.text))
    ensures v.Some? ==> v.value != [] && !IsWhitespace(v.value[0]) && !IsWhitespace(v.value[|v.value| - 1])
  {
    match recognition
    case RecognitionFails => None
    case Recognized(text) =>
      var trimmed := Trim(text);
      if trimmed == [] then None else Some(trimmed)
  }

  /**
   * `getTranscript`: a text input is returned as it is, untrimmed and without a call. For a
   * file, the language hint is the lower-cased `fromLanguage.symbol`; when that member is
   * missing the `TypeError` is caught before any call. Otherwise the result is what
   * `Recognise` makes of the recogniser's answer.
   */
  function GetTranscript(input: AudioInput, config: LangConfig, recognition: Recognition): (t: Transcript)
    ensures input.AudioText? ==> t.value == Some(input.text) && t.call.None?
    ensures input.AudioFile? && config.fromSymbol.None? ==> t.value.None? && t.call.None?
    ensures input.AudioFile? && config.fromSymbol.Some? ==>
      t.call == Some(WhisperCall(input.bytes, "whisper-large-v3", 0.1, ToLowerCase(config.fromSymbol.value)))
      && t.value == Recognise(recognition)
  {
    match input
    case AudioText(text) => Transcript(Some(text), None)
    case AudioFile(bytes) =>
      match config.fromSymbol
      case None => Transcript(None, None)
      case Some(symbol) =>
        Transcript(Recognise(recognition), Some(WhisperCall(bytes, "whisper-large-v3", 0.1, ToLowerCase(symbol))))
  }

  /** The route's answer and the recogniser call it made, if any. */
  datatype Handled = Handled(response: Response, call: Option<WhisperCall>)

  /**
   * `POST`: 405 for another method; inside the `try`, 500 when `formData()` or `JSON.parse`
   * throws, 400 "Invalid request" when the schema refuses the form, 400 "Invalid audio" when
   * the transcript is falsy (`null` or `""`), and otherwise 200 with `{transcript}`.
   */
  function Post(verb: string, form: FormRead<AudioForm>, recognition: Recognition): (h: Handled)
    ensures h.response.status in {200, 400, 405, 500}
    ensures h.response.status == 405 <==> verb != "POST"
    ensures h.response.status == 500 <==>
      verb == "POST" && (form.FormDataThrows? || (form.FormParsed? && form.data.config.None?))
    ensures h.response.status == 400 && h.response.body == Text("Invalid request") <==> verb == "POST" && form.SchemaFails?
    ensures h.response.status == 200 ==> form.FormParsed? && form.data.config.Some?
    ensures h.response.status == 400 && h.response.body == Text("Invalid audio") <==>
      verb == "POST" && form.FormParsed? && form.data.config.Some?
      && (GetTranscript(form.data.audio, form.data.config.value, recognition).value.None?
          || GetTranscript(form.data.audio, form.data.config.value, recognition).value.value == "")
    ensures h.response.status == 200 <==>
      verb == "POST" && form.FormParsed? && form.data.config.Some?
      && GetTranscript(form.data.audio, form.data.config.value, recognition).value.Some?
      && GetTranscript(form.data.audio, form.data.config.value, recognition).value.value != ""
    ensures h.response.status == 200 ==>
      h.response.body == Json("transcript", GetTranscript(form.data.audio, form.data.config.value, recognition).value.value)
  {
    if verb != "POST" then Handled(Response(405, Json("error", "Method not allowed")), None)
    else match form
      case FormDataThrows => Handled(Response(500, Json("error", "Internal server error")), None)
      case SchemaFails => Handled(Response(400, Text("Invalid request")), None)
      case FormParsed(AudioForm(audio, config)) =>
        match config
        case None => Handled(Response(500, Json("error", "Internal server error")), None)
        case Some(c) =>
          var t := GetTranscript(audio, c, recognition);
          if t.value.None? || t.value.value == "" then Handled(Response(400, Text("Invalid audio")), t.call)
          else Handled(Response(200, Json("transcript", t.value.value)), t.call)
  }
}

/**
 * The per-utterance pipeline of the subtitles page: `getTranscribe` posts the audio to the
 * transcription route and, only for a transcript that is not blank, awaits `getTranslation`,
 * which posts the text to the translation route and appends the translation.
 */
module UtterancePipeline {
  import opened Optional
  import opened JsString
  import opened Http
  import opened Lang
  import opened Subtitles
  import SubsirlRoute
  import ScribeRoute

  /** A request the page sends: the audio to `/api/subsirl`, or a text to `/api/scribe`, each with the captured `config`. */
  datatype Request =
    | TranscribeRequest(audio: seq<bv8>, config: LangObj)
    | TranslateRequest(text: string, config: LangObj)

  /** The requests one utterance made, in order, and the buffer afterwards. */
  datatype Utterance = Utterance(requests: seq<Request>, subtitles: string)

  /**
   * `getTranscribe` for one utterance captured with `lang`. The transcription request comes
   * first; a translation request follows it only when the reply held a non-blank `transcript`,
   * and then carries that transcript and the same `lang`. A failed, refused or blank reply
   * ends the utterance with no second request and the buffer unchanged. `getTranslation`'s
   * effect on the buffer is `ApplyReply` of its reply; `buffer` is the value the functional
   * update sees when that reply arrives.
   */
  function GetTranscribe(audio: seq<bv8>, lang: LangObj, transcription: FieldReply, translation: FieldReply, buffer: string): (u: Utterance)
    ensures 1 <= |u.requests| <= 2 && u.requests[0] == TranscribeRequest(audio, lang)
    ensures |u.requests| == 2 <==>
      transcription.Field? && transcription.value.Some? && !IsBlank(transcription.value.value)
    ensures |u.requests| == 2 ==> u.requests[1] == TranslateRequest(transcription.value.value, lang)
    ensures |u.requests| == 1 ==> u.subtitles == buffer
    ensures |u.requests| == 2 ==> u.subtitles == ApplyReply(buffer, translation)
    ensures buffer <= u.subtitles
  {
    var first := [TranscribeRequest(audio, lang)];
    match transcription
    case Field(Some(t)) =>
      if IsBlank(t) then Utterance(first, buffer)
      else Utterance(first + [TranslateRequest(t, lang)], ApplyReply(buffer, translation))
    case _ => Utterance(first, buffer)
  }

  /**
   * The page's view of the transcription route for one utterance: the audio goes up as a file
   * with the serialised language pair, and the page reads `transcript` from the answer.
   */
  function TranscriptionReply(audio: seq<bv8>, lang: LangObj, recognition: SubsirlRoute.Recognition): FieldReply {
    var form := FormParsed(SubsirlRoute.AudioForm(SubsirlRoute.AudioFile(audio), Some(SubsirlRoute.ConfigOf(lang))));
    ReadField(SubsirlRoute.Post("POST", form, recognition).response, "transcript")
  }

  /** The page's view of the translation route: it reads `translation` from the answer. */
  function TranslationReply(text: string, completion: ScribeRoute.Completion): FieldReply {
    ReadField(ScribeRoute.Post("POST", FormParsed(text), completion).response, "translation")
  }

  /** One utterance end to end, with both routes in the loop. */
  function EndToEnd(audio: seq<bv8>, lang: LangObj, recognition: SubsirlRoute.Recognition,
                    completion: ScribeRoute.Completion, buffer: string): Utterance
  {
    var transcription := TranscriptionReply(audio, lang, recognition);
    var text := if transcription.Field? && transcription.value.Some? then transcription.value.value else "";
    GetTranscribe(audio, lang, transcription, TranslationReply(text, completion), buffer)
  }

  /**
   * Speech the recogniser cannot turn into text (it fails, or returns only whitespace) gets a
   * 400 from the route, so the page never asks for a translation and displays nothing new.
   */
  lemma UnrecognisedSpeechIsNeverTranslated(audio: seq<bv8>, lang: LangObj, recognition: SubsirlRoute.Recognition,
                                            completion: ScribeRoute.Completion, buffer: string)
    requires recognition.RecognitionFails? || IsBlank(recognition.text)
    ensures EndToEnd(audio, lang, recognition, completion, buffer) == Utterance([TranscribeRequest(audio, lang)], buffer)
  {
    var t := SubsirlRoute.GetTranscript(SubsirlRoute.AudioFile(audio), SubsirlRoute.ConfigOf(lang), recognition);
    assert t.value.None?;
    assert !IsOk(SubsirlRoute.Post("POST", FormParsed(SubsirlRoute.AudioForm(SubsirlRoute.AudioFile(audio), Some(SubsirlRoute.ConfigOf(lang)))), recognition).response);
  }

  /** A transcript that is not blank reaches the page trimmed, in a 200 answer. */
  lemma RecognisedTranscriptReply(audio: seq<bv8>, lang: LangObj, text: string)
    requires !IsBlank(text)
    ensures TranscriptionReply(audio, lang, SubsirlRoute.Recognized(text)) == Field(Some(Trim(text)))
  {
    var recognition := SubsirlRoute.Recognized(text);
    var form := FormParsed(SubsirlRoute.AudioForm(SubsirlRoute.AudioFile(audio), Some(SubsirlRoute.ConfigOf(lang))));
    var t := SubsirlRoute.GetTranscript(SubsirlRoute.AudioFile(audio), SubsirlRoute.ConfigOf(lang), recognition);
    assert t.value == Some(Trim(text));
    var h := SubsirlRoute.Post("POST", form, recognition);
    assert h.response == Response(200, Json("transcript", Trim(text)));
  }

  /** A parsed translation request always reaches the page as a 200 carrying `translateText`'s result. */
  lemma TranslationReplyCarriesTranslation(text: string, completion: ScribeRoute.Completion)
    ensures TranslationReply(text, completion) == Field(Some(ScribeRoute.Translation(completion)))
  {
    var h := ScribeRoute.Post("POST", FormParsed(text), completion);
    assert h.response == Response(200, Json("translation", ScribeRoute.Translation(completion)));
  }

  /** A non-blank transcript is followed by the translation request for it, and a translation reply is appended. */
  lemma TranscriptAccepted(audio: seq<bv8>, lang: LangObj, t: string, x: string, buffer: string)
    requires !IsBlank(t)
    ensures GetTranscribe(audio, lang, Field(Some(t)), Field(Some(x)), buffer)
      == Utterance([TranscribeRequest(audio, lang), TranslateRequest(t, lang)], AppendSubtitle(buffer, x))
  {
    assert [TranscribeRequest(audio, lang)] + [TranslateRequest(t, lang)]
      == [TranscribeRequest(audio, lang), TranslateRequest(t, lang)];
  }

  /**
   * Recognised speech is translated from its trimmed text, with the language pair captured for
   * this utterance; the translation route only ever prompts for Hindi to English, and what it
   * returns (a leading space per fragment) is appended when not blank.
   */
  lemma RecognisedSpeechIsTranslated(audio: seq<bv8>, lang: LangObj, text: string,
                                     completion: ScribeRoute.Completion, buffer: string)
    requires !IsBlank(text)
    ensures EndToEnd(audio, lang, SubsirlRoute.Recognized(text), completion, buffer).requests
      == [TranscribeRequest(audio, lang), TranslateRequest(Trim(text), lang)]
    ensures EndToEnd(audio, lang, SubsirlRoute.Recognized(text), completion, buffer).subtitles
      == AppendSubtitle(buffer, ScribeRoute.Translation(completion))
  {
    var transcript := Trim(text);
    RecognisedTranscriptReply(audio, lang, text);
    TrimIdempotent(text);
    TranslationReplyCarriesTranslation(transcript, completion);
    TranscriptAccepted(audio, lang, transcript, ScribeRoute.Translation(completion), buffer);
  }

  /**
   * A translation-model failure reaches the page as a 200 with an empty `translation`, which
   * is blank: the utterance made both requests but adds no text.
   */
  lemma FailedTranslationAddsNothing(audio: seq<bv8>, lang: LangObj, text: string, buffer: string)
    requires !IsBlank(text)
    ensures EndToEnd(audio, lang, SubsirlRoute.Recognized(text), ScribeRoute.CreateFailed, buffer).subtitles == buffer
  {
    RecognisedSpeechIsTranslated(audio, lang, text, ScribeRoute.CreateFailed, buffer);
    assert AllWhitespace("");
  }
}

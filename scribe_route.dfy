/**
 * The translation route: `translateText` folds the streamed completion into one string,
 * the prompt embeds the text, and `POST` picks the status code.
 */
module ScribeRoute {
  import opened Optional
  import opened JsString
  import opened Http
  import opened Subtitles

  /** One streamed chunk: `chunk.choices[0]?.delta?.content`, `None` when any link is missing. */
  datatype Chunk = Chunk(content: Option<string>)

  /** What the model service gives back: `create` rejected, or a stream that may break after its chunks. */
  datatype Completion = CreateFailed | Streamed(chunks: seq<Chunk>, broken: bool)

  /** The request `translateText` sends. */
  datatype ChatRequest = ChatRequest(
    role: string, content: string, model: string,
    temperature: real, maxTokens: nat, topP: real, stream: bool)

  /** `content || ""`: a missing or empty content contributes the empty string. */
  function Fragment(c: Chunk): string {
    match c.content
    case Some(s) => s
    case None => ""
  }

  /** The fold `str = `${str} ${fragment}`` over the chunks, starting from `""`. */
  function Spaced(chunks: seq<Chunk>): string {
    if chunks == [] then "" else Spaced(chunks[..|chunks| - 1]) + " " + Fragment(chunks[|chunks| - 1])
  }

  /** What `translateText` returns: the fold of a stream that ended, and `""` on any error. */
  function Translation(c: Completion): string {
    match c
    case CreateFailed => ""
    case Streamed(chunks, broken) => if broken then "" else Spaced(chunks)
  }

  function TotalLength(chunks: seq<Chunk>): nat {
    if chunks == [] then 0 else TotalLength(chunks[..|chunks| - 1]) + |Fragment(chunks[|chunks| - 1])|
  }

  /** Every chunk adds exactly one space, missing content included: the length is the chunk count plus the fragments' lengths. */
  lemma {:induction false} SpacedLength(chunks: seq<Chunk>)
    ensures |Spaced(chunks)| == |chunks| + TotalLength(chunks)
    decreases |chunks|
  {
    if chunks != [] {
      SpacedLength(chunks[..|chunks| - 1]);
    }
  }

  /** The fold distributes over concatenation of streams, so it is a per-chunk map: each chunk becomes `" " + fragment`. */
  lemma {:induction false} SpacedAppend(a: seq<Chunk>, b: seq<Chunk>)
    ensures Spaced(a + b) == Spaced(a) + Spaced(b)
    decreases |b|
  {
    if b == [] {
      assert a + b == a;
    } else {
      var init := b[..|b| - 1];
      var f := Fragment(b[|b| - 1]);
      assert (a + b)[..|a + b| - 1] == a + init;
      assert (a + b)[|a + b| - 1] == b[|b| - 1];
      assert Spaced(a + b) == Spaced(a + init) + " " + f;
      SpacedAppend(a, init);
      assert Spaced(b) == Spaced(init) + " " + f;
      assert Spaced(a) + Spaced(init) + " " + f == Spaced(a) + (Spaced(init) + " " + f);
    }
  }

  /** The first fragment, like every other, gets one leading space. */
  lemma SpacedFirst(chunks: seq<Chunk>)
    requires chunks != []
    ensures Spaced(chunks) == " " + Fragment(chunks[0]) + Spaced(chunks[1..])
  {
    assert chunks == [chunks[0]] + chunks[1..];
    SpacedAppend([chunks[0]], chunks[1..]);
  }

  /** Fragments `"Hello"`, `"world"` fold to `" Hello world"`, with a space before each fragment. */
  lemma HelloWorldFold()
    ensures Translation(Streamed([Chunk(Some("Hello")), Chunk(Some("world"))], false)) == " Hello world"
  {
    var cs := [Chunk(Some("Hello")), Chunk(Some("world"))];
    assert cs == [Chunk(Some("Hello"))] + [Chunk(Some("world"))];
    SpacedAppend([Chunk(Some("Hello"))], [Chunk(Some("world"))]);
  }
  /**
   * The folded `" Hello world"` is not blank, so a page appends it after its own space and
   * stores it with both leading spaces: nothing on the way trims it.
   */
  lemma HelloWorldStored()
    ensures AppendSubtitle("", " Hello world") == "  Hello world"
  {
    assert !IsWhitespace(" Hello world"[1]);
  }

  /** Where the stream cuts the text matters: `"Hel"`, `"lo"` does not give what `"Hello"` gives. */
  lemma FragmentBoundariesShowInResult()
    ensures Spaced([Chunk(Some("Hel")), Chunk(Some("lo"))]) != Spaced([Chunk(Some("Hello"))])
  {
    SpacedLength([Chunk(Some("Hel")), Chunk(Some("lo"))]);
    SpacedLength([Chunk(Some("Hello"))]);
    assert [Chunk(Some("Hel")), Chunk(Some("lo"))][..1] == [Chunk(Some("Hel"))];
  }

  /** `translateText`'s `for await` loop over the stream, with its `catch` returning `""`. */
  method TranslateText(text: string, completion: Completion) returns (request: ChatRequest, str: string)
    ensures request == TranslationRequest(text)
    ensures str == Translation(completion)
  {
    request := TranslationRequest(text);
    if completion.CreateFailed? {
      return request, "";
    }
    var chunks := completion.chunks;
    str := "";
    var i := 0;
    while i < |chunks|
      invariant 0 <= i <= |chunks|
      invariant str == Spaced(chunks[..i])
    {
      assert chunks[..i + 1][..i] == chunks[..i];
      str := str + " " + Fragment(chunks[i]);
      i := i + 1;
    }
    assert chunks[..|chunks|] == chunks;
    if completion.broken {
      str := "";
    }
  }

  const SourceLanguage: string := "Hindi"
  const TargetLanguage: string := "English"
  const Instruction: string := "just respond with translated text, nothing else."
  /** The template literal's continuation lines keep the source's indentation. */
  const Indent: string := "                    "
  const Opening: string := "Translate the following "
  const PromptHead: string := Opening + SourceLanguage + " language text to " + TargetLanguage + ": \""
  const PromptTail: string := "\"\n" + Indent + "Make sure to " + Instruction + "\n" + Indent + "Translation:-"

  /** The user message: fixed Hindi-to-English wording, the text verbatim in double quotes, and the reply-only instruction. */
  function Prompt(text: string): string {
    PromptHead + text + PromptTail
  }

  /** Reads back the text a prompt quotes, if `p` has the prompt's shape. */
  function QuotedText(p: string): Option<string> {
    if |p| >= |PromptHead| + |PromptTail|
      && p[..|PromptHead|] == PromptHead
      && p[|p| - |PromptTail|..] == PromptTail
    then Some(p[|PromptHead|..|p| - |PromptTail|])
    else None
  }

  /** The prompt carries the text verbatim: reading it back gives exactly the text, and only prompts read back. */
  lemma PromptRoundTrip(text: string, p: string)
    ensures QuotedText(Prompt(text)) == Some(text)
    ensures QuotedText(p) == Some(text) ==> Prompt(text) == p
  {
    var q := Prompt(text);
    assert q[..|PromptHead|] == PromptHead;
    assert q[|q| - |PromptTail|..] == PromptTail;
    assert q[|PromptHead|..|q| - |PromptTail|] == text;
    if QuotedText(p) == Some(text) {
      assert p == p[..|PromptHead|] + p[|PromptHead|..|p| - |PromptTail|] + p[|p| - |PromptTail|..];
    }
  }

  /** The prompt names both languages and tells the model to answer with the translation only. */
  lemma PromptStatesLanguagesAndInstruction(text: string)
    ensures Contains(Prompt(text), SourceLanguage) && SourceLanguage == "Hindi"
    ensures Contains(Prompt(text), TargetLanguage) && TargetLanguage == "English"
    ensures Contains(Prompt(text), Instruction)
  {
    var x := " language text to ";
    var y := ": \"";
    ContainsSuffix(Opening, SourceLanguage);
    ContainsAppend(Opening + SourceLanguage, x, SourceLanguage);
    ContainsAppend(Opening + SourceLanguage + x, TargetLanguage, SourceLanguage);
    ContainsSuffix(Opening + SourceLanguage + x, TargetLanguage);
    ContainsAppend(Opening + SourceLanguage + x + TargetLanguage, y, SourceLanguage);
    ContainsAppend(Opening + SourceLanguage + x + TargetLanguage, y, TargetLanguage);
    ContainsAppend(PromptHead, text, SourceLanguage);
    ContainsAppend(PromptHead, text, TargetLanguage);
    ContainsAppend(PromptHead + text, PromptTail, SourceLanguage);
    ContainsAppend(PromptHead + text, PromptTail, TargetLanguage);
    var u := "\"\n" + Indent + "Make sure to ";
    ContainsSuffix(u, Instruction);
    ContainsAppend(u + Instruction, "\n", Instruction);
    ContainsAppend(u + Instruction + "\n", Indent, Instruction);
    ContainsAppend(u + Instruction + "\n" + Indent, "Translation:-", Instruction);
    ContainsPrepend(PromptHead + text, PromptTail, Instruction);
  }

  /** `groq.chat.completions.create({...})` for `text`: one streamed user message with the prompt. */
  function TranslationRequest(text: string): (r: ChatRequest)
    ensures r.stream && r.role == "user"
    ensures QuotedText(r.content) == Some(text)
  {
    PromptRoundTrip(text, []);
    ChatRequest("user", Prompt(text), "llama3-70b-8192", 0.7, 1024, 1.0, true)
  }

  /** The route's answer and the model call it made, if any. */
  datatype Handled = Handled(response: Response, call: Option<ChatRequest>)

  /**
   * `POST`: 405 for another method; inside the `try`, 500 when `formData()` throws, 400 when
   * the schema refuses the form, and otherwise 200 with `{translation}`. `translateText`
   * never throws, so a model failure is a 200 with an empty translation. No language is read
   * from the request: the prompt is always Hindi to English.
   */
  function Post(verb: string, form: FormRead<string>, completion: Completion): (h: Handled)
    ensures h.response.status in {200, 400, 405, 500}
    ensures h.response.status == 405 <==> verb != "POST"
    ensures h.response.status == 500 <==> verb == "POST" && form.FormDataThrows?
    ensures h.response.status == 400 <==> verb == "POST" && form.SchemaFails?
    ensures h.response.status == 200 <==> verb == "POST" && form.FormParsed?
    ensures h.response.status == 200 ==> h.response.body == Json("translation", Translation(completion))
    ensures h.call.Some? <==> h.response.status == 200
    ensures h.call.Some? ==> QuotedText(h.call.value.content) == Some(form.data)
  {
    if verb != "POST" then Handled(Response(405, Json("error", "Method not allowed")), None)
    else match form
      case FormDataThrows => Handled(Response(500, Json("error", "Internal server error")), None)
      case SchemaFails => Handled(Response(400, Text("Invalid request")), None)
      case FormParsed(text) =>
        Handled(Response(200, Json("translation", Translation(completion))), Some(TranslationRequest(text)))
  }
}

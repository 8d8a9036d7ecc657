/**
 * The Gemini helpers: the shape of a `generate_content` response, and the
 * markdown-fence cleanup that `parse_json_response` applies to model output
 * before `json.loads`. The analysis code in the video and competitor services
 * repeats the same cleanup; both use `ParseJsonText` from here.
 */
module GeminiService {
  import opened Text
  import opened Wrappers

  const JsonOpenFence: string := "```json"
  const CloseFence: string := "```"

  // ---------------------------------------------------------------------------
  // Fence stripping
  // ---------------------------------------------------------------------------

  /** One leading "```json" removed, if present. */
  function DropOpenFence(t: string): (r: string)
    ensures StartsWith(t, JsonOpenFence) ==> JsonOpenFence + r == t
    ensures !StartsWith(t, JsonOpenFence) ==> r == t
  {
    if StartsWith(t, JsonOpenFence) then t[7..] else t
  }

  /** One trailing "```" removed, if present. */
  function DropCloseFence(u: string): (r: string)
    ensures EndsWith(u, CloseFence) ==> r + CloseFence == u
    ensures !EndsWith(u, CloseFence) ==> r == u
  {
    if EndsWith(u, CloseFence) then u[..|u| - 3] else u
  }

  /**
   * The text `parse_json_response` hands to `json.loads`: strip, drop one leading
   * "```json" (7 characters), then drop one trailing "```" (3 characters), strip again.
   */
  function ParseJsonText(responseText: string): (r: string)
    ensures IsStripped(r)
    ensures |r| <= |responseText|
  {
    Strip(DropCloseFence(DropOpenFence(Strip(responseText))))
  }

  /** The cleaned text is one contiguous slice of the model output. */
  lemma ParseJsonTextIsSlice(responseText: string)
    ensures IsSlice(ParseJsonText(responseText), responseText)
  {
    var t := Strip(responseText);
    var u := DropOpenFence(t);
    var v := DropCloseFence(u);
    StripIsSlice(responseText);
    assert IsSlice(u, t) by {
      if StartsWith(t, JsonOpenFence) {
        assert t[7..|t|] == u;
      } else {
        assert t[0..|t|] == u;
      }
    }
    assert IsSlice(v, u) by {
      if EndsWith(u, CloseFence) {
        assert u[0..|u| - 3] == v;
      } else {
        assert u[0..|u|] == v;
      }
    }
    StripIsSlice(v);
    SliceOfSlice(u, t, responseText);
    SliceOfSlice(v, u, responseText);
    SliceOfSlice(Strip(v), v, responseText);
  }

  /** Output with neither fence comes back only stripped. */
  lemma ParseJsonTextUnfenced(responseText: string)
    requires !StartsWith(Strip(responseText), JsonOpenFence)
    requires !EndsWith(Strip(responseText), CloseFence)
    ensures ParseJsonText(responseText) == Strip(responseText)
  {
    StripStripped(Strip(responseText));
  }

  lemma DropOpenFenceOf(y: string)
    ensures DropOpenFence(JsonOpenFence + y) == y
  {
    var x := JsonOpenFence + y;
    assert x[..7] == JsonOpenFence;
    assert x[7..] == y;
  }

  lemma DropCloseFenceOf(body: string)
    ensures DropCloseFence(body + CloseFence) == body
  {
    var u := body + CloseFence;
    assert u[|u| - 3..] == CloseFence;
    assert u[..|u| - 3] == body;
  }

  /** Wrapping `body` in a ```json fence (with any surrounding whitespace) and cleaning gives `body` back, stripped. */
  lemma ParseJsonTextFenced(pre: string, body: string, post: string)
    requires AllSpace(pre) && AllSpace(post)
    ensures ParseJsonText(pre + JsonOpenFence + body + CloseFence + post) == Strip(body)
  {
    var x := JsonOpenFence + (body + CloseFence);
    assert pre + JsonOpenFence + body + CloseFence + post == pre + x + post;
    assert x[0] == '`' && x[|x| - 1] == '`';
    StripPadded(pre, x, post);
    DropOpenFenceOf(body + CloseFence);
    DropCloseFenceOf(body);
  }

  /** A lone "```json```" cleans to the empty text: the prefix step runs before the suffix step. */
  lemma ParseJsonTextEmptyFence()
    ensures ParseJsonText("```json```") == ""
  {
    assert "" + JsonOpenFence + "" + CloseFence + "" == "```json```";
    ParseJsonTextFenced("", "", "");
    assert Strip("") == "";
  }

  /** The opening fence is removed once: a second "```json" after it stays. */
  lemma ParseJsonTextOpensOnce()
    ensures ParseJsonText("```json```json{}") == "```json{}"
  {
    var s := "```json```json{}";
    StripStripped(s);
    assert StartsWith(s, JsonOpenFence);
    var u := s[7..];
    assert u == "```json{}";
    assert !EndsWith(u, CloseFence);
    StripStripped(u);
  }

  /** Text fenced by bare "```" does not open with "```json" unless its body starts with "json". */
  lemma BareFenceIsNotJsonFence(body: string)
    requires !StartsWith(body, "json")
    ensures !StartsWith(CloseFence + body + CloseFence, JsonOpenFence)
  {
    var x := CloseFence + body + CloseFence;
    assert JsonOpenFence[3..] == "json";
    if |body| >= 4 {
      assert x[..7][3..] == body[..4];
    } else if |body| > 0 {
      var k := 3 + |body|;
      assert x[..7][k] == '`';
      assert JsonOpenFence[k] != '`';
    }
  }

  /** Stripping keeps a leading "```". */
  lemma StripKeepsOpeningBackticks(v: string)
    requires StartsWith(v, CloseFence)
    ensures StartsWith(Strip(v), CloseFence)
  {
    StripKeeps(v, 0, 2);
    assert v[0..3] == CloseFence;
  }

  /**
   * Only "```json" opens a fence: text fenced by bare "```" keeps its opening
   * fence while its closing fence is removed.
   */
  lemma ParseJsonTextBareOpening(pre: string, body: string, post: string)
    requires AllSpace(pre) && AllSpace(post)
    requires !StartsWith(body, "json")
    ensures ParseJsonText(pre + CloseFence + body + CloseFence + post) == Strip(CloseFence + body)
    ensures StartsWith(ParseJsonText(pre + CloseFence + body + CloseFence + post), CloseFence)
  {
    var x := CloseFence + body + CloseFence;
    assert pre + CloseFence + body + CloseFence + post == pre + x + post;
    assert x[0] == '`' && x[|x| - 1] == '`';
    StripPadded(pre, x, post);
    BareFenceIsNotJsonFence(body);
    assert DropOpenFence(x) == x;
    var v := CloseFence + body;
    assert x[..|x| - 3] == v;
    assert DropCloseFence(x) == v;
    StripKeepsOpeningBackticks(v);
  }

  // ---------------------------------------------------------------------------
  // Responses of generate_content, as Python objects
  // ---------------------------------------------------------------------------

  datatype Part = Part(text: string)
  datatype Content = Content(parts: seq<Part>)
  datatype Candidate = Candidate(content: Content)
  /** A `generate_content` response: a list of candidates, each holding a list of parts. */
  datatype GenerateResponse = GenerateResponse(candidates: seq<Candidate>)

  /** Enough of Python's object model to follow an attribute chain. */
  datatype PyValue =
    | PyStr(s: string)
    | PyFloats(values: seq<real>)
    | PyList(items: seq<PyValue>)
    | PyObject(attributes: map<string, PyValue>)

  /** `value.name`: only an object carries attributes; on a list it raises AttributeError. */
  function GetAttr(value: Result<PyValue, string>, name: string): (r: Result<PyValue, string>)
    ensures value.Failure? ==> r == value
    ensures value.Success? && value.value.PyObject? && name in value.value.attributes ==> r == Success(value.value.attributes[name])
    ensures value.Success? && !value.value.PyObject? ==> r == Failure("AttributeError: " + name)
    ensures r.Success? ==> value.Success? && value.value.PyObject? && name in value.value.attributes
  {
    match value
    case Failure(e) => Failure(e)
    case Success(PyObject(attributes)) =>
      if name in attributes then Success(attributes[name]) else Failure("AttributeError: " + name)
    case Success(_) => Failure("AttributeError: " + name)
  }

  function PartObject(p: Part): PyValue {
    PyObject(map["text" := PyStr(p.text)])
  }

  function CandidateObject(c: Candidate): PyValue {
    PyObject(map["content" := PyObject(map["parts" := PyList(seq(|c.content.parts|, i requires 0 <= i < |c.content.parts| => PartObject(c.content.parts[i])))])])
  }

  /** The response as the client library presents it: `candidates` is a list. */
  function ResponseObject(response: GenerateResponse): PyValue {
    PyObject(map["candidates" := PyList(seq(|response.candidates|, i requires 0 <= i < |response.candidates| => CandidateObject(response.candidates[i])))])
  }

  /**
   * `response.candidates.content.parts.text`, evaluated as the analysis code
   * writes it: the chain stops at `.content`, looked up on the list `candidates`.
   */
  function CandidateTextAsWritten(response: GenerateResponse): (r: Result<PyValue, string>)
    ensures r == Failure("AttributeError: content")
  {
    var candidates := GetAttr(Success(ResponseObject(response)), "candidates");
    assert candidates.Success? && candidates.value.PyList?;
    assert "AttributeError: " + "content" == "AttributeError: content";
    GetAttr(GetAttr(GetAttr(candidates, "content"), "parts"), "text")
  }

  /** `response.candidates[0].content.parts[0].text`: the first part of the first candidate. */
  function FirstCandidateText(response: GenerateResponse): (r: Option<string>)
    ensures r.Some? <==> response.candidates != [] && response.candidates[0].content.parts != []
    ensures r.Some? ==> r.value == response.candidates[0].content.parts[0].text
  {
    if response.candidates == [] || response.candidates[0].content.parts == [] then None
    else Some(response.candidates[0].content.parts[0].text)
  }

  /** A single-candidate, single-part response: the corrected reading finds its text, the written one does not. */
  lemma FirstCandidateTextOfSinglePart(text: string)
    ensures FirstCandidateText(GenerateResponse([Candidate(Content([Part(text)]))])) == Some(text)
    ensures CandidateTextAsWritten(GenerateResponse([Candidate(Content([Part(text)]))])).Failure?
  {
  }

  /**
   * The JSON text an analysis extracts from a model response: the first part's
   * text, fence-stripped as `parse_json_response` does; an error when the
   * response holds no candidate or no part.
   */
  function AnalysisJsonText(response: Result<GenerateResponse, string>): (r: Result<string, string>)
    ensures response.Failure? ==> r == Failure(response.error)
    ensures response.Success? && FirstCandidateText(response.value).Some? ==>
              r == Success(ParseJsonText(FirstCandidateText(response.value).value))
    ensures response.Success? && FirstCandidateText(response.value).None? ==> r.Failure?
  {
    match response
    case Failure(e) => Failure(e)
    case Success(resp) =>
      match FirstCandidateText(resp)
      case None => Failure("IndexError: response has no candidate text")
      case Some(text) => Success(ParseJsonText(text))
  }

  /**
   * The JSON text an analysis extracts as the analysis code is written: the
   * attribute chain `response.candidates.content.parts.text`, then the same cleanup.
   */
  function AnalysisJsonTextAsWritten(response: Result<GenerateResponse, string>): (r: Result<string, string>)
    ensures response.Failure? ==> r == Failure(response.error)
    ensures response.Success? ==> r == Failure("AttributeError: content")
  {
    match response
    case Failure(e) => Failure(e)
    case Success(resp) =>
      match CandidateTextAsWritten(resp)
      case Success(PyStr(text)) => Success(ParseJsonText(text))
      case Success(_) => Failure("AttributeError: strip")
      case Failure(e) => Failure(e)
  }

  /** For every well-formed reply the written analysis fails where the corrected one yields the cleaned text. */
  lemma AnalysisJsonTextAsWrittenAlwaysFails(response: Result<GenerateResponse, string>)
    requires response.Success? && FirstCandidateText(response.value).Some?
    ensures AnalysisJsonTextAsWritten(response).Failure?
    ensures AnalysisJsonText(response) == Success(ParseJsonText(FirstCandidateText(response.value).value))
  {
  }

  /** A reply fenced as "```json" + body + "```" (with surrounding whitespace) analyses to the stripped body. */
  lemma AnalysisJsonTextFenced(pre: string, body: string, post: string)
    requires AllSpace(pre) && AllSpace(post)
    ensures AnalysisJsonText(Success(GenerateResponse([Candidate(Content([Part(pre + JsonOpenFence + body + CloseFence + post)]))])))
              == Success(Strip(body))
  {
    var text := pre + JsonOpenFence + body + CloseFence + post;
    var response := GenerateResponse([Candidate(Content([Part(text)]))]);
    assert FirstCandidateText(response) == Some(text);
    ParseJsonTextFenced(pre, body, post);
  }
}

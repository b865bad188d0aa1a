/**
 * services/geminiService.ts: `editImageWithGemini`. The network call is a
 * parameter of type `Request -> CallResult`; what the service returns is a
 * value of the datatypes below, shaped like the SDK's response (every field
 * the code reads may be absent).
 */
module GeminiService {
  import opened Wrappers
  import opened JsString
  import opened FileUtils

  const ModelName: string := "gemini-2.5-flash-image"
  /** Media type assumed for a returned image that does not state one. */
  const DefaultImageMimeType: string := "image/png"
  // The fixed messages are written in short pieces so that the verifier can
  // inspect their characters.
  const NoImageMessage: string := "Gemini " + "未返回图像" + "数据。"
  const TooLargeMessage: string :=
    "图片文件太大，" + "无法通过 API" + " 处理。请尝试" + "使用较小（小于" + " 10MB）" + "或分辨率较低" + "的图片。"
  /**
   * The TypeErrors a V8-based browser raises when `candidates[0].content`
   * or its `parts` is absent (other engines word them differently).
   */
  const MissingContentMessage: string := "Cannot read " + "properties " + "of undefined " + "(reading " + "'parts')"
  const MissingPartsMessage: string := "parts is " + "not iterable"

  datatype InlineData = InlineData(mimeType: Option<string>, data: Option<string>)
  datatype Part = Part(inlineData: Option<InlineData>, text: Option<string>)
  datatype Content = Content(parts: Option<seq<Part>>)
  datatype Candidate = Candidate(content: Option<Content>)
  datatype Response = Response(candidates: Option<seq<Candidate>>)

  /** What the code sends: a model name and the parts of one content entry. */
  datatype Request = Request(model: string, parts: seq<Part>)

  /** A thrown JavaScript error; `message` may be absent. */
  datatype JsError = JsError(message: Option<string>)

  /** How the `generateContent` call ends: with a response, or by throwing. */
  datatype CallResult = Returned(response: Response) | Threw(error: JsError)

  /** How `editImageWithGemini` ends: resolves to a data URL, or rejects. */
  datatype Outcome = Success(dataUrl: string) | Failure(error: JsError)

  /**
   * `part.inlineData && part.inlineData.data`: inline data with a non-empty
   * payload; an absent object, an absent payload and an empty one are all falsy.
   */
  predicate HasImageData(p: Part): (b: bool)
    ensures b ==> p.inlineData.Some? && p.inlineData.value.data.Some?
    ensures p.inlineData.Some? && p.inlineData.value.data == Some("") ==> !b
  {
    p.inlineData.Some? && p.inlineData.value.data.Some? && p.inlineData.value.data.value != ""
  }

  /** `part.text`: a non-empty text; an absent and an empty text are both falsy. */
  predicate HasText(p: Part): (b: bool)
    ensures b ==> p.text.Some?
    ensures p.text == Some("") ==> !b
  {
    p.text.Some? && p.text.value != ""
  }

  /** The request: the source image's inline data, then the prompt text. */
  function BuildRequest(imageDataUrl: string, prompt: string): (req: Request)
    ensures req.model == ModelName && |req.parts| == 2
    ensures HasText(req.parts[1]) <==> prompt != ""
    ensures req.parts[0] ==
      Part(Some(InlineData(Some(GetMimeType(imageDataUrl)), Some(ExtractBase64Data(imageDataUrl)))), None)
    ensures req.parts[1] == Part(None, Some(prompt))
  {
    Request(ModelName, [
      Part(Some(InlineData(Some(GetMimeType(imageDataUrl)), Some(ExtractBase64Data(imageDataUrl)))), None),
      Part(None, Some(prompt))
    ])
  }

  /** The index of the first part satisfying `p`, as a `for ... of` loop that returns on a match finds it. */
  function FirstWhere(parts: seq<Part>, p: Part -> bool): (r: Option<nat>)
    ensures r.None? <==> forall k :: 0 <= k < |parts| ==> !p(parts[k])
    ensures r.Some? ==> r.value < |parts| && p(parts[r.value])
    ensures r.Some? ==> forall k :: 0 <= k < r.value ==> !p(parts[k])
  {
    if parts == [] then None
    else if p(parts[0]) then Some(0)
    else
      match FirstWhere(parts[1..], p)
      case None => None
      case Some(i) => Some(i + 1)
  }

  /** `part.inlineData.mimeType || 'image/png'`. */
  function EffectiveMimeType(d: InlineData): (m: string)
    ensures m != ""
    ensures d.mimeType.Some? && d.mimeType.value != "" ==> m == d.mimeType.value
    ensures !(d.mimeType.Some? && d.mimeType.value != "") ==> m == DefaultImageMimeType
  {
    if d.mimeType.Some? && d.mimeType.value != "" then d.mimeType.value else DefaultImageMimeType
  }

  /**
   * The data URL returned for an image part: `data:`, the effective media
   * type, `;base64,`, then the payload unchanged.
   */
  function ImageDataUrl(d: InlineData): (u: string)
    requires d.data.Some?
    ensures |u| == |"data:"| + |EffectiveMimeType(d)| + |";base64,"| + |d.data.value|
    ensures u[..5] == "data:" && u[5..5 + |EffectiveMimeType(d)|] == EffectiveMimeType(d)
    ensures u[5 + |EffectiveMimeType(d)|..|u| - |d.data.value|] == ";base64,"
    ensures u[|u| - |d.data.value|..] == d.data.value
  {
    DataUrl(EffectiveMimeType(d), d.data.value)
  }

  /**
   * The two loops over the parts of the first candidate, before the catch
   * block: the first image part wins; otherwise the first text part is
   * thrown; otherwise the fixed "no image" error is thrown.
   */
  function ScanParts(parts: seq<Part>): (r: Outcome)
    ensures r.Success? <==> exists k :: 0 <= k < |parts| && HasImageData(parts[k])
    ensures r.Success? ==>
      (exists k :: 0 <= k < |parts| && HasImageData(parts[k]) &&
        (forall j :: 0 <= j < k ==> !HasImageData(parts[j])) &&
        r.dataUrl == ImageDataUrl(parts[k].inlineData.value))
    ensures r.Failure? ==>
      (r.error.message == Some(NoImageMessage) ||
       exists k :: 0 <= k < |parts| && HasText(parts[k]) &&
         (forall j :: 0 <= j < k ==> !HasText(parts[j])) &&
         r.error.message == parts[k].text)
  {
    match FirstWhere(parts, HasImageData)
    case Some(i) => Success(ImageDataUrl(parts[i].inlineData.value))
    case None =>
      match FirstWhere(parts, HasText)
      case Some(j) => Failure(JsError(Some(parts[j].text.value)))
      case None => Failure(JsError(Some(NoImageMessage)))
  }

  /** Everything inside the `try` after the call: only `candidates[0]` is read. */
  function ScanResponse(response: Response): (r: Outcome)
    ensures response.candidates.None? || response.candidates.value == [] ==>
      r == Failure(JsError(Some(NoImageMessage)))
    ensures r.Success? ==>
      response.candidates.Some? && |response.candidates.value| > 0 &&
      response.candidates.value[0].content.Some? &&
      response.candidates.value[0].content.value.parts.Some? &&
      exists k :: 0 <= k < |response.candidates.value[0].content.value.parts.value| &&
        HasImageData(response.candidates.value[0].content.value.parts.value[k])
    ensures r.Failure? ==> r.error.message.Some? && r.error.message.value != ""
  {
    if response.candidates.Some? && |response.candidates.value| > 0 then
      match response.candidates.value[0].content
      case None => Failure(JsError(Some(MissingContentMessage)))
      case Some(content) =>
        match content.parts
        case None => Failure(JsError(Some(MissingPartsMessage)))
        case Some(parts) => ScanParts(parts)
    else
      Failure(JsError(Some(NoImageMessage)))
  }

  /**
   * The message of an error signals an oversized request: it contains `413`
   * or `xhr error` at some position. A missing message never does, nor does
   * one holding neither a `4` nor an `x`.
   */
  predicate SignalsTooLarge(e: JsError): (b: bool)
    ensures b <==>
      (e.message.Some? &&
       ((exists i :: OccursAt(e.message.value, "413", i)) ||
        (exists i :: OccursAt(e.message.value, "xhr error", i))))
    ensures b ==> e.message.Some? && ('4' in e.message.value || 'x' in e.message.value)
  {
    if e.message.None? then false
    else
      var m := e.message.value;
      IncludesIffOccurs(m, "413");
      IncludesIffOccurs(m, "xhr error");
      if Includes(m, "413") then IncludesFirstChar(m, "413"); true
      else if Includes(m, "xhr error") then IncludesFirstChar(m, "xhr error"); true
      else false
  }

  /** The catch block: oversized-request errors become the fixed message, others are rethrown as they are. */
  function Translate(e: JsError): (r: JsError)
    ensures SignalsTooLarge(e) ==> r.message == Some(TooLargeMessage)
    ensures !SignalsTooLarge(e) ==> r == e
  {
    if SignalsTooLarge(e) then JsError(Some(TooLargeMessage)) else e
  }

  /** The result of the whole function for a given outcome of the network call. */
  function Interpret(call: CallResult): (r: Outcome)
    ensures r.Success? <==> call.Returned? && ScanResponse(call.response).Success?
    ensures r.Success? ==> r == ScanResponse(call.response)
    ensures r.Failure? ==> r.error.message == Some(TooLargeMessage) || !SignalsTooLarge(r.error)
    ensures r.Failure? && call.Returned? ==> r.error.message.Some?
  {
    match call
    case Threw(e) => Failure(Translate(e))
    case Returned(response) =>
      match ScanResponse(response)
      case Success(u) => Success(u)
      case Failure(e) => Failure(Translate(e))
  }

  /** `editImageWithGemini(imageBase64, prompt)` against the service `service`. */
  function EditImageWithGemini(imageDataUrl: string, prompt: string, service: Request -> CallResult): (r: Outcome)
    ensures r.Success? ==> service(BuildRequest(imageDataUrl, prompt)).Returned?
    ensures service(BuildRequest(imageDataUrl, prompt)).Threw? ==> r.Failure?
    ensures r.Failure? ==> r.error.message == Some(TooLargeMessage) || !SignalsTooLarge(r.error)
    ensures r == Interpret(service(BuildRequest(imageDataUrl, prompt)))
  {
    Interpret(service(BuildRequest(imageDataUrl, prompt)))
  }

  // ---------------------------------------------------------------------
  // Properties

  /** A response whose first candidate carries `parts`, followed by any other candidates. */
  function ResponseWith(parts: seq<Part>, others: seq<Candidate>): Response
  {
    Response(Some([Candidate(Some(Content(Some(parts))))] + others))
  }

  /** The first-match search on `pre + [x] + post` finds `x` when nothing in `pre` matches. */
  lemma {:induction false} FirstWhereAfter(pre: seq<Part>, x: Part, post: seq<Part>, p: Part -> bool)
    requires p(x)
    requires forall k :: 0 <= k < |pre| ==> !p(pre[k])
    ensures FirstWhere(pre + [x] + post, p) == Some(|pre|)
  {
    var r := FirstWhere(pre + [x] + post, p);
    assert (pre + [x] + post)[|pre|] == x;
    assert forall k :: 0 <= k < |pre| ==> (pre + [x] + post)[k] == pre[k];
  }

  /**
   * The first part with image data decides the result, whatever comes
   * before it (text parts included) or after it, and whatever the other
   * candidates hold.
   */
  lemma FirstImageWins(pre: seq<Part>, img: Part, post: seq<Part>, others: seq<Candidate>)
    requires img.inlineData.Some? && img.inlineData.value.data.Some? && img.inlineData.value.data.value != ""
    requires forall k :: 0 <= k < |pre| ==> !HasImageData(pre[k])
    ensures Interpret(Returned(ResponseWith(pre + [img] + post, others)))
         == Success(DataUrl(EffectiveMimeType(img.inlineData.value), img.inlineData.value.data.value))
  {
    FirstWhereAfter(pre, img, post, HasImageData);
  }

  /** The data URL of a successful result carries `image/png` when the image part names no type. */
  lemma MissingImageTypeIsPng(d: InlineData)
    requires d.data.Some? && d.data.value != "" && ',' !in d.data.value
    requires d.mimeType.None? || d.mimeType.value == ""
    ensures GetMimeType(ImageDataUrl(d)) == "image/png"
    ensures ExtractBase64Data(ImageDataUrl(d)) == d.data.value
  {
    DataUrlRoundTrip(DefaultImageMimeType, d.data.value);
  }

  /**
   * Reading a successful result back with the fileUtils extractors gives
   * the image part's media type (or `image/png`) and its payload.
   */
  lemma ImageDataUrlRoundTrip(d: InlineData)
    requires d.data.Some? && d.data.value != "" && ',' !in d.data.value
    requires d.mimeType.Some? ==> ';' !in d.mimeType.value && ',' !in d.mimeType.value
    ensures GetMimeType(ImageDataUrl(d)) == EffectiveMimeType(d)
    ensures ExtractBase64Data(ImageDataUrl(d)) == d.data.value
  {
    DataUrlRoundTrip(EffectiveMimeType(d), d.data.value);
  }

  /** Neither "413" nor "xhr error" occurs in a message lacking both '4' and 'x'. */
  lemma NotTooLarge(m: string)
    requires '4' !in m && 'x' !in m
    ensures !SignalsTooLarge(JsError(Some(m)))
  {
  }

  // None of the fixed messages mentions "413" or "xhr error", so none of them is translated.

  lemma NoImageMessageKept()
    ensures !SignalsTooLarge(JsError(Some(NoImageMessage)))
  {
    NotTooLarge(NoImageMessage);
  }

  lemma TooLargeMessageKept()
    ensures !SignalsTooLarge(JsError(Some(TooLargeMessage)))
  {
    NotTooLarge(TooLargeMessage);
  }

  lemma MissingContentMessageKept()
    ensures !SignalsTooLarge(JsError(Some(MissingContentMessage)))
  {
    NotTooLarge(MissingContentMessage);
  }

  lemma MissingPartsMessageKept()
    ensures !SignalsTooLarge(JsError(Some(MissingPartsMessage)))
  {
    NotTooLarge(MissingPartsMessage);
  }


  /** The translation is idempotent: the too-large message is not translated again. */
  lemma TranslateIdempotent(e: JsError)
    ensures Translate(Translate(e)) == Translate(e)
  {
    TooLargeMessageKept();
  }

  /**
   * With no image part, the first non-empty text is the failure, passed
   * through the translation.
   */
  lemma FirstTextFails(pre: seq<Part>, t: Part, post: seq<Part>, others: seq<Candidate>)
    requires t.text.Some? && t.text.value != ""
    requires forall k :: 0 <= k < |pre| ==> !HasText(pre[k])
    requires forall k :: 0 <= k < |pre + [t] + post| ==> !HasImageData((pre + [t] + post)[k])
    ensures Interpret(Returned(ResponseWith(pre + [t] + post, others)))
         == Failure(Translate(JsError(t.text)))
  {
    FirstWhereAfter(pre, t, post, HasText);
  }

  /** A refusal text that mentions neither "413" nor "xhr error" reaches the caller verbatim. */
  lemma RefusalVerbatim(t: Part, others: seq<Candidate>)
    requires t.text.Some? && t.text.value != "" && !HasImageData(t)
    requires !Includes(t.text.value, "413") && !Includes(t.text.value, "xhr error")
    ensures Interpret(Returned(ResponseWith([t], others))) == Failure(JsError(t.text))
  {
    FirstTextFails([], t, [], others);
  }

  /** A refusal text that mentions "413" becomes the too-large message. */
  lemma RefusalMentioning413(before: string, after: string, others: seq<Candidate>)
    ensures var t := Part(None, Some(before + "413" + after));
      Interpret(Returned(ResponseWith([t], others))) == Failure(JsError(Some(TooLargeMessage)))
  {
    IncludesInfix(before, "413", after);
    var t := Part(None, Some(before + "413" + after));
    FirstTextFails([], t, [], others);
  }

  /** A thrown error whose message mentions "xhr error" becomes the too-large message. */
  lemma ThrownXhrError(before: string, after: string)
    ensures Interpret(Threw(JsError(Some(before + "xhr error" + after))))
         == Failure(JsError(Some(TooLargeMessage)))
  {
    IncludesInfix(before, "xhr error", after);
  }

  /**
   * When the service answers the request with an image part ahead of any
   * other image part, the editor gets that part's data URL back.
   */
  lemma ServiceImageSucceeds(imageDataUrl: string, prompt: string, service: Request -> CallResult,
                             pre: seq<Part>, img: Part, post: seq<Part>, others: seq<Candidate>)
    requires service(BuildRequest(imageDataUrl, prompt)) == Returned(ResponseWith(pre + [img] + post, others))
    requires img.inlineData.Some? && img.inlineData.value.data.Some? && img.inlineData.value.data.value != ""
    requires forall k :: 0 <= k < |pre| ==> !HasImageData(pre[k])
    ensures EditImageWithGemini(imageDataUrl, prompt, service)
         == Success(DataUrl(EffectiveMimeType(img.inlineData.value), img.inlineData.value.data.value))
  {
    FirstImageWins(pre, img, post, others);
  }

  /** No candidates, or an empty candidate list: the "no image" error, which the translation keeps. */
  lemma NoCandidatesFails(response: Response)
    requires response.candidates.None? || response.candidates.value == []
    ensures Interpret(Returned(response)) == Failure(JsError(Some(NoImageMessage)))
  {
    NoImageMessageKept();
  }

  /** A first candidate whose parts hold neither image data nor text: the "no image" error as well. */
  lemma NoUsablePartFails(parts: seq<Part>, others: seq<Candidate>)
    requires forall k :: 0 <= k < |parts| ==> !HasImageData(parts[k]) && !HasText(parts[k])
    ensures Interpret(Returned(ResponseWith(parts, others))) == Failure(JsError(Some(NoImageMessage)))
  {
    assert FirstWhere(parts, HasImageData).None?;
    assert FirstWhere(parts, HasText).None?;
    NoImageMessageKept();
  }

  /** Only `candidates[0]` is inspected. */
  lemma OnlyFirstCandidate(c: Candidate, others: seq<Candidate>)
    ensures Interpret(Returned(Response(Some([c] + others)))) == Interpret(Returned(Response(Some([c]))))
  {
  }

  /** A missing `content` or `parts` on the first candidate surfaces as the engine's TypeError, untranslated. */
  lemma MissingContentFails(others: seq<Candidate>)
    ensures Interpret(Returned(Response(Some([Candidate(None)] + others))))
         == Failure(JsError(Some(MissingContentMessage)))
    ensures Interpret(Returned(Response(Some([Candidate(Some(Content(None)))] + others))))
         == Failure(JsError(Some(MissingPartsMessage)))
  {
    MissingContentMessageKept();
    MissingPartsMessageKept();
  }

  /** A thrown call is translated: "413"/"xhr error" become the fixed message, anything else is rethrown unchanged. */
  lemma TransportFailure(e: JsError)
    ensures SignalsTooLarge(e) ==> Interpret(Threw(e)) == Failure(JsError(Some(TooLargeMessage)))
    ensures !SignalsTooLarge(e) ==> Interpret(Threw(e)) == Failure(e)
  {
  }

  /** A response whose first candidate has parts is that candidate's parts followed by the other candidates. */
  lemma FirstCandidateParts(response: Response)
    requires response.candidates.Some? && |response.candidates.value| > 0
    requires response.candidates.value[0].content.Some?
    requires response.candidates.value[0].content.value.parts.Some?
    ensures var cands := response.candidates.value;
      response == ResponseWith(cands[0].content.value.parts.value, cands[1..])
  {
    var cands := response.candidates.value;
    assert cands == [cands[0]] + cands[1..];
  }

  /**
   * Every outcome is one of: a data URL built from an image part of the
   * first candidate, the too-large message, or an error passed through
   * unchanged that does not signal an oversized request.
   */
  lemma OutcomeShape(call: CallResult)
    ensures Interpret(call).Success? ==>
      call.Returned? &&
      (exists parts: seq<Part>, others: seq<Candidate>, i: int ::
        call.response == ResponseWith(parts, others) &&
        0 <= i < |parts| && HasImageData(parts[i]) &&
        Interpret(call).dataUrl == ImageDataUrl(parts[i].inlineData.value))
    ensures Interpret(call).Failure? ==>
      Interpret(call).error.message == Some(TooLargeMessage) || !SignalsTooLarge(Interpret(call).error)
  {
    var r := Interpret(call);
    if r.Success? {
      var response := call.response;
      FirstCandidateParts(response);
      assert r == ScanParts(response.candidates.value[0].content.value.parts.value);
    }
  }

  /**
   * The request sent for a well-formed base64 data URL carries its media
   * type and payload as inline data, then the prompt verbatim.
   */
  lemma RequestCarriesImageAndPrompt(mimeType: string, payload: string, prompt: string)
    requires mimeType != "" && ';' !in mimeType && ',' !in mimeType
    requires payload != "" && ',' !in payload
    ensures BuildRequest(DataUrl(mimeType, payload), prompt).parts ==
      [Part(Some(InlineData(Some(mimeType), Some(payload))), None), Part(None, Some(prompt))]
  {
    DataUrlRoundTrip(mimeType, payload);
  }
}

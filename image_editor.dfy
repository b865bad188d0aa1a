/**
 * components/ImageEditor.tsx: the editor's session state and the steps of
 * `handleGenerate`, the guard of `handleDownload` and its choice of media
 * type and file name. Rendering and canvas work are not modelled.
 */
module Editor {
  import opened Wrappers
  import opened JsString
  import opened GeminiService

  /** `EditorStatus` of types.ts. */
  datatype EditorStatus = IDLE | LOADING | SUCCESS | ERROR

  /** The two download formats offered. */
  datatype DownloadFormat = Png | Jpg

  /** Appended to the prompt when text preservation is on. */
  const PreserveTextClause: string :=
    ". IMPORTANT: Keep all existing text, labels, logos, and Chinese characters EXACTLY as they are " +
    "in the original image. Do not blur, distort, morph, or change the language of the text. " +
    "The text must remain legible and sharp."
  /** Shown when a failure carries no message. */
  const FallbackErrorMessage: string := "生成图片时出现问题。"
  const FileNamePrefix: string := "taiwaka-edit-"

  /**
   * The prompt sent to the service: the user's prompt, untrimmed, followed
   * by the preservation clause exactly when `preserveText` is on.
   */
  function FinalPrompt(prompt: string, preserveText: bool): (r: string)
    ensures |r| >= |prompt| && r[..|prompt|] == prompt
    ensures r[|prompt|..] == if preserveText then PreserveTextClause else ""
    ensures r == prompt <==> !preserveText
  {
    if preserveText then prompt + PreserveTextClause else prompt
  }

  /** Distinct prompts are sent as distinct texts under the same setting. */
  lemma FinalPromptInjective(p: string, q: string, preserveText: bool)
    requires FinalPrompt(p, preserveText) == FinalPrompt(q, preserveText)
    ensures p == q
  {
    var r := FinalPrompt(p, preserveText);
    assert |p| == |q| by {
      assert |r| == |p| + (if preserveText then |PreserveTextClause| else 0);
    }
    assert p == r[..|p|] == q;
  }

  /** `err.message || "生成图片时出现问题。"`: the error text shown, never empty. */
  function ErrorText(e: JsError): (r: string)
    ensures r != ""
    ensures e.message.Some? && e.message.value != "" ==> r == e.message.value
    ensures e.message.None? || e.message.value == "" ==> r == FallbackErrorMessage
  {
    if e.message.Some? && e.message.value != "" then e.message.value else FallbackErrorMessage
  }

  /** `downloadFormat === 'png' ? 'image/png' : 'image/jpeg'`. */
  function DownloadMimeType(format: DownloadFormat): (m: string)
    ensures m == "image/png" <==> format == Png
    ensures m == "image/jpeg" <==> format == Jpg
  {
    match format
    case Png => "image/png"
    case Jpg => assert |"image/png"| != |"image/jpeg"|; "image/jpeg"
  }

  /** The file extension: the format's own name. */
  function Extension(format: DownloadFormat): (e: string)
    ensures |e| == 3
    ensures e == "png" <==> format == Png
    ensures e == "jpg" <==> format == Jpg
  {
    match format
    case Png => "png"
    case Jpg => assert "jpg"[0] != "png"[0]; "jpg"
  }

  /** `taiwaka-edit-${Date.now()}.${downloadFormat}` for a millisecond time stamp `now`. */
  function DownloadFileName(format: DownloadFormat, now: nat): (name: string)
    ensures |name| >= |FileNamePrefix| + 5
    ensures name[..|FileNamePrefix|] == FileNamePrefix
    ensures name[|name| - 4..] == "." + Extension(format)
    ensures name[|FileNamePrefix|..|name| - 4] == NatToDecimal(now)
  {
    FileNamePrefix + NatToDecimal(now) + "." + Extension(format)
  }

  /** Names of the download shape split uniquely into the stamp and the extension. */
  lemma FileNameParts(d: string, x: string, e: string, y: string)
    requires |x| == |y|
    requires FileNamePrefix + d + "." + x == FileNamePrefix + e + "." + y
    ensures d == e && x == y
  {
    var n, k := FileNamePrefix + d + "." + x, |FileNamePrefix|;
    assert |d| == |e|;
    assert d == n[k..k + |d|] == e;
    assert x == n[k + |d| + 1..] == y;
  }

  /** The file name determines both the format and the time stamp. */
  lemma DownloadFileNameInjective(f: DownloadFormat, t: nat, g: DownloadFormat, u: nat)
    requires DownloadFileName(f, t) == DownloadFileName(g, u)
    ensures f == g && t == u
  {
    FileNameParts(NatToDecimal(t), Extension(f), NatToDecimal(u), Extension(g));
    DecimalInjective(t, u);
    assert "png"[0] != "jpg"[0];
  }

  /** What a download produces: the image to draw, the type to encode it in, the file name, and whether a white background is painted first. */
  datatype DownloadPlan = DownloadPlan(source: string, mimeType: string, fileName: string, fillWhite: bool)

  /** The editor component's state, initialised as its `useState` hooks are. */
  class ImageEditor {
    const initialImage: string
    var prompt: string
    var status: EditorStatus
    var generatedImage: Option<string>
    var error: Option<string>
    var downloadFormat: DownloadFormat
    var preserveText: bool

    /**
     * The combinations of status, result and error that the component shows
     * after any sequence of whole generations: a result only on SUCCESS, a
     * non-empty error only on ERROR.
     */
    ghost predicate Consistent()
      reads this
    {
      match status
      case IDLE => generatedImage.None? && error.None?
      case LOADING => generatedImage.None? && error.None?
      case SUCCESS => generatedImage.Some? && error.None?
      case ERROR => generatedImage.None? && error.Some? && error.value != ""
    }

    /** The state after a request settles with outcome `o`. */
    ghost predicate SettledWith(o: Outcome)
      reads this
    {
      match o
      case Success(u) => status == SUCCESS && generatedImage == Some(u) && error.None?
      case Failure(e) => status == ERROR && error == Some(ErrorText(e)) && generatedImage.None?
    }

    constructor (initialImage: string)
      ensures this.initialImage == initialImage
      ensures prompt == "" && status == IDLE && generatedImage.None? && error.None?
      ensures downloadFormat == Png && preserveText
      ensures Consistent()
    {
      this.initialImage := initialImage;
      prompt := "";
      status := IDLE;
      generatedImage := None;
      error := None;
      downloadFormat := Png;
      preserveText := true;
    }

    /** The text input's `onChange`. */
    method SetPrompt(p: string)
      modifies this
      ensures prompt == p
      ensures status == old(status) && generatedImage == old(generatedImage) && error == old(error)
      ensures downloadFormat == old(downloadFormat) && preserveText == old(preserveText)
    {
      prompt := p;
    }

    /** The "keep text" toggle. */
    method TogglePreserveText()
      modifies this
      ensures preserveText == !old(preserveText)
      ensures prompt == old(prompt) && status == old(status)
      ensures generatedImage == old(generatedImage) && error == old(error)
      ensures downloadFormat == old(downloadFormat)
    {
      preserveText := !preserveText;
    }

    /** The format selector. */
    method SetDownloadFormat(format: DownloadFormat)
      modifies this
      ensures downloadFormat == format
      ensures prompt == old(prompt) && status == old(status)
      ensures generatedImage == old(generatedImage) && error == old(error)
      ensures preserveText == old(preserveText)
    {
      downloadFormat := format;
    }

    /**
     * `handleGenerate` up to the `await`: a blank prompt changes nothing and
     * sends nothing; otherwise the status becomes LOADING, the error and the
     * result are cleared, and the prompt to send is returned. The current
     * status is not consulted, so a submission while LOADING goes through.
     */
    method BeginGenerate() returns (sent: Option<string>)
      modifies this
      ensures IsBlank(old(prompt)) ==> sent.None? && unchanged(this)
      ensures !IsBlank(old(prompt)) ==>
        sent == Some(FinalPrompt(prompt, preserveText)) &&
        status == LOADING && error.None? && generatedImage.None?
      ensures prompt == old(prompt) && preserveText == old(preserveText)
      ensures downloadFormat == old(downloadFormat)
      ensures old(Consistent()) ==> Consistent()
    {
      var blank := TrimsToEmpty(prompt);
      if blank {
        return None;
      }
      status := LOADING;
      error := None;
      generatedImage := None;
      sent := Some(FinalPrompt(prompt, preserveText));
    }

    /**
     * `handleGenerate` after the `await`: a result is stored with status
     * SUCCESS; a failure stores its message (or the fallback) with status
     * ERROR. The other field keeps what it held.
     */
    method CompleteGenerate(outcome: Outcome)
      modifies this
      ensures outcome.Success? ==>
        generatedImage == Some(outcome.dataUrl) && status == SUCCESS && error == old(error)
      ensures outcome.Failure? ==>
        error == Some(ErrorText(outcome.error)) && status == ERROR && generatedImage == old(generatedImage)
      ensures prompt == old(prompt) && preserveText == old(preserveText)
      ensures downloadFormat == old(downloadFormat)
      ensures old(status) == LOADING && old(Consistent()) ==> Consistent() && SettledWith(outcome)
    {
      match outcome
      case Success(u) =>
        generatedImage := Some(u);
        status := SUCCESS;
      case Failure(e) =>
        error := Some(ErrorText(e));
        status := ERROR;
    }

    /**
     * The whole of `handleGenerate` against the service `service`: nothing
     * for a blank prompt; otherwise the state settles with the outcome of
     * `editImageWithGemini` on the initial image and the final prompt.
     */
    method Generate(service: Request -> CallResult) returns (sent: Option<string>)
      modifies this
      ensures IsBlank(old(prompt)) ==> sent.None? && unchanged(this)
      ensures !IsBlank(old(prompt)) ==>
        sent == Some(FinalPrompt(prompt, preserveText)) &&
        SettledWith(EditImageWithGemini(initialImage, sent.value, service))
      ensures prompt == old(prompt) && preserveText == old(preserveText)
      ensures downloadFormat == old(downloadFormat)
      ensures old(Consistent()) ==> Consistent()
    {
      sent := BeginGenerate();
      if sent.Some? {
        var outcome := EditImageWithGemini(initialImage, sent.value, service);
        CompleteGenerate(outcome);
      }
    }

    /**
     * `handleDownload`: nothing without a (non-empty) result; otherwise the
     * result is encoded as PNG or JPEG, the JPEG on a white background,
     * under the time-stamped file name.
     */
    method Download(now: nat) returns (plan: Option<DownloadPlan>)
      ensures plan.None? <==> generatedImage.None? || generatedImage.value == ""
      ensures plan.Some? ==>
        plan.value.source == generatedImage.value &&
        plan.value.mimeType == DownloadMimeType(downloadFormat) &&
        plan.value.fileName == DownloadFileName(downloadFormat, now) &&
        plan.value.fillWhite == (downloadFormat == Jpg)
    {
      if generatedImage.None? || generatedImage.value == "" {
        return None;
      }
      var mimeType := DownloadMimeType(downloadFormat);
      var fileName := DownloadFileName(downloadFormat, now);
      plan := Some(DownloadPlan(generatedImage.value, mimeType, fileName, downloadFormat == Jpg));
    }
  }
}

/** `editImageWithPrompt`: build the single edit request (every image,
    then the prompt, asking for an image-only reply), classify the model's
    reply into the data of the first inline image or one of four failure
    messages, and give every failure one "Gemini API Error:" prefix.

    The network exchange is a parameter, `generateContent`, mapping the
    request to what the client library hands back: a response or a thrown
    value. */
module GeminiService {
  import opened Wrappers
  import opened Js

  const ModelName := "gemini-2.5-flash-image"

  /** The marker `startsWith` looks for, and the prefix that is added. */
  const ErrorMarker := "Gemini API Error:"
  const ErrorPrefix := "Gemini API Error: "

  // Long messages are written as concatenations of short literals: the
  // verifier reasons about the characters of short literals only.
  const NoCandidatesMessage := "No candidates returned from the model."
  const NoImageMessage := "No image was generated. " + "The model may have refused the request."
  const UnknownErrorMessage := "An unknown error occurred " + "while communicating with the Gemini API."

  function StoppedMessage(reason: string): string
  {
    "Image generation stopped due to: " + reason + ". The prompt may have been blocked."
  }

  function TextInsteadMessage(text: string): string
  {
    "Model returned a text response " + "instead of an image: \"" + text + "\""
  }

  // ---------------------------------------------------------------------
  // The request

  /** One image as the caller passes it. `base64Data` may be `undefined`
      (see `FileUtils.EncodedImage`). */
  datatype ImageInput = ImageInput(base64Data: Option<string>, mimeType: string)

  datatype RequestPart =
    | InlineDataPart(data: Option<string>, mimeType: string)
    | TextPart(text: string)

  datatype Modality = TEXT | IMAGE | AUDIO

  datatype Request = Request(model: string, parts: seq<RequestPart>, responseModalities: seq<Modality>)

  /** `images.map(image => ({ inlineData: ... }))`: one inline-data part per
      image, same order, same data and media type. */
  function ImageParts(images: seq<ImageInput>): (parts: seq<RequestPart>)
    ensures |parts| == |images|
    ensures forall i :: 0 <= i < |images| ==>
      parts[i] == InlineDataPart(images[i].base64Data, images[i].mimeType)
  {
    if images == [] then []
    else [InlineDataPart(images[0].base64Data, images[0].mimeType)] + ImageParts(images[1..])
  }

  /** The request sent to the model: the image parts in input order, then
      exactly one text part holding the prompt, with image-only output
      requested. */
  function BuildRequest(images: seq<ImageInput>, prompt: string): (req: Request)
    ensures req.model == ModelName
    ensures |req.parts| == |images| + 1
    ensures forall i :: 0 <= i < |images| ==>
      req.parts[i] == InlineDataPart(images[i].base64Data, images[i].mimeType)
    ensures req.parts[|images|] == TextPart(prompt)
    ensures req.responseModalities == [IMAGE]
  {
    Request(ModelName, ImageParts(images) + [TextPart(prompt)], [IMAGE])
  }

  /** Reads the images back out of a run of inline-data parts; `None` if a
      text part is among them. */
  function ImagesOfParts(parts: seq<RequestPart>): Option<seq<ImageInput>>
  {
    if parts == [] then Some([])
    else
      match parts[0]
      case TextPart(_) => None
      case InlineDataPart(d, m) =>
        match ImagesOfParts(parts[1..])
        case None => None
        case Some(rest) => Some([ImageInput(d, m)] + rest)
  }

  /** Reads images and prompt back out of a request of the shape
      `BuildRequest` produces. */
  function DecodeRequest(req: Request): Option<(seq<ImageInput>, string)>
  {
    if |req.parts| == 0 then None
    else
      match req.parts[|req.parts| - 1]
      case InlineDataPart(_, _) => None
      case TextPart(prompt) =>
        match ImagesOfParts(req.parts[..|req.parts| - 1])
        case None => None
        case Some(images) => Some((images, prompt))
  }

  lemma {:induction false} ImagesOfImageParts(images: seq<ImageInput>)
    ensures ImagesOfParts(ImageParts(images)) == Some(images)
  {
    if images != [] {
      var parts := ImageParts(images);
      assert parts[1..] == ImageParts(images[1..]);
      ImagesOfImageParts(images[1..]);
      assert [images[0]] + images[1..] == images;
    }
  }

  /** No information is lost in the request: images (in order) and prompt
      can be read back from it. */
  lemma RequestRoundTrip(images: seq<ImageInput>, prompt: string)
    ensures DecodeRequest(BuildRequest(images, prompt)) == Some((images, prompt))
  {
    var req := BuildRequest(images, prompt);
    assert req.parts[..|req.parts| - 1] == ImageParts(images);
    ImagesOfImageParts(images);
  }

  // ---------------------------------------------------------------------
  // The response, as the client library hands it back

  datatype InlineBlob = InlineBlob(data: string, mimeType: string)
  datatype Part = Part(inlineData: Option<InlineBlob>)
  datatype Content = Content(parts: Option<seq<Part>>)
  datatype Candidate = Candidate(finishReason: Option<string>, content: Option<Content>)
  /** `text` is the library's `response.text` accessor, taken as given. */
  datatype Response = Response(candidates: Option<seq<Candidate>>, text: Option<string>)

  /** What the network call yields: a response, or a thrown value. */
  datatype Exchange = Responded(response: Response) | Threw(thrown: Thrown)

  /** `response.candidates?.[0]`. */
  function FirstCandidate(resp: Response): (c: Option<Candidate>)
    ensures c.None? <==> resp.candidates.None? || |resp.candidates.value| == 0
    ensures c.Some? ==> c.value == resp.candidates.value[0]
  {
    match resp.candidates
    case None => None
    case Some(cs) => if |cs| == 0 then None else Some(cs[0])
  }

  /** `candidate.content?.parts ?? []`: the parts when both the content and
      its part list are present, and no parts otherwise. */
  function CandidateParts(c: Candidate): (ps: seq<Part>)
    ensures c.content.Some? && c.content.value.parts.Some? ==> ps == c.content.value.parts.value
    ensures c.content.None? || c.content.value.parts.None? ==> ps == []
  {
    match c.content
    case None => []
    case Some(content) =>
      match content.parts
      case None => []
      case Some(ps) => ps
  }

  /** `candidate.finishReason && candidate.finishReason !== 'STOP'`: a
      present, non-empty reason other than `STOP`. */
  function Halted(c: Candidate): (halted: bool)
    ensures c.finishReason.None? || c.finishReason == Some("") || c.finishReason == Some("STOP") ==> !halted
    ensures halted <==> c.finishReason.Some? && |c.finishReason.value| > 0 && c.finishReason.value != "STOP"
  {
    Truthy(c.finishReason) && c.finishReason.value != "STOP"
  }

  ghost predicate HasImage(parts: seq<Part>)
  {
    exists k :: 0 <= k < |parts| && parts[k].inlineData.Some?
  }

  /** `d` is the data of the first part that carries inline data. */
  ghost predicate IsFirstImageData(parts: seq<Part>, d: string)
  {
    exists k :: 0 <= k < |parts| && parts[k].inlineData.Some? && parts[k].inlineData.value.data == d
      && forall j :: 0 <= j < k ==> parts[j].inlineData.None?
  }

  /** The scan `for (const part of parts) if (part.inlineData) return ...`:
      the position of the first part with inline data. */
  function FirstImageIndex(parts: seq<Part>): (r: Option<nat>)
    ensures r.None? <==> !HasImage(parts)
    ensures r.Some? ==> r.value < |parts| && parts[r.value].inlineData.Some?
    ensures r.Some? ==> forall j :: 0 <= j < r.value ==> parts[j].inlineData.None?
  {
    if |parts| == 0 then None
    else if parts[0].inlineData.Some? then Some(0)
    else
      match FirstImageIndex(parts[1..])
      case None =>
        assert forall k :: 1 <= k < |parts| ==> parts[k] == parts[1..][k - 1];
        None
      case Some(i) =>
        assert parts[i + 1] == parts[1..][i];
        Some(i + 1)
  }

  /** `response.text?.trim()`: absent with the text, otherwise the trimmed
      text, which is truthy exactly when the text has a character that is
      not whitespace, and which trimming again leaves unchanged. */
  function TrimmedText(resp: Response): (t: Option<string>)
    ensures t.None? <==> resp.text.None?
    ensures t.Some? ==> t.value == Trim(resp.text.value) && Trim(t.value) == t.value
    ensures Truthy(t) <==>
      resp.text.Some? && exists i :: 0 <= i < |resp.text.value| && !IsWhitespace(resp.text.value[i])
  {
    match resp.text
    case None => None
    case Some(text) =>
      TrimIdempotent(text);
      Some(Trim(text))
  }

  /** The body of the `try` after the network call: the response becomes
      the first image's data, or the message of the `Error` thrown. Checks
      run in this order: a missing first candidate, a halting finish reason,
      the first inline image, a non-empty trimmed text, nothing. */
  function Classify(resp: Response): (r: Result<string, string>)
    ensures FirstCandidate(resp).None? ==> r == Failure(NoCandidatesMessage)
    ensures FirstCandidate(resp).Some? && Halted(FirstCandidate(resp).value) ==>
      r.Failure? && Embeds(r.error, FirstCandidate(resp).value.finishReason.value)
    ensures r.Success? <==>
      FirstCandidate(resp).Some? && !Halted(FirstCandidate(resp).value)
      && HasImage(CandidateParts(FirstCandidate(resp).value))
    ensures r.Success? ==> IsFirstImageData(CandidateParts(FirstCandidate(resp).value), r.value)
    ensures r.Failure? ==> !StartsWith(r.error, ErrorMarker)
    ensures r.Failure? && FirstCandidate(resp).Some? && !Halted(FirstCandidate(resp).value) ==>
      if Truthy(TrimmedText(resp))
      then r.error == TextInsteadMessage(TrimmedText(resp).value)
           && Embeds(r.error, TrimmedText(resp).value)
      else r.error == NoImageMessage
  {
    UnmarkedByFirstChar(NoCandidatesMessage);
    UnmarkedByFirstChar(NoImageMessage);
    match FirstCandidate(resp)
    case None => Failure(NoCandidatesMessage)
    case Some(candidate) =>
      if Halted(candidate) then
        var reason := candidate.finishReason.value;
        EmbedsMiddle("Image generation stopped due to: ", reason, ". The prompt may have been blocked.");
        UnmarkedByFirstChar(StoppedMessage(reason));
        Failure(StoppedMessage(reason))
      else
        var parts := CandidateParts(candidate);
        match FirstImageIndex(parts)
        case Some(k) => Success(parts[k].inlineData.value.data)
        case None =>
          var text := TrimmedText(resp);
          if Truthy(text) then
            EmbedsMiddle("Model returned a text response " + "instead of an image: \"", text.value, "\"");
            UnmarkedByFirstChar(TextInsteadMessage(text.value));
            Failure(TextInsteadMessage(text.value))
          else
            Failure(NoImageMessage)
  }

  /** The `catch` handler: the message of the `Error` the function rejects
      with. An `Error` whose message already carries the marker passes
      through; any other `Error` gets the prefix once; a non-`Error` value
      becomes the fixed unknown-error message. */
  function Normalize(thrown: Thrown): (message: string)
    ensures thrown.ErrorValue? ==> StartsWith(message, ErrorMarker)
    ensures thrown.ErrorValue? && StartsWith(thrown.message, ErrorMarker) ==> message == thrown.message
    ensures thrown.ErrorValue? && !StartsWith(thrown.message, ErrorMarker) ==>
      message == ErrorPrefix + thrown.message && StripPrefix(message) == thrown.message
    ensures thrown.OtherValue? ==> message == UnknownErrorMessage
  {
    match thrown
    case OtherValue => UnknownErrorMessage
    case ErrorValue(m) =>
      if StartsWith(m, ErrorMarker) then m
      else
        assert (ErrorPrefix + m)[..|ErrorMarker|] == ErrorMarker;
        assert (ErrorPrefix + m)[..|ErrorPrefix|] == ErrorPrefix;
        ErrorPrefix + m
  }

  /** The detail behind a prefixed message: the inverse of adding the prefix. */
  function StripPrefix(message: string): string
  {
    if StartsWith(message, ErrorPrefix) then message[|ErrorPrefix|..] else message
  }

  /** Normalising is idempotent: a message that went through the handler
      once goes through it again unchanged, so nested handlers never double
      the prefix. */
  lemma NormalizeIdempotent(m: string)
    ensures Normalize(ErrorValue(Normalize(ErrorValue(m)))) == Normalize(ErrorValue(m))
  {
  }

  /** A message whose first letter is not the marker's cannot carry it. */
  lemma UnmarkedByFirstChar(m: string)
    requires |m| > 0 && m[0] != 'G'
    ensures !StartsWith(m, ErrorMarker)
  {
  }

  /** `editImageWithPrompt(images, prompt)`: exactly one call, with the
      request `BuildRequest` builds. A response is classified; every failure,
      thrown by the call or by the classification, is normalised. */
  function EditImageWithPrompt(images: seq<ImageInput>, prompt: string,
                               generateContent: Request -> Exchange): (r: Result<string, string>)
    ensures r.Failure? ==> StartsWith(r.error, ErrorMarker) || r.error == UnknownErrorMessage
    ensures generateContent(BuildRequest(images, prompt)).Responded? ==>
      var c := Classify(generateContent(BuildRequest(images, prompt)).response);
      && (c.Success? ==> r == c)
      && (c.Failure? ==> r == Failure(ErrorPrefix + c.error))
    ensures generateContent(BuildRequest(images, prompt)).Threw? ==>
      r == Failure(Normalize(generateContent(BuildRequest(images, prompt)).thrown))
  {
    match generateContent(BuildRequest(images, prompt))
    case Threw(t) => Failure(Normalize(t))
    case Responded(resp) =>
      match Classify(resp)
      case Success(data) => Success(data)
      case Failure(m) => Failure(Normalize(ErrorValue(m)))
  }

  // ---------------------------------------------------------------------
  // Properties of the classification across responses

  /** Only the first inline image counts: whatever follows it, and whatever
      text the response carries, changes nothing. */
  lemma FirstImageWins(reason: Option<string>, before: seq<Part>, image: InlineBlob,
                       after: seq<Part>, text: Option<string>, others: seq<Candidate>)
    requires !Truthy(reason) || reason.value == "STOP"
    requires forall j :: 0 <= j < |before| ==> before[j].inlineData.None?
    ensures var parts := before + [Part(Some(image))] + after;
      Classify(Response(Some([Candidate(reason, Some(Content(Some(parts))))] + others), text))
      == Success(image.data)
  {
    var parts := before + [Part(Some(image))] + after;
    var resp := Response(Some([Candidate(reason, Some(Content(Some(parts))))] + others), text);
    assert FirstCandidate(resp) == Some(Candidate(reason, Some(Content(Some(parts)))));
    assert parts[|before|].inlineData == Some(image);
    assert forall j :: 0 <= j < |before| ==> parts[j] == before[j];
  }

  /** A halting finish reason decides the outcome even when the candidate
      carries images: the reason reaches the caller, inside one prefix. */
  lemma HaltedReasonDominates(images: seq<ImageInput>, prompt: string,
                              reason: string, content: Option<Content>, text: Option<string>)
    requires reason != "" && reason != "STOP"
    ensures var reply := Responded(Response(Some([Candidate(Some(reason), content)]), text));
      EditImageWithPrompt(images, prompt, _ => reply)
      == Failure(ErrorPrefix + StoppedMessage(reason))
  {
  }

  /** An empty candidate list reaches the caller as the fixed message,
      prefixed once. */
  lemma NoCandidatesReported(images: seq<ImageInput>, prompt: string, text: Option<string>)
    ensures EditImageWithPrompt(images, prompt, _ => Responded(Response(Some([]), text)))
            == Failure("Gemini API Error: " + "No candidates returned from the model.")
  {
    assert Classify(Response(Some([]), text)) == Failure(NoCandidatesMessage);
  }

  /** A transport error gets the prefix; one that already has it is passed
      through, not doubled. */
  lemma TransportErrorsPrefixedOnce(images: seq<ImageInput>, prompt: string)
    ensures EditImageWithPrompt(images, prompt, _ => Threw(ErrorValue("timeout")))
            == Failure("Gemini API Error: timeout")
    ensures EditImageWithPrompt(images, prompt, _ => Threw(ErrorValue("Gemini API Error: timeout")))
            == Failure("Gemini API Error: timeout")
  {
    assert !StartsWith("timeout", ErrorMarker);
    assert Normalize(ErrorValue("timeout")) == ErrorPrefix + "timeout";
    assert ErrorPrefix + "timeout" == "Gemini API Error: timeout";
    assert StartsWith("Gemini API Error: timeout", ErrorMarker) by {
      assert "Gemini API Error: timeout"[..|ErrorMarker|] == ErrorMarker;
    }
  }
}

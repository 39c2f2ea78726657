/** The application's state and the handlers that move it: upload
    (append), remove by index, generate (guard, loading, success, failure)
    and clear. Each handler is a function from the state before to the state
    after it has run to completion; the asynchronous generate handler is
    also split at its `await` into `StartGeneration` and `FinishGeneration`. */
module App {
  import opened Wrappers
  import opened Js
  import FileUtils
  import GeminiService

  // Long messages are written as concatenations of short literals: the
  // verifier reasons about the characters of short literals only.
  const LoadFailedMessage := "Failed to load one or more images. " + "Please ensure they are valid image files."
  const MissingInputMessage := "Please upload at least one image and enter a prompt."
  const GenerateFailedPrefix := "Failed to generate image: "
  const UnknownFailureMessage := "An unknown error occurred."
  const EditedImagePrefix := "data:image/png;base64,"

  /** One uploaded image as the application keeps it. */
  datatype ImageFile = ImageFile(name: string, dataUrl: string, base64Data: Option<string>, mimeType: string)

  datatype AppState = AppState(
    originalImages: seq<ImageFile>,
    editedImage: Option<string>,
    prompt: string,
    isLoading: bool,
    error: Option<string>)

  const Initial := AppState([], None, "", false, None)

  // ---------------------------------------------------------------------
  // Upload

  /** The record built for a file once it has been read: the data URL is
      rebuilt from the media type and the (possibly `undefined`) payload. */
  function ToImageFile(file: FileUtils.File, enc: FileUtils.EncodedImage): (img: ImageFile)
    ensures img.name == file.name && img.base64Data == enc.base64Data && img.mimeType == enc.mimeType
  {
    ImageFile(file.name, FileUtils.DataUrl(enc.mimeType, Render(enc.base64Data)), enc.base64Data, enc.mimeType)
  }

  /** When the payload is present and neither it nor the media type holds
      a comma, the payload can be read back out of the rebuilt data URL. */
  lemma ToImageFileRoundTrip(file: FileUtils.File, enc: FileUtils.EncodedImage)
    requires enc.base64Data.Some? && ',' !in enc.mimeType && ',' !in enc.base64Data.value
    ensures FileUtils.PayloadOf(ToImageFile(file, enc).dataUrl) == enc.base64Data
  {
    FileUtils.DataUrlRoundTrip(enc.mimeType, enc.base64Data.value);
  }

  predicate Loads(file: FileUtils.File)
  {
    FileUtils.FileToBase64(file).Success?
  }

  predicate AllLoad(files: seq<FileUtils.File>)
  {
    forall i :: 0 <= i < |files| ==> Loads(files[i])
  }

  /** The record stored for a file that loads. */
  function Record(file: FileUtils.File): ImageFile
    requires Loads(file)
  {
    ToImageFile(file, FileUtils.FileToBase64(file).value)
  }

  /** `Promise.all` over the per-file reads: every image in input order if
      every file loads, otherwise the error of a file that failed. */
  function LoadAll(files: seq<FileUtils.File>): (r: Result<seq<ImageFile>, FileUtils.LoadError>)
    ensures r.Success? <==> AllLoad(files)
    ensures r.Success? ==> |r.value| == |files|
    ensures r.Success? ==> forall i :: 0 <= i < |files| ==> r.value[i] == Record(files[i])
    ensures r.Failure? ==> exists i :: 0 <= i < |files| && FileUtils.FileToBase64(files[i]) == Failure(r.error)
  {
    if files == [] then Success([])
    else
      match FileUtils.FileToBase64(files[0])
      case Failure(e) => Failure(e)
      case Success(enc) =>
        match LoadAll(files[1..])
        case Failure(e) =>
          var i :| 0 <= i < |files[1..]| && FileUtils.FileToBase64(files[1..][i]) == Failure(e);
          assert files[i + 1] == files[1..][i];
          Failure(e)
        case Success(rest) =>
          RecordsCons(files, rest);
          Success([Record(files[0])] + rest)
  }

  /** The records of a non-empty file list are the first file's record
      followed by the records of the rest. */
  lemma RecordsCons(files: seq<FileUtils.File>, rest: seq<ImageFile>)
    requires |files| > 0 && Loads(files[0]) && AllLoad(files[1..])
    requires |rest| == |files| - 1
    requires forall i :: 0 <= i < |rest| ==> rest[i] == Record(files[1..][i])
    ensures AllLoad(files)
    ensures forall i :: 0 <= i < |files| ==> ([Record(files[0])] + rest)[i] == Record(files[i])
  {
    assert forall i :: 1 <= i < |files| ==> files[i] == files[1..][i - 1];
  }

  /** The synchronous part of `handleImageUpload`, before its `await`: the
      error and the edited image are cleared, nothing else changes. */
  function StartUpload(s: AppState): (r: AppState)
    ensures r.error.None? && r.editedImage.None?
    ensures r.(error := s.error, editedImage := s.editedImage) == s
  {
    s.(error := None, editedImage := None)
  }

  /** The part after the `await`, applied to whatever the state is then:
      the loaded images go after the images present at that moment (the
      functional update), or the fixed load-failure message is set. Nothing
      else changes. */
  function FinishUpload(s: AppState, loaded: Result<seq<ImageFile>, FileUtils.LoadError>): (r: AppState)
    ensures loaded.Success? ==>
      && |r.originalImages| == |s.originalImages| + |loaded.value|
      && r.originalImages[..|s.originalImages|] == s.originalImages
      && r.originalImages[|s.originalImages|..] == loaded.value
      && r.(originalImages := s.originalImages) == s
    ensures loaded.Failure? ==> r == s.(error := Some(LoadFailedMessage))
  {
    match loaded
    case Success(images) => s.(originalImages := s.originalImages + images)
    case Failure(_) => s.(error := Some(LoadFailedMessage))
  }

  /** `handleImageUpload(files)` run to completion with no other handler
      in between: clear the error and the edited image, then append every
      loaded image after the existing ones, or, if any file fails, keep the
      images and report the fixed load failure. The prompt and the loading
      flag are untouched. */
  function HandleImageUpload(s: AppState, files: seq<FileUtils.File>): (r: AppState)
    ensures r.editedImage.None?
    ensures r.prompt == s.prompt && r.isLoading == s.isLoading
    ensures AllLoad(files) ==>
      && r.error.None?
      && |r.originalImages| == |s.originalImages| + |files|
      && r.originalImages[..|s.originalImages|] == s.originalImages
      && forall i :: 0 <= i < |files| ==> r.originalImages[|s.originalImages| + i] == Record(files[i])
    ensures !AllLoad(files) ==>
      r.error == Some(LoadFailedMessage) && r.originalImages == s.originalImages
  {
    var started := StartUpload(s);
    match LoadAll(files)
    case Success(loaded) =>
      UploadAppends(s.originalImages, files, loaded);
      FinishUpload(started, Success(loaded))
    case Failure(e) =>
      FinishUpload(started, Failure(e))
  }

  lemma UploadAppends(prev: seq<ImageFile>, files: seq<FileUtils.File>, loaded: seq<ImageFile>)
    requires LoadAll(files) == Success(loaded)
    ensures AllLoad(files) && |prev + loaded| == |prev| + |files|
    ensures (prev + loaded)[..|prev|] == prev
    ensures forall i :: 0 <= i < |files| ==> (prev + loaded)[|prev| + i] == Record(files[i])
  {
    assert |loaded| == |files|;
  }

  // ---------------------------------------------------------------------
  // Remove

  /** `xs.filter((_, index) => index !== target)` over the elements of `xs`
      that sit at positions `offset`, `offset + 1`, ... of the whole list. */
  function FilterOutIndex<T>(xs: seq<T>, target: int, offset: int): (r: seq<T>)
    ensures 0 <= target - offset < |xs| ==> r == xs[..target - offset] + xs[target - offset + 1..]
    ensures !(0 <= target - offset < |xs|) ==> r == xs
  {
    if xs == [] then []
    else
      var rest := FilterOutIndex(xs[1..], target, offset + 1);
      if offset == target then
        rest
      else
        assert xs == [xs[0]] + xs[1..];
        assert 0 < target - offset < |xs| ==>
          xs[..target - offset] == [xs[0]] + xs[1..][..target - offset - 1];
        [xs[0]] + rest
  }

  /** Dropping position `index`: exactly that element goes, the others
      keep their relative order; an index outside the list changes nothing. */
  function RemoveAt<T>(xs: seq<T>, index: int): (r: seq<T>)
    ensures 0 <= index < |xs| ==>
      && |r| == |xs| - 1
      && (forall j :: 0 <= j < index ==> r[j] == xs[j])
      && (forall j :: index <= j < |r| ==> r[j] == xs[j + 1])
    ensures !(0 <= index < |xs|) ==> r == xs
  {
    FilterOutIndex(xs, index, 0)
  }

  /** `handleRemoveImage(index)`: only the image list changes. */
  function HandleRemoveImage(s: AppState, index: int): (r: AppState)
    ensures r.originalImages == RemoveAt(s.originalImages, index)
    ensures r.(originalImages := s.originalImages) == s
  {
    s.(originalImages := RemoveAt(s.originalImages, index))
  }

  // ---------------------------------------------------------------------
  // Prompt

  /** `setPrompt(text)`, wired to the prompt box: only the prompt changes. */
  function HandleSetPrompt(s: AppState, text: string): (r: AppState)
    ensures r.prompt == text && r.(prompt := s.prompt) == s
  {
    s.(prompt := text)
  }

  // ---------------------------------------------------------------------
  // Generate

  /** The guard of `handleGenerate`, `length === 0 || !prompt.trim()`
      negated: it passes exactly when there is an image and the prompt has a
      character that is not whitespace. */
  function ReadyToGenerate(s: AppState): (ready: bool)
    ensures ready <==>
      |s.originalImages| > 0 && exists i :: 0 <= i < |s.prompt| && !IsWhitespace(s.prompt[i])
  {
    |s.originalImages| > 0 && Trim(s.prompt) != ""
  }

  /** The images handed to the service: data and media type of each, in order. */
  function ServiceInputs(images: seq<ImageFile>): (inputs: seq<GeminiService.ImageInput>)
    ensures |inputs| == |images|
    ensures forall i :: 0 <= i < |images| ==>
      inputs[i] == GeminiService.ImageInput(images[i].base64Data, images[i].mimeType)
  {
    if images == [] then []
    else [GeminiService.ImageInput(images[0].base64Data, images[0].mimeType)] + ServiceInputs(images[1..])
  }

  /** The synchronous part of `handleGenerate` once the guard passes: the
      loading flag goes up, error and edited image are cleared. */
  function StartGeneration(s: AppState): (r: AppState)
    ensures r.isLoading && r.error.None? && r.editedImage.None?
    ensures r.originalImages == s.originalImages && r.prompt == s.prompt
  {
    s.(isLoading := true, error := None, editedImage := None)
  }

  /** The part after the `await`, applied to whatever the state is then:
      the result becomes a PNG data URL, or the failure's message becomes
      the error; the loading flag always comes down (`finally`). Images and
      prompt are untouched. */
  function FinishGeneration(s: AppState, outcome: Result<string, Thrown>): (r: AppState)
    ensures !r.isLoading
    ensures r.originalImages == s.originalImages && r.prompt == s.prompt
    ensures outcome.Success? ==>
      r.editedImage == Some(EditedImagePrefix + outcome.value) && r.error == s.error
    ensures outcome.Failure? && outcome.error.ErrorValue? ==>
      r.error == Some(GenerateFailedPrefix + outcome.error.message) && r.editedImage == s.editedImage
    ensures outcome.Failure? && outcome.error.OtherValue? ==>
      r.error == Some(GenerateFailedPrefix + UnknownFailureMessage) && r.editedImage == s.editedImage
  {
    match outcome
    case Success(data) => s.(editedImage := Some(EditedImagePrefix + data), isLoading := false)
    case Failure(thrown) =>
      var message := match thrown
        case ErrorValue(m) => m
        case OtherValue => UnknownFailureMessage;
      s.(error := Some(GenerateFailedPrefix + message), isLoading := false)
  }

  /** What the service call settles to, as seen by the handler. The
      service only ever rejects with an `Error`, whose message carries the
      service's marker or is its unknown-error text; so the handler's own
      unknown-error branch is never taken. */
  function CallService(s: AppState, generateContent: GeminiService.Request -> GeminiService.Exchange): (r: Result<string, Thrown>)
    ensures var out := GeminiService.EditImageWithPrompt(ServiceInputs(s.originalImages), s.prompt, generateContent);
      && (r.Success? <==> out.Success?)
      && (r.Success? ==> r.value == out.value)
      && (r.Failure? ==> r.error == ErrorValue(out.error))
    ensures r.Failure? ==>
      && r.error.ErrorValue?
      && (StartsWith(r.error.message, GeminiService.ErrorMarker) || r.error.message == GeminiService.UnknownErrorMessage)
  {
    match GeminiService.EditImageWithPrompt(ServiceInputs(s.originalImages), s.prompt, generateContent)
    case Success(data) => Success(data)
    case Failure(message) => Failure(ErrorValue(message))
  }

  /** `handleGenerate()` run to completion with no other handler in
      between. If the guard fails only the error changes; otherwise the
      service is called once with the images and prompt, and the handler
      ends with the loading flag down and either the edited image or the
      error set, never both. */
  function HandleGenerate(s: AppState, generateContent: GeminiService.Request -> GeminiService.Exchange): (r: AppState)
    ensures !ReadyToGenerate(s) ==> r == s.(error := Some(MissingInputMessage))
    ensures ReadyToGenerate(s) ==>
      && !r.isLoading
      && r.originalImages == s.originalImages && r.prompt == s.prompt
      && var out := GeminiService.EditImageWithPrompt(ServiceInputs(s.originalImages), s.prompt, generateContent);
         && (out.Success? ==> r.editedImage == Some(EditedImagePrefix + out.value) && r.error.None?)
         && (out.Failure? ==> r.error == Some(GenerateFailedPrefix + out.error) && r.editedImage.None?)
  {
    if !ReadyToGenerate(s) then
      s.(error := Some(MissingInputMessage))
    else
      FinishGeneration(StartGeneration(s), CallService(s, generateContent))
  }

  /** The request the handler sends carries the stored images' data and
      types, in list order, then the prompt as typed (untrimmed). */
  lemma GenerateRequestShape(s: AppState)
    ensures var req := GeminiService.BuildRequest(ServiceInputs(s.originalImages), s.prompt);
      && |req.parts| == |s.originalImages| + 1
      && (forall i :: 0 <= i < |s.originalImages| ==>
            req.parts[i] == GeminiService.InlineDataPart(s.originalImages[i].base64Data, s.originalImages[i].mimeType))
      && req.parts[|s.originalImages|] == GeminiService.TextPart(s.prompt)
  {
  }

  /** The interleaving the upload's `await` allows: a generate whose guard
      passed and that completes while the reads are pending, followed by a
      failed read, leaves both the edited image and the load error set, a
      state the upload handler run on its own never produces. */
  lemma GenerateDuringFailedUpload(s: AppState, files: seq<FileUtils.File>, data: string)
    requires ReadyToGenerate(s)
    requires !AllLoad(files)
    ensures var during := FinishGeneration(StartGeneration(StartUpload(s)), Success(data));
      var r := FinishUpload(during, LoadAll(files));
      && r.editedImage == Some(EditedImagePrefix + data)
      && r.error == Some(LoadFailedMessage)
      && r.originalImages == s.originalImages
  {
  }

  /** The loading flag does not keep a second generate out: clear lowers it
      while the first call may still be pending, and after an upload and a
      prompt the guard passes again with the flag down, so the generate
      button is enabled once more. */
  lemma ClearLetsSecondGenerateStart(s: AppState, name: string, payload: string)
    requires ',' !in payload
    ensures var file := FileUtils.File(name, "image/png", FileUtils.Loaded(FileUtils.DataUrl("image/png", payload)));
      var t := HandleSetPrompt(HandleImageUpload(HandleClear(StartGeneration(s)), [file]), "x");
      ReadyToGenerate(t) && !t.isLoading
  {
    var file := FileUtils.File(name, "image/png", FileUtils.Loaded(FileUtils.DataUrl("image/png", payload)));
    assert StartsWith("image/png", FileUtils.ImageTypePrefix) by {
      assert "image/png"[..6] == "image/";
    }
    assert AllLoad([file]);
    var t := HandleSetPrompt(HandleImageUpload(HandleClear(StartGeneration(s)), [file]), "x");
    assert |t.originalImages| == 1;
    assert !IsWhitespace(t.prompt[0]);
  }

  // ---------------------------------------------------------------------
  // Clear

  /** `handleClear()`: back to the initial state, whatever the state was. */
  function HandleClear(s: AppState): (r: AppState)
    ensures r.originalImages == [] && r.editedImage.None? && r.prompt == ""
    ensures !r.isLoading && r.error.None?
  {
    AppState([], None, "", false, None)
  }

  /** After a clear, generating is refused: the only change is the
      missing-input error. */
  lemma ClearThenGenerateRefused(s: AppState, generateContent: GeminiService.Request -> GeminiService.Exchange)
    ensures HandleGenerate(HandleClear(s), generateContent) == Initial.(error := Some(MissingInputMessage))
  {
    assert !ReadyToGenerate(HandleClear(s));
  }

  // ---------------------------------------------------------------------
  // Runs of handlers

  /** One handler, run to completion. A generate event carries what the
      network call yields. */
  datatype Event =
    | Upload(files: seq<FileUtils.File>)
    | Remove(index: int)
    | EditPrompt(text: string)
    | Generate(reply: GeminiService.Exchange)
    | Clear

  function Step(s: AppState, e: Event): AppState
  {
    match e
    case Upload(files) => HandleImageUpload(s, files)
    case Remove(index) => HandleRemoveImage(s, index)
    case EditPrompt(text) => HandleSetPrompt(s, text)
    case Generate(reply) => HandleGenerate(s, _ => reply)
    case Clear => HandleClear(s)
  }

  function Run(s: AppState, events: seq<Event>): AppState
    decreases |events|
  {
    if events == [] then s else Run(Step(s, events[0]), events[1..])
  }

  /** A stored image was admitted by the type gate and its data URL is the
      one rebuilt from its own type and payload. */
  ghost predicate WellFormedImage(img: ImageFile)
  {
    StartsWith(img.mimeType, FileUtils.ImageTypePrefix)
    && img.dataUrl == FileUtils.DataUrl(img.mimeType, Render(img.base64Data))
  }

  /** Between handlers: every image is well formed, nothing is loading, an
      edited image is a PNG data URL, and an error is one of the three
      messages the handlers write. */
  ghost predicate Consistent(s: AppState)
  {
    && (forall i :: 0 <= i < |s.originalImages| ==> WellFormedImage(s.originalImages[i]))
    && !s.isLoading
    && (s.editedImage.Some? ==> StartsWith(s.editedImage.value, EditedImagePrefix))
    && (s.error.Some? ==>
          || s.error.value == LoadFailedMessage
          || s.error.value == MissingInputMessage
          || StartsWith(s.error.value, GenerateFailedPrefix))
  }

  lemma LoadedImagesWellFormed(files: seq<FileUtils.File>)
    ensures LoadAll(files).Success? ==>
      forall i :: 0 <= i < |LoadAll(files).value| ==> WellFormedImage(LoadAll(files).value[i])
  {
  }

  lemma StepKeepsConsistent(s: AppState, e: Event)
    requires Consistent(s)
    ensures Consistent(Step(s, e))
  {
    match e
    case Upload(files) =>
      LoadedImagesWellFormed(files);
      var r := Step(s, e);
      if LoadAll(files).Success? {
        assert forall i :: 0 <= i < |r.originalImages| ==>
          r.originalImages[i] == (s.originalImages + LoadAll(files).value)[i];
      }
    case Remove(index) =>
    case EditPrompt(text) =>
    case Generate(reply) =>
      var r := Step(s, e);
      if ReadyToGenerate(s) {
        var out := GeminiService.EditImageWithPrompt(ServiceInputs(s.originalImages), s.prompt, _ => reply);
        if out.Success? {
          StartsWithConcat(EditedImagePrefix, out.value);
        } else {
          StartsWithConcat(GenerateFailedPrefix, out.error);
        }
      }
    case Clear =>
  }

  /** Every run of handlers from a consistent state (the initial one
      included) ends in a consistent state. */
  lemma {:induction false} RunKeepsConsistent(s: AppState, events: seq<Event>)
    requires Consistent(s)
    ensures Consistent(Run(s, events))
    decreases |events|
  {
    if events != [] {
      StepKeepsConsistent(s, events[0]);
      RunKeepsConsistent(Step(s, events[0]), events[1..]);
    }
  }

  lemma InitialConsistent()
    ensures Consistent(Initial)
  {
  }

  /** Uploading the usual reader output and rebuilding its data URL gives
      back the same data URL: the stored record round-trips. */
  lemma UploadRoundTrip(s: AppState, name: string, mediaType: string, payload: string)
    requires StartsWith(mediaType, FileUtils.ImageTypePrefix)
    requires ',' !in mediaType && ',' !in payload
    ensures var url := FileUtils.DataUrl(mediaType, payload);
      HandleImageUpload(s, [FileUtils.File(name, mediaType, FileUtils.Loaded(url))]).originalImages
      == s.originalImages + [ImageFile(name, url, Some(payload), mediaType)]
  {
    var url := FileUtils.DataUrl(mediaType, payload);
    var file := FileUtils.File(name, mediaType, FileUtils.Loaded(url));
    FileUtils.DataUrlRoundTrip(mediaType, payload);
    var r := HandleImageUpload(s, [file]);
    assert r.originalImages == s.originalImages + [ToImageFile(file, FileUtils.FileToBase64(file).value)];
  }
}

/** `fileToBase64`: the gate that admits only image files, and the
    extraction of the base64 payload from the data URL the browser's file
    reader produces. The reader itself (and the base64 encoding it does) is
    an input: each file carries what reading it yields. */
module FileUtils {
  import opened Wrappers
  import opened Js

  const ImageTypePrefix := "image/"
  const NotAnImageMessage := "File is not an image."

  /** What the browser's file reader produced for one file: the data URL
      text, or an error event (not an `Error` object). */
  datatype ReadOutcome = Loaded(dataUrl: string) | ReadFailed

  /** An uploaded file: its name, its declared media type and the outcome
      of reading it as a data URL. */
  datatype File = File(name: string, mediaType: string, read: ReadOutcome)

  /** The value `fileToBase64` resolves with. `base64Data` is `None` when
      the reader's text had no comma, where the source's `split(',')[1]`
      is `undefined`. */
  datatype EncodedImage = EncodedImage(base64Data: Option<string>, mimeType: string)

  /** Why `fileToBase64` rejects. */
  datatype LoadError = NotAnImage | ReadFailure

  /** The value the rejected promise carries: an `Error` for the type gate,
      the reader's error event otherwise. */
  function RejectionValue(e: LoadError): (t: Thrown)
    ensures t.ErrorValue? <==> e == NotAnImage
    ensures t.ErrorValue? ==> t.message == NotAnImageMessage
  {
    match e
    case NotAnImage => ErrorValue(NotAnImageMessage)
    case ReadFailure => OtherValue
  }

  /** `data:<mimeType>;base64,<payload>`, the shape of a data URL as the
      reader writes it and as the application rebuilds it. */
  function DataUrl(mimeType: string, payload: string): string
  {
    "data:" + mimeType + ";base64," + payload
  }

  /** Where the parts of a data URL sit: the media type after `data:`,
      then `;base64`, then the comma, which is the first comma when the
      media type has none, then the payload. */
  lemma DataUrlLayout(mimeType: string, payload: string)
    ensures var url := DataUrl(mimeType, payload);
      && |url| == 13 + |mimeType| + |payload|
      && StartsWith(url, "data:") && url[5..5 + |mimeType|] == mimeType
      && url[5 + |mimeType|..12 + |mimeType|] == ";base64"
      && url[13 + |mimeType|..] == payload
      && (',' !in mimeType ==> IndexOf(url, ',') == Some(12 + |mimeType|))
  {
    var head := "data:" + mimeType + ";base64";
    assert DataUrl(mimeType, payload) == head + [','] + payload;
    if ',' !in mimeType {
      assert ',' !in "data:" && ',' !in ";base64";
      IndexOfAfterFreeHead(head, payload, ',');
    }
  }

  /** `dataUrl.split(',')[1]`: the second comma-separated field, or `None`
      (`undefined`) when there is no comma. It is the text strictly after
      the first comma, up to the next comma or the end. */
  function PayloadOf(dataUrl: string): (r: Option<string>)
    ensures r.None? <==> ',' !in dataUrl
    ensures r.Some? ==> ',' !in r.value
    ensures r.Some? ==>
      var after := dataUrl[IndexOf(dataUrl, ',').value + 1..];
      && StartsWith(after, r.value)
      && (|r.value| == |after| || after[|r.value|] == ',')
  {
    var fields := Split(dataUrl, ',');
    if |fields| > 1 then
      PayloadIsSecondField(dataUrl);
      Some(fields[1])
    else
      None
  }

  lemma PayloadIsSecondField(s: string)
    ensures |Split(s, ',')| > 1 <==> ',' in s
    ensures |Split(s, ',')| > 1 ==>
      var after := s[IndexOf(s, ',').value + 1..];
      var field := Split(s, ',')[1];
      && StartsWith(after, field)
      && (|field| == |after| || after[|field|] == ',')
  {
    var found := IndexOf(s, ',');
    if found.Some? {
      var after := s[found.value + 1..];
      assert Split(s, ',') == [s[..found.value]] + Split(after, ',');
      var next := IndexOf(after, ',');
      if next.Some? {
        assert Split(after, ',')[0] == after[..next.value];
      } else {
        assert Split(after, ',')[0] == after;
      }
    }
  }

  /** `fileToBase64(file)`. A file whose declared type does not start with
      `image/` is rejected before it is read; otherwise the outcome is the
      reader's: a read error rejects, a data URL resolves with its payload
      and the file's declared type. */
  function FileToBase64(file: File): (r: Result<EncodedImage, LoadError>)
    ensures !StartsWith(file.mediaType, ImageTypePrefix) ==> r == Failure(NotAnImage)
    ensures r.Success? <==> StartsWith(file.mediaType, ImageTypePrefix) && file.read.Loaded?
    ensures StartsWith(file.mediaType, ImageTypePrefix) && file.read.ReadFailed? ==> r == Failure(ReadFailure)
    ensures r.Success? ==> r.value.mimeType == file.mediaType
    ensures r.Success? ==> r.value.base64Data == PayloadOf(file.read.dataUrl)
  {
    if !StartsWith(file.mediaType, ImageTypePrefix) then
      Failure(NotAnImage)
    else
      match file.read
      case ReadFailed => Failure(ReadFailure)
      case Loaded(url) => Success(EncodedImage(PayloadOf(url), file.mediaType))
  }

  /** Building a data URL and taking `split(',')[1]` of it gives back the
      payload, as long as neither the media type nor the payload holds a
      comma (base64 text never does). */
  lemma DataUrlRoundTrip(mimeType: string, payload: string)
    requires ',' !in mimeType && ',' !in payload
    ensures PayloadOf(DataUrl(mimeType, payload)) == Some(payload)
  {
    var head := "data:" + mimeType + ";base64";
    assert ',' !in head by {
      assert ',' !in "data:" && ',' !in ";base64";
    }
    assert Join([head, payload], ',') == DataUrl(mimeType, payload);
    SplitJoin([head, payload], ',');
  }

  /** The comma-free condition above is needed: a comma inside the media
      type moves the split point, and the "payload" becomes the rest of the
      media type followed by `;base64`. */
  lemma DataUrlCommaInTypeBreaksRoundTrip(before: string, after: string, payload: string)
    requires ',' !in before && ',' !in after && ',' !in payload
    ensures PayloadOf(DataUrl(before + "," + after, payload)) == Some(after + ";base64")
  {
    var fields := ["data:" + before, after + ";base64", payload];
    assert ',' !in fields[0] by { assert ',' !in "data:"; }
    assert ',' !in fields[1] by { assert ',' !in ";base64"; }
    JoinCons(fields[1], [fields[2]], ',');
    JoinCons(fields[0], [fields[1], fields[2]], ',');
    assert fields == [fields[0]] + [fields[1], fields[2]];
    assert DataUrl(before + "," + after, payload) == Join(fields, ',');
    SplitJoin(fields, ',');
  }

  /** For an image file read by a reader that writes the usual data URL,
      `fileToBase64` resolves with exactly the payload the reader encoded
      and the declared type. */
  lemma FileToBase64RecoversPayload(name: string, mediaType: string, payload: string)
    requires StartsWith(mediaType, ImageTypePrefix)
    requires ',' !in mediaType && ',' !in payload
    ensures FileToBase64(File(name, mediaType, Loaded(DataUrl(mediaType, payload))))
            == Success(EncodedImage(Some(payload), mediaType))
  {
    DataUrlRoundTrip(mediaType, payload);
  }
}

/** The client of the remote generation service: request assembly for image
    editing and upscaling, the scan of a response for text and image, the
    data-URL format and its parser, and the video job's poll loop.

    The remote service itself is outside the model. Every call to it is
    represented by what it answers: `generate` gives the reply to a
    `generateContent` request as a function of the request's parts, a
    `VideoScript` lists the replies of the video job's submission and of its
    successive status refreshes, and `fetch` gives the reply of the download
    request for a URL. */
module GeminiService {
  import opened Js
  import opened Types

  // ---------------------------------------------------------------------------
  // Requests and responses of `generateContent`
  // ---------------------------------------------------------------------------

  /** Binary payload (base64 text) with its media type. */
  datatype InlineData = InlineData(data: string, mimeType: string)

  /** One element of a request's `parts`. */
  datatype Part = ImagePart(inlineData: InlineData) | TextPart(text: string)

  /** One element of a response's `parts`: it may carry text, inline data, both or neither. */
  datatype ResponsePart = ResponsePart(text: Option<string>, inlineData: Option<InlineData>)

  datatype Content = Content(parts: Option<seq<ResponsePart>>)
  datatype Candidate = Candidate(content: Option<Content>)
  datatype Response = Response(candidates: Option<seq<Candidate>>)

  /** What `editImage` and `upscaleImage` resolve with. */
  datatype Generated = Generated(text: Option<string>, image: Option<string>)

  /** The image part that carries an uploaded file's payload and media type. */
  function ImagePartOf(f: UploadedFile): Part {
    ImagePart(InlineData(f.base64, f.mimeType))
  }

  function ImageParts(files: seq<UploadedFile>): seq<Part> {
    seq(|files|, i requires 0 <= i < |files| => ImagePartOf(files[i]))
  }

  /** The part an optional reference contributes: one image part if present, none otherwise. */
  function OptionalPart(f: Option<UploadedFile>): seq<Part> {
    if f.Some? then [ImagePartOf(f.value)] else []
  }

  /** The request `editImage` sends: character images, then outfit, place and
      pose when present, then the text. */
  function RequestParts(prompt: string, characters: seq<UploadedFile>,
                        outfit: Option<UploadedFile>, place: Option<UploadedFile>,
                        pose: Option<UploadedFile>): seq<Part>
  {
    ImageParts(characters) + OptionalPart(outfit) + OptionalPart(place) + OptionalPart(pose) + [TextPart(prompt)]
  }

  /** Where each image of an edit request sits, and that the text is the one last part. */
  lemma RequestPartsLayout(prompt: string, characters: seq<UploadedFile>,
                           outfit: Option<UploadedFile>, place: Option<UploadedFile>,
                           pose: Option<UploadedFile>)
    ensures var parts := RequestParts(prompt, characters, outfit, place, pose);
      var n := |characters|;
      && |parts| == n + Count(outfit.Some?) + Count(place.Some?) + Count(pose.Some?) + 1
      && (forall i :: 0 <= i < n ==> parts[i] == ImagePartOf(characters[i]))
      && (outfit.Some? ==> parts[n] == ImagePartOf(outfit.value))
      && (place.Some? ==> parts[n + Count(outfit.Some?)] == ImagePartOf(place.value))
      && (pose.Some? ==> parts[n + Count(outfit.Some?) + Count(place.Some?)] == ImagePartOf(pose.value))
      && parts[|parts| - 1] == TextPart(prompt)
      && (forall i :: 0 <= i < |parts| - 1 ==> parts[i].ImagePart?)
  {
    var parts := RequestParts(prompt, characters, outfit, place, pose);
    var n := |characters|;
    var images := ImageParts(characters) + OptionalPart(outfit) + OptionalPart(place) + OptionalPart(pose);
    assert parts == images + [TextPart(prompt)];
    assert |images| == n + Count(outfit.Some?) + Count(place.Some?) + Count(pose.Some?);
    forall i | 0 <= i < |parts| - 1 ensures parts[i].ImagePart? {
      assert parts[i] == images[i];
    }
  }

  // ---------------------------------------------------------------------------
  // Reading a response
  // ---------------------------------------------------------------------------

  /** `data:<mime>;base64,<data>`, the form in which a returned image is handed on. */
  function FormatDataUrl(mimeType: string, data: string): string {
    "data:" + mimeType + ";base64," + data
  }

  /** The text a part contributes to the scan: its text when that is truthy. */
  function TextOf(p: ResponsePart): Option<string> {
    if Truthy(p.text) then p.text else None
  }

  /** The image a part contributes to the scan: only a part without truthy text
      is looked at for inline data. */
  function ImageOf(p: ResponsePart): Option<string> {
    if !Truthy(p.text) && p.inlineData.Some? then
      Some(FormatDataUrl(p.inlineData.value.mimeType, p.inlineData.value.data))
    else None
  }

  /** What a forward scan that overwrites on every contribution ends with: the
      contribution of the last part that makes one. */
  function Latest(ps: seq<ResponsePart>, pick: ResponsePart -> Option<string>): Option<string> {
    if ps == [] then None
    else if pick(ps[|ps| - 1]).Some? then pick(ps[|ps| - 1])
    else Latest(ps[..|ps| - 1], pick)
  }

  /** `Latest` finds nothing exactly when no part contributes, and otherwise
      returns the contribution of a part after which none contributes. */
  lemma {:induction false} LatestIsLast(ps: seq<ResponsePart>, pick: ResponsePart -> Option<string>)
    ensures Latest(ps, pick).None? <==> forall i :: 0 <= i < |ps| ==> pick(ps[i]).None?
    ensures Latest(ps, pick).Some? ==>
      exists i :: 0 <= i < |ps| && Latest(ps, pick) == pick(ps[i])
        && forall j :: i < j < |ps| ==> pick(ps[j]).None?
  {
    if ps != [] {
      var last := |ps| - 1;
      if pick(ps[last]).None? {
        var front := ps[..last];
        LatestIsLast(front, pick);
        assert forall i :: 0 <= i < last ==> ps[i] == front[i];
        if Latest(front, pick).Some? {
          var i :| 0 <= i < |front| && Latest(front, pick) == pick(front[i])
            && forall j :: i < j < |front| ==> pick(front[j]).None?;
          assert Latest(ps, pick) == pick(ps[i]);
        }
      }
    }
  }

  /** The parts of the first candidate's content, when the response has them. */
  function ResponseParts(r: Response): Option<seq<ResponsePart>> {
    if r.candidates.Some? && |r.candidates.value| > 0
       && r.candidates.value[0].content.Some?
       && r.candidates.value[0].content.value.parts.Some?
    then Some(r.candidates.value[0].content.value.parts.value)
    else None
  }

  /** What the response scan extracts from a response. */
  function Extracted(r: Response): Generated {
    match ResponseParts(r)
    case None => Generated(None, None)
    case Some(ps) => Generated(Latest(ps, TextOf), Latest(ps, ImageOf))
  }

  /** The reply to a `generateContent` call as `editImage` and `upscaleImage` resolve or throw. */
  function Answer(reply: Settled<Response>): Settled<Generated> {
    match reply
    case Rejected(m) => Rejected(m)
    case Resolved(r) => Resolved(Extracted(r))
  }

  /** The scan of a response: a later text part overwrites the text, a later
      image part the image, and a part with text is never taken as an image. */
  method ReadResponse(response: Response) returns (g: Generated)
    ensures g == Extracted(response)
    ensures ResponseParts(response).None? ==> g == Generated(None, None)
  {
    var resultText: Option<string> := None;
    var resultImage: Option<string> := None;
    if response.candidates.Some? && |response.candidates.value| > 0
       && response.candidates.value[0].content.Some?
       && response.candidates.value[0].content.value.parts.Some?
    {
      var ps := response.candidates.value[0].content.value.parts.value;
      var i := 0;
      while i < |ps|
        invariant 0 <= i <= |ps|
        invariant resultText == Latest(ps[..i], TextOf)
        invariant resultImage == Latest(ps[..i], ImageOf)
      {
        var part := ps[i];
        assert ps[..i + 1][..i] == ps[..i];
        if Truthy(part.text) {
          resultText := part.text;
        } else if part.inlineData.Some? {
          resultImage := Some(FormatDataUrl(part.inlineData.value.mimeType, part.inlineData.value.data));
        }
        i := i + 1;
      }
      assert ps[..|ps|] == ps;
    }
    g := Generated(resultText, resultImage);
  }

  /** What the scan returns, in terms of the response's parts: the text of the
      last part with truthy text, and the data URL of the last part without
      truthy text that carries inline data. Neither is ever the empty string. */
  lemma ExtractedMeaning(r: Response)
    ensures ResponseParts(r).None? ==> Extracted(r) == Generated(None, None)
    ensures Extracted(r).text.Some? ==> Extracted(r).text.value != ""
    ensures Extracted(r).image.Some? ==> Extracted(r).image.value != ""
    ensures ResponseParts(r).Some? ==> var ps := ResponseParts(r).value;
      && (Extracted(r).text.None? <==> forall i :: 0 <= i < |ps| ==> !Truthy(ps[i].text))
      && (Extracted(r).text.Some? ==>
            exists i :: 0 <= i < |ps| && Truthy(ps[i].text) && Extracted(r).text == ps[i].text
              && forall j :: i < j < |ps| ==> !Truthy(ps[j].text))
      && (Extracted(r).image.None? <==>
            forall i :: 0 <= i < |ps| ==> Truthy(ps[i].text) || ps[i].inlineData.None?)
      && (Extracted(r).image.Some? ==>
            exists i :: 0 <= i < |ps| && !Truthy(ps[i].text) && ps[i].inlineData.Some?
              && Extracted(r).image.value == FormatDataUrl(ps[i].inlineData.value.mimeType, ps[i].inlineData.value.data)
              && forall j :: i < j < |ps| ==> Truthy(ps[j].text) || ps[j].inlineData.None?)
  {
    if ResponseParts(r).Some? {
      var ps := ResponseParts(r).value;
      LatestIsLast(ps, TextOf);
      LatestIsLast(ps, ImageOf);
      if Extracted(r).text.Some? {
        var i :| 0 <= i < |ps| && Latest(ps, TextOf) == TextOf(ps[i])
          && forall j :: i < j < |ps| ==> TextOf(ps[j]).None?;
        assert Truthy(ps[i].text);
      }
      if Extracted(r).image.Some? {
        var i :| 0 <= i < |ps| && Latest(ps, ImageOf) == ImageOf(ps[i])
          && forall j :: i < j < |ps| ==> ImageOf(ps[j]).None?;
        assert !Truthy(ps[i].text) && ps[i].inlineData.Some?;
      }
      assert forall i :: 0 <= i < |ps| ==> (TextOf(ps[i]).None? <==> !Truthy(ps[i].text));
      assert forall i :: 0 <= i < |ps| ==> (ImageOf(ps[i]).None? <==> Truthy(ps[i].text) || ps[i].inlineData.None?);
    }
  }

  // ---------------------------------------------------------------------------
  // editImage
  // ---------------------------------------------------------------------------

  /** `editImage`: assembles the parts in role order with the text last, sends
      them, and scans the reply. */
  method EditImage(prompt: string, characterImages: seq<UploadedFile>,
                   outfitImage: Option<UploadedFile>, placeImage: Option<UploadedFile>,
                   poseImage: Option<UploadedFile>, generate: seq<Part> -> Settled<Response>)
    returns (parts: seq<Part>, result: Settled<Generated>)
    ensures parts == RequestParts(prompt, characterImages, outfitImage, placeImage, poseImage)
    ensures |parts| == |characterImages| + Count(outfitImage.Some?) + Count(placeImage.Some?) + Count(poseImage.Some?) + 1
    ensures forall i :: 0 <= i < |characterImages| ==> parts[i] == ImagePartOf(characterImages[i])
    ensures parts[|parts| - 1] == TextPart(prompt)
    ensures result == Answer(generate(parts))
  {
    var textPart := TextPart(prompt);
    parts := [];
    var i := 0;
    while i < |characterImages|
      invariant 0 <= i <= |characterImages|
      invariant |parts| == i
      invariant forall k :: 0 <= k < i ==> parts[k] == ImagePartOf(characterImages[k])
    {
      parts := parts + [ImagePart(InlineData(characterImages[i].base64, characterImages[i].mimeType))];
      i := i + 1;
    }
    assert parts == ImageParts(characterImages);
    if outfitImage.Some? {
      parts := parts + [ImagePart(InlineData(outfitImage.value.base64, outfitImage.value.mimeType))];
    }
    if placeImage.Some? {
      parts := parts + [ImagePart(InlineData(placeImage.value.base64, placeImage.value.mimeType))];
    }
    if poseImage.Some? {
      parts := parts + [ImagePart(InlineData(poseImage.value.base64, poseImage.value.mimeType))];
    }
    parts := parts + [textPart];
    RequestPartsLayout(prompt, characterImages, outfitImage, placeImage, poseImage);

    var reply := generate(parts);
    match reply
    case Rejected(m) =>
      result := Rejected(m);
    case Resolved(response) =>
      var g := ReadResponse(response);
      result := Resolved(g);
  }

  // ---------------------------------------------------------------------------
  // Data URLs
  // ---------------------------------------------------------------------------

  /** The characters a regular expression's `.` does not match. */
  predicate IsLineTerminator(c: char) {
    c == '\n' || c == '\r' || c == '\U{2028}' || c == '\U{2029}'
  }

  predicate NoLineTerminator(s: string) {
    forall i :: 0 <= i < |s| ==> !IsLineTerminator(s[i])
  }

  const Marker := ";base64,"

  /** `s` holds `;base64,` at position `k`. */
  predicate MarkerAt(s: string, k: int) {
    0 <= k && k + |Marker| <= |s| && s[k..k + |Marker|] == Marker
  }

  /** `s` does not contain `;base64,` anywhere. */
  predicate NoMarker(s: string) {
    forall k :: 0 <= k < |s| ==> !MarkerAt(s, k)
  }

  /** The largest position `k` with `6 <= k <= hi` at which `s` holds `;base64,`. */
  function LastMarker(s: string, hi: int): (r: Option<nat>)
    ensures r.Some? ==>
      6 <= r.value <= hi && MarkerAt(s, r.value) && forall j :: r.value < j <= hi ==> !MarkerAt(s, j)
    ensures r.None? ==> forall j :: 6 <= j <= hi ==> !MarkerAt(s, j)
    decreases hi
  {
    if hi < 6 then None
    else if MarkerAt(s, hi) then Some(hi)
    else LastMarker(s, hi - 1)
  }

  /** `s` matches `^data:(.+);base64,(.+)$` with the first group ending at `k`:
      `k` is a position of `;base64,` with at least one character on either side. */
  predicate SplitsAt(s: string, k: int) {
    6 <= k && k + |Marker| < |s| && MarkerAt(s, k)
  }

  /** `s` matches `^data:(.+);base64,(.+)$`. */
  predicate MatchesDataUrl(s: string) {
    |s| >= 5 && s[..5] == "data:" && NoLineTerminator(s) && exists k :: 0 <= k < |s| && SplitsAt(s, k)
  }

  /** `parseDataUrl`: the match of `^data:(.+);base64,(.+)$`. The first group is
      greedy, so it ends at the LAST `;base64,` that leaves a non-empty second group. */
  function ParseDataUrl(dataUrl: string): (r: Option<InlineData>)
    ensures r.Some? ==> r.value.mimeType != "" && r.value.data != ""
    ensures r.Some? ==> |dataUrl| == 5 + |r.value.mimeType| + |Marker| + |r.value.data|
    ensures r.Some? ==> FormatDataUrl(r.value.mimeType, r.value.data) == dataUrl
  {
    if |dataUrl| >= 5 && dataUrl[..5] == "data:" && NoLineTerminator(dataUrl) then
      match LastMarker(dataUrl, |dataUrl| - |Marker| - 1)
      case None => None
      case Some(k) =>
        assert dataUrl == dataUrl[..5] + dataUrl[5..k] + dataUrl[k..k + |Marker|] + dataUrl[k + |Marker|..];
        Some(InlineData(dataUrl[k + |Marker|..], dataUrl[5..k]))
    else None
  }

  /** `parseDataUrl` succeeds exactly on the strings the pattern matches; it then
      splits the URL into a non-empty media type and payload that format back to
      the URL, with the media type running up to the last possible `;base64,`. */
  lemma ParseDataUrlMeaning(dataUrl: string)
    ensures var r := ParseDataUrl(dataUrl);
      && (r.Some? <==> MatchesDataUrl(dataUrl))
      && (r.Some? ==>
            && r.value.mimeType != "" && r.value.data != ""
            && FormatDataUrl(r.value.mimeType, r.value.data) == dataUrl
            && forall k :: 0 <= k < |dataUrl| && SplitsAt(dataUrl, k) ==> k <= 5 + |r.value.mimeType|)
  {
    if |dataUrl| >= 5 && dataUrl[..5] == "data:" && NoLineTerminator(dataUrl) {
      var last := LastMarker(dataUrl, |dataUrl| - |Marker| - 1);
      if last.Some? {
        var k := last.value;
        var data := dataUrl[k + |Marker|..];
        assert 0 <= k < |dataUrl| && SplitsAt(dataUrl, k);
        assert dataUrl == "data:" + dataUrl[5..k] + Marker + data;
      }
    }
  }

  /** `;base64,` starts with a semicolon. */
  lemma MarkerNeedsSemicolon(s: string, j: int)
    ensures MarkerAt(s, j) ==> s[j] == ';'
  {
    if MarkerAt(s, j) {
      assert s[j] == s[j..j + |Marker|][0];
    }
  }

  /** An occurrence of `;base64,` inside a suffix of `s` is one in the suffix. */
  lemma MarkerInSuffix(s: string, off: nat, j: int)
    requires off <= j && off <= |s|
    ensures MarkerAt(s, j) ==> MarkerAt(s[off..], j - off)
  {
    if MarkerAt(s, j) {
      assert s[off..][j - off..j - off + |Marker|] == s[j..j + |Marker|];
    }
  }

  lemma NoLineTerminatorConcat(a: string, b: string)
    requires NoLineTerminator(a) && NoLineTerminator(b)
    ensures NoLineTerminator(a + b)
  {
    forall i | 0 <= i < |a + b| ensures !IsLineTerminator((a + b)[i]) {
      if i >= |a| { assert (a + b)[i] == b[i - |a|]; }
    }
  }

  /** Where the parts of a formatted data URL sit. */
  lemma FormatLayout(mimeType: string, data: string)
    requires mimeType != "" && data != ""
    requires NoLineTerminator(mimeType) && NoLineTerminator(data)
    ensures var s := FormatDataUrl(mimeType, data);
      var k := 5 + |mimeType|;
      && |s| >= 5 && s[..5] == "data:" && NoLineTerminator(s) && SplitsAt(s, k)
      && s[5..k] == mimeType && s[k + |Marker|..] == data
  {
    var s := FormatDataUrl(mimeType, data);
    var k := 5 + |mimeType|;
    var tail := Marker + data;
    assert s == "data:" + mimeType + tail;
    assert s[k..] == tail;
    assert s[k..k + |Marker|] == Marker;
    assert NoLineTerminator(Marker);
    assert NoLineTerminator("data:");
    NoLineTerminatorConcat("data:", mimeType);
    NoLineTerminatorConcat(Marker, data);
    NoLineTerminatorConcat("data:" + mimeType, tail);
  }

  /** In a formatted data URL whose payload holds no `;base64,`, the marker
      written after the media type is the last one. */
  lemma NoLaterMarker(mimeType: string, data: string)
    requires NoMarker(data)
    ensures var s := FormatDataUrl(mimeType, data);
      forall j :: 5 + |mimeType| < j < |s| ==> !MarkerAt(s, j)
  {
    var s := FormatDataUrl(mimeType, data);
    var k := 5 + |mimeType|;
    var tail := Marker + data;
    assert s == "data:" + mimeType + tail;
    forall j | k < j < |s| ensures !MarkerAt(s, j) {
      MarkerNeedsSemicolon(s, j);
      if j < k + |Marker| {
        assert s[j] == tail[j - k] == Marker[j - k];
        assert Marker[j - k] != ';';
      } else {
        MarkerInSuffix(s, k + |Marker|, j);
        assert s[k + |Marker|..] == data;
      }
    }
  }

  /** `parseDataUrl` undoes the formatting of a returned image when the media
      type and payload are non-empty, hold no line terminator, and the payload
      holds no `;base64,`. */
  lemma ParseFormatRoundTrip(mimeType: string, data: string)
    requires mimeType != "" && data != ""
    requires NoLineTerminator(mimeType) && NoLineTerminator(data)
    requires NoMarker(data)
    ensures ParseDataUrl(FormatDataUrl(mimeType, data)) == Some(InlineData(data, mimeType))
  {
    var s := FormatDataUrl(mimeType, data);
    var k := 5 + |mimeType|;
    FormatLayout(mimeType, data);
    NoLaterMarker(mimeType, data);
    assert LastMarker(s, |s| - |Marker| - 1) == Some(k);
    assert ParseDataUrl(s) == Some(InlineData(s[k + |Marker|..], s[5..k]));
  }

  // ---------------------------------------------------------------------------
  // upscaleImage
  // ---------------------------------------------------------------------------

  const UpscalePrompt := "CRITICAL TASK: Upscale this image to a higher resolution. Enhance all details, making the image sharper and clearer. DO NOT change the artistic style, content, colors, or composition in any way. This is a technical enhancement only."

  const InvalidUpscaleInput := "Invalid image data URL format for upscaling."

  /** The request `upscaleImage` sends, or `None` when it throws before sending. */
  function UpscaleRequest(imageUrl: string): Option<seq<Part>> {
    match ParseDataUrl(imageUrl)
    case None => None
    case Some(d) => Some([ImagePart(d), TextPart(UpscalePrompt)])
  }

  /** How `upscaleImage` settles. */
  function UpscaleResult(imageUrl: string, generate: seq<Part> -> Settled<Response>): Settled<Generated> {
    match UpscaleRequest(imageUrl)
    case None => Rejected(InvalidUpscaleInput)
    case Some(parts) => Answer(generate(parts))
  }

  /** `upscaleImage`: throws before any remote call when the URL does not parse;
      otherwise sends exactly the parsed image and the fixed prompt. */
  method UpscaleImage(imageUrl: string, generate: seq<Part> -> Settled<Response>)
    returns (sent: Option<seq<Part>>, result: Settled<Generated>)
    ensures sent.None? <==> !MatchesDataUrl(imageUrl)
    ensures sent.None? ==> result == Rejected(InvalidUpscaleInput)
    ensures sent.Some? ==>
      && |sent.value| == 2 && sent.value[1] == TextPart(UpscalePrompt)
      && sent.value[0].ImagePart?
      && FormatDataUrl(sent.value[0].inlineData.mimeType, sent.value[0].inlineData.data) == imageUrl
      && result == Answer(generate(sent.value))
    ensures sent == UpscaleRequest(imageUrl) && result == UpscaleResult(imageUrl, generate)
  {
    var imageData := ParseDataUrl(imageUrl);
    ParseDataUrlMeaning(imageUrl);
    if imageData.None? {
      sent := None;
      result := Rejected(InvalidUpscaleInput);
      return;
    }
    var imagePart := ImagePart(InlineData(imageData.value.data, imageData.value.mimeType));
    var textPart := TextPart(UpscalePrompt);
    sent := Some([imagePart, textPart]);
    var reply := generate([imagePart, textPart]);
    match reply
    case Rejected(m) =>
      result := Rejected(m);
    case Resolved(response) =>
      var g := ReadResponse(response);
      result := Resolved(g);
  }

  /** An image scanned from a response whose inline data is well formed is sent
      back to the upscale call byte for byte, with its own media type. */
  lemma UpscaleSendsBackScannedImage(mimeType: string, data: string)
    requires mimeType != "" && data != ""
    requires NoLineTerminator(mimeType) && NoLineTerminator(data) && NoMarker(data)
    ensures UpscaleRequest(FormatDataUrl(mimeType, data))
         == Some([ImagePart(InlineData(data, mimeType)), TextPart(UpscalePrompt)])
  {
    ParseFormatRoundTrip(mimeType, data);
  }

  /** An image with an empty payload is still a truthy data URL, but when its
      media type holds no semicolon the upscale call rejects it before sending anything. */
  lemma UpscaleRejectsEmptyPayload(mimeType: string)
    requires forall i :: 0 <= i < |mimeType| ==> mimeType[i] != ';'
    ensures UpscaleRequest(FormatDataUrl(mimeType, "")).None?
  {
    var s := FormatDataUrl(mimeType, "");
    forall k | 0 <= k < |s| ensures !SplitsAt(s, k) {
      MarkerNeedsSemicolon(s, k);
      if 6 <= k && k + |Marker| < |s| {
        assert s == "data:" + mimeType + Marker;
        assert s[k] == mimeType[k - 5];
      }
    }
    ParseDataUrlMeaning(s);
  }

  // ---------------------------------------------------------------------------
  // generateVideo
  // ---------------------------------------------------------------------------

  datatype Video = Video(uri: Option<string>)
  datatype GeneratedVideo = GeneratedVideo(video: Option<Video>)
  datatype VideosResponse = VideosResponse(generatedVideos: Option<seq<GeneratedVideo>>)

  /** The long-running video job's handle. */
  datatype Operation = Operation(done: bool, response: Option<VideosResponse>)

  /** The request that submits the video job. */
  datatype VideoJob = VideoJob(prompt: string, imageBytes: string, mimeType: string, numberOfVideos: nat)

  /** The replies of the job's submission and of its successive status refreshes. */
  datatype VideoScript = VideoScript(submitted: Settled<Operation>, refreshes: seq<Settled<Operation>>)

  /** The reply of the download request: its `ok` flag, `statusText`, and the
      object URL the downloaded bytes are materialized as. */
  datatype FetchResponse = FetchResponse(ok: bool, statusText: string, objectUrl: string)

  const NoDownloadLink := "Video generation completed, but no download link was found."
  const DownloadFailed := "Failed to download the generated video. Status: "

  /** A reply that ends the poll loop: an error, or a finished operation. */
  predicate Terminal(r: Settled<Operation>) {
    r.Rejected? || r.value.done
  }

  /** The script reaches a reply that ends the polling. */
  predicate PollingEnds(script: VideoScript) {
    Terminal(script.submitted)
    || exists j :: 0 <= j < |script.refreshes| && Terminal(script.refreshes[j])
  }

  /** The operations the loop observes after `op` (one per successful refresh)
      and how the polling ends, when refreshes are read from index `i` on. */
  datatype Polling = Polling(later: seq<Operation>, final: Settled<Operation>)

  function Polled(op: Operation, refreshes: seq<Settled<Operation>>, i: nat): Polling
    requires i <= |refreshes|
    requires op.done || exists j :: i <= j < |refreshes| && Terminal(refreshes[j])
    decreases |refreshes| - i
  {
    if op.done then Polling([], Resolved(op))
    else match refreshes[i]
      case Rejected(m) => Polling([], Rejected(m))
      case Resolved(next) =>
        var rest := Polled(next, refreshes, i + 1);
        Polling([next] + rest.later, rest.final)
  }

  /** The polling observes one operation per successful refresh, in trace
      order; it stops at the first refresh that fails or reports `done`, and
      every operation before the final one is not done. */
  lemma {:induction false} PolledStopsAtFirstTerminal(op: Operation, refreshes: seq<Settled<Operation>>, i: nat)
    requires i <= |refreshes|
    requires op.done || exists j :: i <= j < |refreshes| && Terminal(refreshes[j])
    decreases |refreshes| - i
    ensures var p := Polled(op, refreshes, i);
      && i + |p.later| <= |refreshes|
      && (forall k :: 0 <= k < |p.later| ==> refreshes[i + k] == Resolved(p.later[k]))
      && (forall k :: 0 <= k < |p.later| ==> !([op] + p.later)[k].done)
      && (p.final.Resolved? ==> p.final.value.done && p.final.value == ([op] + p.later)[|p.later|])
      && (p.final.Rejected? ==> i + |p.later| < |refreshes| && refreshes[i + |p.later|] == p.final)
  {
    if !op.done {
      match refreshes[i]
      case Rejected(m) =>
      case Resolved(next) =>
        PolledStopsAtFirstTerminal(next, refreshes, i + 1);
        var rest := Polled(next, refreshes, i + 1);
        forall k | 0 <= k < |rest.later| + 1
          ensures !([op] + [next] + rest.later)[k].done
        {
          if k > 0 { assert ([op] + [next] + rest.later)[k] == ([next] + rest.later)[k - 1]; }
        }
        assert [op] + ([next] + rest.later) == [op] + [next] + rest.later;
    }
  }

  /** `operation.response?.generatedVideos?.[0]?.video?.uri`, when truthy. */
  function DownloadLink(op: Operation): (link: Option<string>)
    ensures link.Some? ==> link.value != ""
    ensures op.response.None? || op.response.value.generatedVideos.None? ==> link.None?
    ensures op.response.Some? && op.response.value.generatedVideos == Some([]) ==> link.None?
  {
    if op.response.Some? && op.response.value.generatedVideos.Some?
       && |op.response.value.generatedVideos.value| > 0
       && op.response.value.generatedVideos.value[0].video.Some?
       && Truthy(op.response.value.generatedVideos.value[0].video.value.uri)
    then op.response.value.generatedVideos.value[0].video.value.uri
    else None
  }

  /** One run of `generateVideo`: the operations handed to `onPoll`, the number
      of successful status refreshes, the download URL requested, and the outcome. */
  datatype VideoRun = VideoRun(observed: seq<Operation>, refreshes: nat, downloadUrl: Option<string>, result: Settled<string>)

  /** The download URL for a link: the link with the access key appended. */
  function DownloadUrl(link: string, apiKey: string): string {
    link + "&key=" + apiKey
  }

  /** The download's outcome: a rejected fetch rethrows, a reply that is not
      ok throws with its status text, and an ok reply gives its object URL. */
  function FetchOutcome(reply: Settled<FetchResponse>): (outcome: Settled<string>)
    ensures outcome.Resolved? <==> reply.Resolved? && reply.value.ok
    ensures outcome.Resolved? ==> outcome.value == reply.value.objectUrl
    ensures reply.Rejected? ==> outcome == Rejected(reply.message)
    ensures reply.Resolved? && !reply.value.ok ==> outcome == Rejected(DownloadFailed + reply.value.statusText)
  {
    match reply
    case Rejected(m) => Rejected(m)
    case Resolved(r) => if !r.ok then Rejected(DownloadFailed + r.statusText) else Resolved(r.objectUrl)
  }

  function RunVideo(script: VideoScript, fetch: string -> Settled<FetchResponse>, apiKey: string): VideoRun
    requires PollingEnds(script)
  {
    match script.submitted
    case Rejected(m) => VideoRun([], 0, None, Rejected(m))
    case Resolved(op) =>
      var p := Polled(op, script.refreshes, 0);
      var observed := [op] + p.later;
      match p.final
      case Rejected(m) => VideoRun(observed, |p.later|, None, Rejected(m))
      case Resolved(last) =>
        match DownloadLink(last)
        case None => VideoRun(observed, |p.later|, None, Rejected(NoDownloadLink))
        case Some(link) =>
          var url := DownloadUrl(link, apiKey);
          VideoRun(observed, |p.later|, Some(url), FetchOutcome(fetch(url)))
  }

  /** One successful refresh of an operation that is not done: it is observed,
      and the polling goes on from it. */
  lemma PolledStep(op: Operation, refreshes: seq<Settled<Operation>>, i: nat)
    requires i < |refreshes| && !op.done && refreshes[i].Resolved?
    requires exists j :: i <= j < |refreshes| && Terminal(refreshes[j])
    ensures var next := refreshes[i].value;
      && (next.done || exists j :: i + 1 <= j < |refreshes| && Terminal(refreshes[j]))
      && Polled(op, refreshes, i).later == [next] + Polled(next, refreshes, i + 1).later
      && Polled(op, refreshes, i).final == Polled(next, refreshes, i + 1).final
  {
    var j :| i <= j < |refreshes| && Terminal(refreshes[j]);
    if j == i {
      assert refreshes[i].value.done;
    }
  }

  /** The poll loop of `generateVideo`: starting from the submitted operation,
      refresh its status and report it until it is done; a refresh that fails
      ends the loop with its error. `observed` is what `onPoll` is handed. */
  method PollUntilDone(submitted: Operation, refreshes: seq<Settled<Operation>>)
    returns (observed: seq<Operation>, count: nat, final: Settled<Operation>)
    requires submitted.done || exists j :: 0 <= j < |refreshes| && Terminal(refreshes[j])
    ensures |observed| == 1 + count && observed[0] == submitted
    ensures Polling(observed[1..], final) == Polled(submitted, refreshes, 0)
  {
    var operation := submitted;
    observed := [operation];  // onPoll(operation)
    count := 0;
    ghost var target := Polled(submitted, refreshes, 0);
    ghost var rest := target;
    while !operation.done
      invariant count <= |refreshes|
      invariant operation.done || exists j :: count <= j < |refreshes| && Terminal(refreshes[j])
      invariant |observed| == 1 + count && observed[0] == submitted
      invariant rest == Polled(operation, refreshes, count)
      invariant target.later == observed[1..] + rest.later && target.final == rest.final
      decreases |refreshes| - count
    {
      match refreshes[count]
      case Rejected(m) =>
        assert rest == Polling([], Rejected(m));
        assert observed[1..] + [] == observed[1..];
        final := Rejected(m);
        return;
      case Resolved(next) =>
        PolledStep(operation, refreshes, count);
        ghost var after := Polled(next, refreshes, count + 1);
        assert rest.later == [next] + after.later;
        assert observed[1..] + ([next] + after.later) == (observed + [next])[1..] + after.later;
        operation := next;
        count := count + 1;
        observed := observed + [operation];  // onPoll(operation)
        rest := after;
    }
    assert rest == Polling([], Resolved(operation));
    assert observed[1..] + [] == observed[1..];
    final := Resolved(operation);
  }

  /** `generateVideo`: submit the job, poll it until done, then check the
      result link and download. */
  method GenerateVideo(prompt: string, image: UploadedFile, apiKey: string,
                       script: VideoScript, fetch: string -> Settled<FetchResponse>)
    returns (job: VideoJob, observed: seq<Operation>, refreshes: nat,
             downloadUrl: Option<string>, result: Settled<string>)
    requires PollingEnds(script)
    ensures job == VideoJob(prompt, image.base64, image.mimeType, 1)
    ensures VideoRun(observed, refreshes, downloadUrl, result) == RunVideo(script, fetch, apiKey)
    ensures script.submitted.Resolved? ==> |observed| == 1 + refreshes && observed[0] == script.submitted.value
    ensures script.submitted.Rejected? ==> observed == [] && result == Rejected(script.submitted.message)
  {
    job := VideoJob(prompt, image.base64, image.mimeType, 1);
    observed, refreshes, downloadUrl := [], 0, None;
    if script.submitted.Rejected? {
      result := Rejected(script.submitted.message);
      return;
    }
    var final;
    observed, refreshes, final := PollUntilDone(script.submitted.value, script.refreshes);
    assert observed == [script.submitted.value] + observed[1..];
    if final.Rejected? {
      result := Rejected(final.message);
      return;
    }
    var operation := final.value;
    var downloadLink := DownloadLink(operation);
    if downloadLink.None? {
      result := Rejected(NoDownloadLink);
      return;
    }
    var url := downloadLink.value + "&key=" + apiKey;
    downloadUrl := Some(url);
    var videoResponse := fetch(url);
    match videoResponse
    case Rejected(m) =>
      result := Rejected(m);
    case Resolved(r) =>
      if !r.ok {
        result := Rejected(DownloadFailed + r.statusText);
      } else {
        result := Resolved(r.objectUrl);
      }
  }

  /** What a run of `generateVideo` promises: `onPoll` sees the submitted
      operation and then one operation per successful refresh, every one but
      the last not done; a successful run ends on a done operation with a
      download link, fetched with the key appended and answered `ok`. Once
      polling has ended, a failed refresh rethrows its error, a done operation
      without a link throws the fixed message, and a link is fetched with the
      key appended; that fetch's rejection is rethrown and a reply that is not
      `ok` throws with its status text. */
  lemma VideoRunMeaning(script: VideoScript, fetch: string -> Settled<FetchResponse>, apiKey: string)
    requires PollingEnds(script)
    ensures var run := RunVideo(script, fetch, apiKey);
      && (script.submitted.Rejected? ==> run.observed == [] && run.result == Rejected(script.submitted.message))
      && (script.submitted.Resolved? ==>
            && |run.observed| == 1 + run.refreshes
            && run.observed[0] == script.submitted.value
            && run.refreshes <= |script.refreshes|
            && (forall k :: 0 <= k < run.refreshes ==> script.refreshes[k] == Resolved(run.observed[k + 1]))
            && (forall k :: 0 <= k < run.refreshes ==> !run.observed[k].done))
      && (run.result.Resolved? ==>
            var last := run.observed[|run.observed| - 1];
            && last.done
            && DownloadLink(last).Some?
            && run.downloadUrl == Some(DownloadUrl(DownloadLink(last).value, apiKey))
            && fetch(run.downloadUrl.value).Resolved?
            && fetch(run.downloadUrl.value).value.ok
            && run.result.value == fetch(run.downloadUrl.value).value.objectUrl)
      && (script.submitted.Resolved? ==>
            var p := Polled(script.submitted.value, script.refreshes, 0);
            && (p.final.Rejected? ==> run.downloadUrl.None? && run.result == Rejected(p.final.message))
            && (p.final.Resolved? && DownloadLink(p.final.value).None? ==>
                  run.downloadUrl.None? && run.result == Rejected(NoDownloadLink))
            && (p.final.Resolved? && DownloadLink(p.final.value).Some? ==>
                  var url := DownloadUrl(DownloadLink(p.final.value).value, apiKey);
                  && run.downloadUrl == Some(url)
                  && (fetch(url).Rejected? ==> run.result == Rejected(fetch(url).message))
                  && (fetch(url).Resolved? && !fetch(url).value.ok ==>
                        run.result == Rejected(DownloadFailed + fetch(url).value.statusText))
                  && (fetch(url).Resolved? && fetch(url).value.ok ==>
                        run.result == Resolved(fetch(url).value.objectUrl))))
  {
    if script.submitted.Resolved? {
      PolledStopsAtFirstTerminal(script.submitted.value, script.refreshes, 0);
    }
  }
}

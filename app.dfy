/** The application's top-level state and its two handlers: `handleGenerate`,
    which validates the form, composes the instruction, drives the services and
    records one history entry per attempt, and `handleModeChange`.

    The remote model, the video service's status trace, the download, the
    clock (`Date.now()`) and `URL.createObjectURL` come in as parameters. */
module App {
  import opened Js
  import opened Types
  import opened GeminiService
  import opened PromptComposer

  const MissingInput := "A prompt and at least one source character image are required to conjure your vision."
  const NoImage := "The dark ritual yielded no image. The vision was censored by the ether."
  const UnknownForce := "An unknown dark force interfered with the operation."
  const OriginalMaterial := "Original Material"
  const SinisterAnimation := "Sinister Animation"

  /** What the form holds when a generation is started. */
  datatype Form = Form(
    mode: AppMode,
    characterFiles: seq<UploadedFile>,
    outfit: Option<UploadedFile>,
    place: Option<UploadedFile>,
    pose: Option<UploadedFile>,
    prompt: string,
    composition: string,
    negative: string)

  /** Everything outside the page a generation depends on: the model's answer
      to each request, how the video job settles and is refreshed, the
      download's answer to each URL, and the access key. */
  datatype Remote = Remote(
    generate: seq<Part> -> Settled<Response>,
    video: VideoScript,
    fetch: string -> Settled<FetchResponse>,
    apiKey: string)

  /** A call the handler makes into the service layer, with what it hands over. */
  datatype ServiceCall =
    | EditImageCall(parts: seq<Part>)
    | UpscaleImageCall(imageUrl: string)
    | GenerateVideoCall(job: VideoJob)

  /** How one attempt ends: the error and result fields, the history entry it
      adds and the service calls it made. */
  datatype Completion = Completion(
    error: Option<string>,
    resultImage: Option<string>,
    resultText: Option<string>,
    resultVideoUrl: Option<string>,
    entry: GenerationResult,
    calls: seq<ServiceCall>)

  /** The guard of `handleGenerate`: a truthy prompt and at least one character image. */
  predicate Submittable(f: Form) {
    f.prompt != "" && |f.characterFiles| > 0
  }

  /** `fullPrompt` as `handleGenerate` composes it. */
  function FullPrompt(f: Form, w: Wording): string {
    Render(ComposedBlocks(f.mode, f.prompt, f.characterFiles, f.outfit, f.place, f.pose, f.composition, f.negative), w)
  }

  /** `err.message || <fallback>`. */
  function ErrorMessage(m: string): string {
    if m != "" then m else UnknownForce
  }

  function Kind(mode: AppMode): ResultType {
    if mode == ImageToImage then ImageResult else VideoResult
  }

  /** The `censored` entry that shows the first character image instead of a result. */
  function CensoredEntry(f: Form, now: int, objectUrl: File -> string): GenerationResult
    requires |f.characterFiles| > 0
  {
    GenerationResult(now, Kind(f.mode), Censored, Some(objectUrl(f.characterFiles[0].file)), Some(OriginalMaterial))
  }

  /** The `catch` branch: the thrown message (or the fallback) and a censored entry. */
  function Thrown(f: Form, m: string, calls: seq<ServiceCall>, now: int, objectUrl: File -> string): Completion
    requires |f.characterFiles| > 0
  {
    Completion(Some(ErrorMessage(m)), None, None, None, CensoredEntry(f, now, objectUrl), calls)
  }

  /** The second stage of an image-mode attempt, after the edit returned the
      truthy image `first.image`: upscale it, keeping the first-stage image and
      text wherever the upscale returns none. */
  function Enhanced(f: Form, first: Generated, remote: Remote, now: int, objectUrl: File -> string): Completion
    requires |f.characterFiles| > 0 && first.image.Some?
  {
    var calls := [UpscaleImageCall(first.image.value)];
    match UpscaleResult(first.image.value, remote.generate)
    case Rejected(m) => Thrown(f, m, calls, now, objectUrl)
    case Resolved(upscaled) =>
      var image := Or(upscaled.image, first.image);
      var text := Or(upscaled.text, first.text);
      Completion(None, image, text, None, GenerationResult(now, ImageResult, Success, image, text), calls)
  }

  /** An image-mode attempt with the composed instruction `fullPrompt`: edit,
      then upscale if an image came back. */
  function ImageAttempt(f: Form, fullPrompt: string, remote: Remote, now: int, objectUrl: File -> string): Completion
    requires |f.characterFiles| > 0
  {
    var parts := RequestParts(fullPrompt, f.characterFiles, f.outfit, f.place, f.pose);
    var edit := [EditImageCall(parts)];
    match Answer(remote.generate(parts))
    case Rejected(m) => Thrown(f, m, edit, now, objectUrl)
    case Resolved(first) =>
      if !Truthy(first.image) then
        var original := Some(objectUrl(f.characterFiles[0].file));
        Completion(Some(NoImage), None, None, None,
                   GenerationResult(now, ImageResult, Censored, original, Some(OriginalMaterial)), edit)
      else
        var rest := Enhanced(f, first, remote, now, objectUrl);
        rest.(calls := edit + rest.calls)
  }

  /** A video-mode attempt: the first character image and the user's own prompt go to the video service. */
  function VideoAttempt(f: Form, remote: Remote, now: int, objectUrl: File -> string): Completion
    requires |f.characterFiles| > 0 && PollingEnds(remote.video)
  {
    var source := f.characterFiles[0];
    var calls := [GenerateVideoCall(VideoJob(f.prompt, source.base64, source.mimeType, 1))];
    match RunVideo(remote.video, remote.fetch, remote.apiKey).result
    case Rejected(m) => Thrown(f, m, calls, now, objectUrl)
    case Resolved(url) =>
      Completion(None, None, None, Some(url), GenerationResult(now, VideoResult, Success, Some(url), Some(SinisterAnimation)), calls)
  }

  /** How a submitted generation ends. */
  function Attempt(f: Form, remote: Remote, w: Wording, now: int, objectUrl: File -> string): Completion
    requires Submittable(f)
    requires f.mode == ImageToVideo ==> PollingEnds(remote.video)
  {
    if f.mode == ImageToImage then ImageAttempt(f, FullPrompt(f, w), remote, now, objectUrl)
    else VideoAttempt(f, remote, now, objectUrl)
  }

  /** The image branch of `handleGenerate`'s `try` and its `catch`: edit,
      then upscale when an image came back, keeping the first-stage image and
      text wherever the upscale returns none; a thrown error ends the attempt
      as censored. */
  method ImageGeneration(f: Form, fullPrompt: string, remote: Remote, now: int, objectUrl: File -> string)
    returns (c: Completion)
    requires |f.characterFiles| > 0
    ensures c == ImageAttempt(f, fullPrompt, remote, now, objectUrl)
  {
    var parts, result := EditImage(fullPrompt, f.characterFiles, f.outfit, f.place, f.pose, remote.generate);
    var calls := [EditImageCall(parts)];
    match result
    case Rejected(m) =>
      c := Thrown(f, m, calls, now, objectUrl);
    case Resolved(first) =>
      if Truthy(first.image) {
        var sent, upscaled := UpscaleImage(first.image.value, remote.generate);
        calls := calls + [UpscaleImageCall(first.image.value)];
        match upscaled
        case Rejected(m) =>
          c := Thrown(f, m, calls, now, objectUrl);
        case Resolved(u) =>
          var finalImage := Or(u.image, first.image);  // the first-stage image when upscaling returns none
          var finalText := Or(u.text, first.text);
          c := Completion(None, finalImage, finalText, None,
                          GenerationResult(now, ImageResult, Success, finalImage, finalText), calls);
      } else {
        var originalImageUrl := objectUrl(f.characterFiles[0].file);
        c := Completion(Some(NoImage), None, None, None,
                        GenerationResult(now, ImageResult, Censored, Some(originalImageUrl), Some(OriginalMaterial)),
                        calls);
      }
  }

  /** The video branch of `handleGenerate`'s `try` and its `catch`: the first
      character image and the prompt as typed go to the video service. */
  method VideoGeneration(f: Form, remote: Remote, now: int, objectUrl: File -> string) returns (c: Completion)
    requires |f.characterFiles| > 0 && PollingEnds(remote.video)
    ensures c == VideoAttempt(f, remote, now, objectUrl)
  {
    var videoSourceImage := f.characterFiles[0];
    var job, observed, refreshes, downloadUrl, video :=
      GenerateVideo(f.prompt, videoSourceImage, remote.apiKey, remote.video, remote.fetch);
    var calls := [GenerateVideoCall(job)];
    match video
    case Rejected(m) =>
      c := Thrown(f, m, calls, now, objectUrl);
    case Resolved(videoUrl) =>
      c := Completion(None, None, None, Some(videoUrl),
                      GenerationResult(now, VideoResult, Success, Some(videoUrl), Some(SinisterAnimation)), calls);
  }

  /** Everything `handleGenerate` does once the form is complete: compose the
      instruction, then run the branch for the mode. */
  method Generate(f: Form, w: Wording, remote: Remote, now: int, objectUrl: File -> string) returns (c: Completion)
    requires Submittable(f) && (f.mode == ImageToVideo ==> PollingEnds(remote.video))
    ensures c == Attempt(f, remote, w, now, objectUrl)
  {
    var fullPrompt := ComposeFullPrompt(f.mode, f.prompt, f.characterFiles, f.outfit, f.place, f.pose,
                                        f.composition, f.negative, w);
    if f.mode == ImageToImage {
      c := ImageGeneration(f, fullPrompt, remote, now, objectUrl);
    } else {
      c := VideoGeneration(f, remote, now, objectUrl);
    }
  }

  // ---------------------------------------------------------------------------
  // What an attempt promises
  // ---------------------------------------------------------------------------

  /** The fallback message is not empty, so a thrown error always shows a message. */
  lemma ErrorMessageShown(m: string)
    ensures ErrorMessage(m) != ""
    ensures m != "" ==> ErrorMessage(m) == m
  {
    assert |UnknownForce| > 0;
  }

  /** A settled reply that resolved carries no empty text and no empty image. */
  lemma AnswerNonEmpty(reply: Settled<Response>)
    ensures Answer(reply).Resolved? ==>
      && (Answer(reply).value.image.Some? ==> Answer(reply).value.image.value != "")
      && (Answer(reply).value.text.Some? ==> Answer(reply).value.text.value != "")
  {
    if reply.Resolved? {
      ExtractedMeaning(reply.value);
    }
  }

  /** An image-mode attempt ends in one of three ways. The edit request carries
      the instruction as its text. Without an error the entry is a success
      showing a non-empty image, after exactly one edit and one upscale call;
      with an error (no image, or a thrown one) the entry is censored, shows
      the first character image with 'Original Material', and no result is
      shown. */
  lemma ImageAttemptOutcome(f: Form, fullPrompt: string, remote: Remote, now: int, objectUrl: File -> string)
    requires f.mode == ImageToImage && |f.characterFiles| > 0
    ensures var c := ImageAttempt(f, fullPrompt, remote, now, objectUrl);
      var parts := RequestParts(fullPrompt, f.characterFiles, f.outfit, f.place, f.pose);
      && 1 <= |c.calls| <= 2 && c.calls[0] == EditImageCall(parts)
      && c.entry.id == now && c.entry.kind == ImageResult && c.resultVideoUrl.None?
      && (c.error.None? <==> c.entry.status == Success)
      && (c.error.None? ==>
            && Truthy(c.resultImage) && |c.calls| == 2 && c.calls[1].UpscaleImageCall?
            && c.entry.url == c.resultImage && c.entry.text == c.resultText)
      && (c.error.Some? ==>
            && c.error.value != "" && c.resultImage.None? && c.resultText.None?
            && c.entry.url == Some(objectUrl(f.characterFiles[0].file)) && c.entry.text == Some(OriginalMaterial))
  {
    var parts := RequestParts(fullPrompt, f.characterFiles, f.outfit, f.place, f.pose);
    match Answer(remote.generate(parts))
    case Rejected(m) =>
      ErrorMessageShown(m);
    case Resolved(first) =>
      if Truthy(first.image) {
        match UpscaleResult(first.image.value, remote.generate)
        case Rejected(m) =>
          ErrorMessageShown(m);
        case Resolved(u) =>
      } else {
        assert |NoImage| > 0;
      }
  }

  /** The upscale fallback: after a successful upscale, the image shown is the
      upscaled one when it returned one and the first-stage image otherwise,
      and the text falls back the same way on its own. */
  lemma UpscaleFallback(f: Form, fullPrompt: string, remote: Remote, now: int, objectUrl: File -> string,
                        first: Generated, upscaled: Generated)
    requires |f.characterFiles| > 0
    requires Answer(remote.generate(RequestParts(fullPrompt, f.characterFiles, f.outfit, f.place, f.pose))) == Resolved(first)
    requires Truthy(first.image)
    requires UpscaleResult(first.image.value, remote.generate) == Resolved(upscaled)
    ensures var c := ImageAttempt(f, fullPrompt, remote, now, objectUrl);
      && c.resultImage == (if upscaled.image.Some? then upscaled.image else first.image)
      && c.resultText == (if upscaled.text.Some? then upscaled.text else first.text)
      && c.error.None?
  {
    var sent := UpscaleRequest(first.image.value);
    assert sent.Some?;
    AnswerNonEmpty(remote.generate(sent.value));
    OrOfNonEmpty(upscaled.image, first.image);
    OrOfNonEmpty(upscaled.text, first.text);
  }

  /** When the edit returns no image, the upscale service is never called and
      the attempt ends with the "no image" error. */
  lemma NoImageNoUpscale(f: Form, fullPrompt: string, remote: Remote, now: int, objectUrl: File -> string,
                         first: Generated)
    requires |f.characterFiles| > 0
    requires Answer(remote.generate(RequestParts(fullPrompt, f.characterFiles, f.outfit, f.place, f.pose))) == Resolved(first)
    requires !Truthy(first.image)
    ensures var c := ImageAttempt(f, fullPrompt, remote, now, objectUrl);
      && c.calls == [EditImageCall(RequestParts(fullPrompt, f.characterFiles, f.outfit, f.place, f.pose))]
      && c.error == Some(NoImage) && c.entry.status == Censored
  {
  }

  /** A video-mode attempt makes exactly one call, handing over the prompt as
      typed and the first character image. A success shows the video and
      records it as 'Sinister Animation'; an error records a censored video
      entry showing the first character image. */
  lemma VideoAttemptOutcome(f: Form, remote: Remote, now: int, objectUrl: File -> string)
    requires f.mode == ImageToVideo && |f.characterFiles| > 0 && PollingEnds(remote.video)
    ensures var c := VideoAttempt(f, remote, now, objectUrl);
      var source := f.characterFiles[0];
      && c.calls == [GenerateVideoCall(VideoJob(f.prompt, source.base64, source.mimeType, 1))]
      && c.entry.id == now && c.entry.kind == VideoResult && c.resultImage.None? && c.resultText.None?
      && (c.error.None? <==> c.entry.status == Success)
      && (c.error.None? ==> c.resultVideoUrl.Some? && c.entry.url == c.resultVideoUrl && c.entry.text == Some(SinisterAnimation))
      && (c.error.Some? ==>
            && c.error.value != "" && c.resultVideoUrl.None?
            && c.entry.url == Some(objectUrl(source.file)) && c.entry.text == Some(OriginalMaterial))
  {
    var run := RunVideo(remote.video, remote.fetch, remote.apiKey);
    if run.result.Rejected? {
      ErrorMessageShown(run.result.message);
    }
  }

  /** How a submitted generation ends, in either mode. The entry carries the
      clock's value and the mode's result type; it is a success exactly when
      no error is shown. A success records the image or video it shows; an
      error shows a non-empty message and no result, and its censored entry
      shows the first character image as 'Original Material'. In image mode
      the first call is the edit request carrying the composed instruction;
      in video mode the only call hands over the prompt as typed. */
  lemma AttemptOutcome(f: Form, remote: Remote, w: Wording, now: int, objectUrl: File -> string)
    requires Submittable(f) && (f.mode == ImageToVideo ==> PollingEnds(remote.video))
    ensures var c := Attempt(f, remote, w, now, objectUrl);
      && c.entry.id == now && c.entry.kind == Kind(f.mode)
      && (c.error.None? <==> c.entry.status == Success)
      && (c.error.None? ==>
            c.entry.url.Some? && c.entry.url == (if f.mode == ImageToImage then c.resultImage else c.resultVideoUrl))
      && (c.error.Some? ==>
            && c.error.value != "" && c.resultImage.None? && c.resultText.None? && c.resultVideoUrl.None?
            && c.entry.url == Some(objectUrl(f.characterFiles[0].file)) && c.entry.text == Some(OriginalMaterial))
      && (f.mode == ImageToImage ==>
            c.calls[0] == EditImageCall(RequestParts(FullPrompt(f, w), f.characterFiles, f.outfit, f.place, f.pose)))
      && (f.mode == ImageToVideo ==>
            c.calls == [GenerateVideoCall(VideoJob(f.prompt, f.characterFiles[0].base64, f.characterFiles[0].mimeType, 1))])
  {
    if f.mode == ImageToImage {
      ImageAttemptOutcome(f, FullPrompt(f, w), remote, now, objectUrl);
    } else {
      VideoAttemptOutcome(f, remote, now, objectUrl);
    }
  }

  /** In video mode only the prompt as typed and the first character image
      reach the service: the composition and negative texts, the optional
      references, the other character images and the instruction's wording
      change nothing about the attempt. */
  lemma VideoIgnoresImageOptions(f: Form, g: Form, remote: Remote, w1: Wording, w2: Wording,
                                 now: int, objectUrl: File -> string)
    requires f.mode == ImageToVideo && g.mode == ImageToVideo && PollingEnds(remote.video)
    requires Submittable(f) && Submittable(g)
    requires f.prompt == g.prompt && f.characterFiles[0] == g.characterFiles[0]
    ensures Attempt(f, remote, w1, now, objectUrl) == Attempt(g, remote, w2, now, objectUrl)
  {
  }

  /** Every block of a composed instruction is the fidelity protocol, a role
      block, the final instructions, the raw prompt or a suffix; the role
      blocks are those of the assigned indices. */
  lemma ComposedRoleBlocks(f: Form)
    requires f.mode == ImageToImage
    ensures var n := |f.characterFiles|;
      var ix := AssignIndices(n, f.outfit.Some?, f.place.Some?, f.pose.Some?);
      var blocks := ComposedBlocks(f.mode, f.prompt, f.characterFiles, f.outfit, f.place, f.pose, f.composition, f.negative);
      && blocks[0] == Fidelity(n)
      && (forall b :: b in blocks && (b.OutfitRole? || b.PlaceRole? || b.PoseRole?) ==> b in RoleBlocks(ix, n))
      && (forall b :: b in RoleBlocks(ix, n) ==> b in blocks)
  {
    var n := |f.characterFiles|;
    var ix := AssignIndices(n, f.outfit.Some?, f.place.Some?, f.pose.Some?);
    var roles := RoleBlocks(ix, n);
    var sfx := Suffixes(f.composition, f.negative);
    var blocks := ComposedBlocks(f.mode, f.prompt, f.characterFiles, f.outfit, f.place, f.pose, f.composition, f.negative);
    assert blocks == [Fidelity(n)] + roles + [FinalInstructions(f.prompt)] + sfx;
    forall b | b in sfx ensures b.Composition? || b.Exclusion? {
    }
  }

  /** The assigned indices against the request: an index is assigned to a
      reference exactly when it is present, and it is the position, counting
      from 1, of that reference's image among the parts. */
  lemma AssignedIndicesNameTheirImages(f: Form, instruction: string)
    ensures var n := |f.characterFiles|;
      var ix := AssignIndices(n, f.outfit.Some?, f.place.Some?, f.pose.Some?);
      var parts := RequestParts(instruction, f.characterFiles, f.outfit, f.place, f.pose);
      && (ix.outfit.Some? <==> f.outfit.Some?) && (ix.place.Some? <==> f.place.Some?) && (ix.pose.Some? <==> f.pose.Some?)
      && (ix.outfit.Some? ==>
            n < ix.outfit.value < |parts| && parts[ix.outfit.value - 1] == ImagePartOf(f.outfit.value))
      && (ix.place.Some? ==>
            n < ix.place.value < |parts| && parts[ix.place.value - 1] == ImagePartOf(f.place.value))
      && (ix.pose.Some? ==>
            n < ix.pose.value < |parts| && parts[ix.pose.value - 1] == ImagePartOf(f.pose.value))
  {
    RequestPartsLayout(instruction, f.characterFiles, f.outfit, f.place, f.pose);
  }

  /** Any block sequence whose role blocks are those of the assigned indices
      names, in each of its role blocks, the part holding that reference's image. */
  lemma RolesNameTheirImages(f: Form, instruction: string, blocks: seq<Block>)
    requires var n := |f.characterFiles|;
      forall b :: b in blocks && (b.OutfitRole? || b.PlaceRole? || b.PoseRole?) ==>
        b in RoleBlocks(AssignIndices(n, f.outfit.Some?, f.place.Some?, f.pose.Some?), n)
    ensures var n := |f.characterFiles|;
      var parts := RequestParts(instruction, f.characterFiles, f.outfit, f.place, f.pose);
      && (forall b :: b in blocks && b.OutfitRole? ==>
            f.outfit.Some? && n < b.index < |parts| && parts[b.index - 1] == ImagePartOf(f.outfit.value))
      && (forall b :: b in blocks && b.PlaceRole? ==>
            f.place.Some? && n < b.index < |parts| && parts[b.index - 1] == ImagePartOf(f.place.value))
      && (forall b :: b in blocks && b.PoseRole? ==>
            && f.pose.Some? && b.subjects == n
            && n < b.index < |parts| && parts[b.index - 1] == ImagePartOf(f.pose.value))
  {
    var n := |f.characterFiles|;
    var ix := AssignIndices(n, f.outfit.Some?, f.place.Some?, f.pose.Some?);
    var roles := RoleBlocks(ix, n);
    var parts := RequestParts(instruction, f.characterFiles, f.outfit, f.place, f.pose);
    RoleBlocksNameTheirIndices(ix, n);
    AssignedIndicesNameTheirImages(f, instruction);
    forall b | b in blocks && b.OutfitRole?
      ensures f.outfit.Some? && n < b.index < |parts| && parts[b.index - 1] == ImagePartOf(f.outfit.value)
    {
      assert b in roles;
    }
    forall b | b in blocks && b.PlaceRole?
      ensures f.place.Some? && n < b.index < |parts| && parts[b.index - 1] == ImagePartOf(f.place.value)
    {
      assert b in roles;
    }
    forall b | b in blocks && b.PoseRole?
      ensures f.pose.Some? && b.subjects == n && n < b.index < |parts| && parts[b.index - 1] == ImagePartOf(f.pose.value)
    {
      assert b in roles;
    }
  }

  /** The key invariant between the instruction and the request: each image
      number the image-mode instruction names is the position, counting from 1,
      of that very image among the parts `editImage` sends. The n character
      images are parts 1..n in order; an outfit, place or pose block names the
      part holding that reference's image, after the character images and
      before the text; the pose block speaks of the n character images. */
  lemma IndicesNameTheirImages(f: Form, instruction: string)
    requires f.mode == ImageToImage
    ensures var n := |f.characterFiles|;
      var blocks := ComposedBlocks(f.mode, f.prompt, f.characterFiles, f.outfit, f.place, f.pose, f.composition, f.negative);
      var parts := RequestParts(instruction, f.characterFiles, f.outfit, f.place, f.pose);
      && blocks[0] == Fidelity(n) && n < |parts|
      && (forall i :: 0 <= i < n ==> parts[i] == ImagePartOf(f.characterFiles[i]))
      && (forall b :: b in blocks && b.OutfitRole? ==>
            f.outfit.Some? && n < b.index < |parts| && parts[b.index - 1] == ImagePartOf(f.outfit.value))
      && (forall b :: b in blocks && b.PlaceRole? ==>
            f.place.Some? && n < b.index < |parts| && parts[b.index - 1] == ImagePartOf(f.place.value))
      && (forall b :: b in blocks && b.PoseRole? ==>
            && f.pose.Some? && b.subjects == n
            && n < b.index < |parts| && parts[b.index - 1] == ImagePartOf(f.pose.value))
      && parts[|parts| - 1] == TextPart(instruction)
  {
    var blocks := ComposedBlocks(f.mode, f.prompt, f.characterFiles, f.outfit, f.place, f.pose, f.composition, f.negative);
    ComposedRoleBlocks(f);
    RolesNameTheirImages(f, instruction, blocks);
    RequestPartsLayout(instruction, f.characterFiles, f.outfit, f.place, f.pose);
  }

  /** An outfit, place or pose block is in the image-mode instruction exactly
      when that reference is present. */
  lemma RoleBlocksPresent(f: Form)
    requires f.mode == ImageToImage
    ensures var blocks := ComposedBlocks(f.mode, f.prompt, f.characterFiles, f.outfit, f.place, f.pose, f.composition, f.negative);
      && (f.outfit.Some? <==> exists b :: b in blocks && b.OutfitRole?)
      && (f.place.Some? <==> exists b :: b in blocks && b.PlaceRole?)
      && (f.pose.Some? <==> exists b :: b in blocks && b.PoseRole?)
  {
    var n := |f.characterFiles|;
    var ix := AssignIndices(n, f.outfit.Some?, f.place.Some?, f.pose.Some?);
    var blocks := ComposedBlocks(f.mode, f.prompt, f.characterFiles, f.outfit, f.place, f.pose, f.composition, f.negative);
    ComposedRoleBlocks(f);
    RoleBlocksNameTheirIndices(ix, n);
    if f.outfit.Some? {
      assert OutfitRole(ix.outfit.value) in blocks;
    }
    if f.place.Some? {
      assert PlaceRole(ix.place.value) in blocks;
    }
    if f.pose.Some? {
      assert PoseRole(ix.pose.value, n) in blocks;
    }
  }

  /** The page's state. */
  class App {
    /** The wording the instruction is composed with (`PromptComposer.Words` in the application). */
    const wording: Wording

    var appMode: AppMode
    var characterFiles: seq<UploadedFile>
    var outfitReferenceFile: Option<UploadedFile>
    var placeReferenceFile: Option<UploadedFile>
    var poseReferenceFile: Option<UploadedFile>
    var prompt: string
    var poseAndComposition: string
    var negativePrompt: string
    var isLoading: bool
    var loadingMessage: string
    var error: Option<string>
    var resultImage: Option<string>
    var resultVideoUrl: Option<string>
    var resultText: Option<string>
    var history: seq<GenerationResult>

    /** The form fields `handleGenerate` reads. */
    function FormState(): Form
      reads this
    {
      Form(appMode, characterFiles, outfitReferenceFile, placeReferenceFile, poseReferenceFile,
           prompt, poseAndComposition, negativePrompt)
    }

    /** The initial state of every `useState`. */
    constructor(wording: Wording)
      ensures this.wording == wording
      ensures FormState() == Form(ImageToImage, [], None, None, None, "", "", "")
      ensures !isLoading && loadingMessage == ""
      ensures Cleared() && history == []
    {
      this.wording := wording;
      appMode := ImageToImage;
      characterFiles := [];
      outfitReferenceFile, placeReferenceFile, poseReferenceFile := None, None, None;
      prompt, poseAndComposition, negativePrompt := "", "", "";
      isLoading, loadingMessage := false, "";
      error, resultImage, resultVideoUrl, resultText := None, None, None, None;
      history := [];
    }

    /** No result is shown: the state `resetResults` leaves. */
    predicate Cleared()
      reads this
    {
      error.None? && resultImage.None? && resultVideoUrl.None? && resultText.None?
    }

    /** `resetResults`. */
    method ResetResults()
      modifies this`error, this`resultImage, this`resultVideoUrl, this`resultText
      ensures Cleared()
      ensures FormState() == old(FormState()) && isLoading == old(isLoading)
      ensures loadingMessage == old(loadingMessage) && history == old(history)
    {
      error, resultImage, resultVideoUrl, resultText := None, None, None, None;
    }

    /** `handleGenerate`. An incomplete form only sets the error, and no service
        is called. Otherwise the attempt runs to its end: the result fields are
        those of `Attempt`, its entry is prepended to the history, `calls` are
        the service calls it made, and the loading flag and message are
        cleared. The form is never changed. */
    method HandleGenerate(remote: Remote, now: int, objectUrl: File -> string) returns (ghost calls: seq<ServiceCall>)
      modifies this`error, this`resultImage, this`resultText, this`resultVideoUrl
      modifies this`history, this`isLoading, this`loadingMessage
      requires Submittable(FormState()) && appMode == ImageToVideo ==> PollingEnds(remote.video)
      ensures !Submittable(old(FormState())) ==>
        && error == Some(MissingInput) && calls == []
        && resultImage == old(resultImage) && resultVideoUrl == old(resultVideoUrl) && resultText == old(resultText)
        && isLoading == old(isLoading) && loadingMessage == old(loadingMessage) && history == old(history)
      ensures Submittable(old(FormState())) ==>
        var c := Attempt(old(FormState()), remote, wording, now, objectUrl);
        && error == c.error && resultImage == c.resultImage
        && resultText == c.resultText && resultVideoUrl == c.resultVideoUrl
        && history == [c.entry] + old(history) && calls == c.calls
        && !isLoading && loadingMessage == ""
    {
      if prompt == "" || |characterFiles| == 0 {
        error := Some(MissingInput);
        calls := [];
        return;
      }
      isLoading := true;
      ResetResults();
      var c := Generate(FormState(), wording, remote, now, objectUrl);
      Show(c);
      calls := c.calls;
    }

    /** The state an attempt leaves behind: its error and results on display,
        its entry at the head of the history, and no longer loading. */
    method Show(c: Completion)
      modifies this`error, this`resultImage, this`resultText, this`resultVideoUrl
      modifies this`history, this`isLoading, this`loadingMessage
      ensures error == c.error && resultImage == c.resultImage
      ensures resultText == c.resultText && resultVideoUrl == c.resultVideoUrl
      ensures history == [c.entry] + old(history)
      ensures !isLoading && loadingMessage == ""
    {
      error, resultImage, resultText, resultVideoUrl, history, isLoading, loadingMessage :=
        c.error, c.resultImage, c.resultText, c.resultVideoUrl, [c.entry] + history, false, "";
    }

    /** `handleModeChange`: switch mode and clear the results; leaving image
        mode also drops the optional references and the composition text. */
    method HandleModeChange(newMode: AppMode)
      modifies this`appMode, this`error, this`resultImage, this`resultVideoUrl, this`resultText
      modifies this`outfitReferenceFile, this`placeReferenceFile, this`poseReferenceFile, this`poseAndComposition
      ensures appMode == newMode && Cleared()
      ensures newMode != ImageToImage ==>
        && outfitReferenceFile.None? && placeReferenceFile.None? && poseReferenceFile.None?
        && poseAndComposition == ""
      ensures newMode == ImageToImage ==>
        && outfitReferenceFile == old(outfitReferenceFile) && placeReferenceFile == old(placeReferenceFile)
        && poseReferenceFile == old(poseReferenceFile) && poseAndComposition == old(poseAndComposition)
    {
      appMode := newMode;
      ResetResults();
      if newMode != ImageToImage {
        outfitReferenceFile := None;
        placeReferenceFile := None;
        poseReferenceFile := None;
        poseAndComposition := "";
      }
    }

    /** The history's "Banish All" button: `setHistory([])`. */
    method ClearHistory()
      modifies this`history
      ensures history == []
    {
      history := [];
    }
  }
}

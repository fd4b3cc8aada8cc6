/** Composition of the instruction sent with an image edit (the part of
    `handleGenerate` that builds `fullPrompt`): 1-based image indices in role
    order, a fidelity protocol naming the subject images, one block per
    optional reference naming its index, the user's instructions, and the
    optional composition and exclusion suffixes.

    The composed text is described by its structure: a sequence of `Block`s,
    each rendered by `Text` from the fixed `Wording`. The structural facts
    below hold whatever the wording; `Words` is the application's own. */
module PromptComposer {
  import opened Js
  import opened Types

  /** The pieces the composed instruction is made of, in the order they are written. */
  datatype Block =
    | Fidelity(subjects: nat)                 // face fidelity protocol and mission brief head, naming images 1..subjects
    | OutfitRole(index: nat)                  // outfit reference block, naming its image
    | PlaceRole(index: nat)                   // place/background reference block, naming its image
    | PoseRole(index: nat, subjects: nat)     // pose reference block, naming its image and the subject images
    | FinalInstructions(prompt: string)       // the closing directive, ending with the user's prompt verbatim
    | RawPrompt(prompt: string)               // the user's prompt alone (video mode)
    | Composition(text: string)               // the pose and composition suffix
    | Exclusion(text: string)                 // the negative prompt suffix

  /** The fixed phrases the blocks are written with. */
  datatype Wording = Wording(
    fidelityOpening: string,    // up to "(Image" in the fidelity protocol
    fidelityMiddle: string,     // from ")." after the subject list up to "- Image" in the mission brief
    fidelityClosing: string,    // " are the **SUBJECT CHARACTER**. ..."
    roleLead: string,           // "- Image "
    outfitBody: string,         // the outfit replication mandate
    placeBody: string,          // the background and lighting instruction
    poseHead: string,           // the pose mandate, up to "defined by Image(s) "
    poseExclusionLead: string,  // up to "DISCARD the following from Image "
    poseTail: string,           // the list of things not to copy from the pose image
    finalLead: string,          // the closing directive, just before the user's prompt
    compositionLead: string,    // " --- POSE & COMPOSITION: "
    exclusionLead: string)      // " --- DO NOT INCLUDE THE FOLLOWING: "

  /** The wording of the blocks as the application writes it. */
  const Words := Wording(
    "Your mission is to forge a new, unique image with the highest possible fidelity to the source character's face. You are given multiple reference images. It is CRITICAL to synthesize these into a coherent, new piece of art and not simply copy one of them.\n\n**CRITICAL INSTRUCTION: FACE FIDELITY PROTOCOL**\n- You are provided with several images of the same character (Image",
    ").\n- Study these images carefully. The facial structure, features (eyes, nose, mouth), and unique details are your primary reference.\n- The face in your generated image MUST be a highly accurate and consistent representation of this character. This is the most important part of your task. Do not change the character's identity.\n\n**MISSION BRIEF:**\n- Image",
    " are the **SUBJECT CHARACTER**. Use them to understand the character's appearance, especially the face.\n",
    "- Image ",
    " is the **OUTFIT REFERENCE**. **OUTFIT REPLICATION MANDATE:** Your task is to take the complete outfit\U{2014}including all clothes, garments, and accessories\U{2014}from this image and accurately dress the subject character in it. Replicate the style, color, design, and details of the clothing and any accessories precisely. IGNORE the person wearing the outfit in the reference; transfer ONLY the garments.\n",
    " is the **PLACE/BACKGROUND REFERENCE**. The final scene's environment must match the style, mood, and elements of this image. **CRITICAL LIGHTING INSTRUCTION:** Pay close attention to the lighting conditions, color temperature, and shadow direction in this background image. The lighting on the subject character MUST be adjusted to match the environment perfectly, creating a natural and believable composite. Integrate the subject seamlessly into this new background.\n",
    " is the **POSE REFERENCE**. **CRITICAL POSE REPLICATION MANDATE (CONTROLNET SIMULATION):**\n  - This image provides ONLY the anatomical pose for the subject character. Treat it as a structural guide, like a ControlNet reference or a digital mannequin.\n  - Your SOLE TASK for this image is to extract the body position, posture, and limb arrangement of the figure.\n  - You MUST apply this exact pose to the subject character defined by Image(s) ",
    ".\n  - **IT IS ABSOLUTELY FORBIDDEN TO COPY ANYTHING ELSE FROM THE POSE REFERENCE.** You MUST completely IGNORE and DISCARD the following from Image ",
    ":\n    - The person/character's identity, face, and body type.\n    - ALL clothing, outfits, and garments.\n    - ALL accessories (e.g., hats, jewelry, weapons).\n    - The lighting, shadows, and color scheme.\n    - The background and any environmental elements.\n  - The purpose of this image is structural and anatomical ONLY. Replicate the pose and nothing else.\n",
    "Combine all these elements into a single, cohesive, and new masterpiece. Finally, apply the following specific user instructions to the combined image: ",
    " --- POSE & COMPOSITION: ",
    " --- DO NOT INCLUDE THE FOLLOWING: ")

  /** "s" after "Image" exactly when there is more than one subject image. */
  function Plural(n: nat): string {
    if n > 1 then "s" else ""
  }

  /** The subject image indices "1, 2, ..., n". */
  function IndexList(n: nat): string {
    if n == 0 then "" else if n == 1 then "1" else IndexList(n - 1) + ", " + NatToString(n)
  }

  /** The numbers 1..n as decimal strings (`characterFiles.map((_, i) => i + 1)`). */
  function Numbers(n: nat): seq<string> {
    seq(n, i requires 0 <= i < n => NatToString(i + 1))
  }

  /** The index list is the numbers 1..n joined with ", ", as the application
      writes it. */
  lemma {:induction false} IndexListIsJoin(n: nat)
    ensures IndexList(n) == Join(Numbers(n), ", ")
  {
    if n == 1 {
      assert NatToString(1) == "1";
    } else if n > 1 {
      IndexListIsJoin(n - 1);
      assert Numbers(n)[..n - 1] == Numbers(n - 1);
    }
  }

  /** The words of one block. */
  function Text(b: Block, w: Wording): string {
    match b
    case Fidelity(n) =>
      w.fidelityOpening + Plural(n) + " " + IndexList(n) + w.fidelityMiddle + Plural(n) + " " + IndexList(n) + w.fidelityClosing
    case OutfitRole(k) => w.roleLead + NatToString(k) + w.outfitBody
    case PlaceRole(k) => w.roleLead + NatToString(k) + w.placeBody
    case PoseRole(k, n) =>
      w.roleLead + NatToString(k) + w.poseHead + IndexList(n) + w.poseExclusionLead + NatToString(k) + w.poseTail
    case FinalInstructions(p) => w.finalLead + p
    case RawPrompt(p) => p
    case Composition(c) => w.compositionLead + c
    case Exclusion(x) => w.exclusionLead + x
  }

  /** Strings written one after the other. */
  function Concat(ts: seq<string>): string {
    if ts == [] then "" else ts[0] + Concat(ts[1..])
  }

  lemma {:induction false} ConcatAppend(a: seq<string>, b: seq<string>)
    ensures Concat(a + b) == Concat(a) + Concat(b)
  {
    if a == [] {
      assert a + b == b;
    } else {
      assert (a + b)[0] == a[0];
      assert (a + b)[1..] == a[1..] + b;
      ConcatAppend(a[1..], b);
    }
  }

  /** The texts of a sequence of blocks. */
  function Texts(bs: seq<Block>, w: Wording): seq<string> {
    seq(|bs|, i requires 0 <= i < |bs| => Text(bs[i], w))
  }

  lemma TextsAppend(a: seq<Block>, b: seq<Block>, w: Wording)
    ensures Texts(a + b, w) == Texts(a, w) + Texts(b, w)
  {
    forall i | 0 <= i < |a + b|
      ensures Texts(a + b, w)[i] == (Texts(a, w) + Texts(b, w))[i]
    {
      if i < |a| {
        assert (a + b)[i] == a[i];
      } else {
        assert (a + b)[i] == b[i - |a|];
      }
    }
  }

  /** The text of a sequence of blocks, one after the other. */
  function Render(bs: seq<Block>, w: Wording): string {
    Concat(Texts(bs, w))
  }

  lemma RenderAppend(a: seq<Block>, b: seq<Block>, w: Wording)
    ensures Render(a + b, w) == Render(a, w) + Render(b, w)
  {
    TextsAppend(a, b, w);
    ConcatAppend(Texts(a, w), Texts(b, w));
  }

  lemma RenderEmpty(w: Wording)
    ensures Render([], w) == ""
  {
    assert Texts([], w) == [];
  }

  lemma RenderSingle(b: Block, w: Wording)
    ensures Render([b], w) == Text(b, w)
  {
    assert Texts([b], w) == [Text(b, w)];
    assert Concat([Text(b, w)]) == Text(b, w) + Concat([]);
  }

  lemma RenderSnoc(bs: seq<Block>, b: Block, w: Wording)
    ensures Render(bs + [b], w) == Render(bs, w) + Text(b, w)
  {
    RenderAppend(bs, [b], w);
    RenderSingle(b, w);
  }

  lemma RenderCons(b: Block, bs: seq<Block>, w: Wording)
    ensures Render([b] + bs, w) == Text(b, w) + Render(bs, w)
  {
    RenderAppend([b], bs, w);
    RenderSingle(b, w);
  }

  /** The indices given to the optional references. */
  datatype RoleIndices = RoleIndices(outfit: Option<nat>, place: Option<nat>, pose: Option<nat>)

  /** Subject images take 1..n; each present optional reference takes the next
      number, in the order outfit, place, pose. */
  function AssignIndices(n: nat, hasOutfit: bool, hasPlace: bool, hasPose: bool): RoleIndices {
    RoleIndices(
      if hasOutfit then Some(n + 1) else None,
      if hasPlace then Some(n + 1 + Count(hasOutfit)) else None,
      if hasPose then Some(n + 1 + Count(hasOutfit) + Count(hasPlace)) else None)
  }

  /** The indices of the present optional references, in role order. */
  function PresentIndices(ix: RoleIndices): seq<nat> {
    (if ix.outfit.Some? then [ix.outfit.value] else [])
    + (if ix.place.Some? then [ix.place.value] else [])
    + (if ix.pose.Some? then [ix.pose.value] else [])
  }

  /** The present optional indices run consecutively from n + 1 and exist
      exactly for the present references; so none is 0, and a truthiness test
      on an index is a presence test. */
  lemma IndicesConsecutive(n: nat, hasOutfit: bool, hasPlace: bool, hasPose: bool)
    ensures var ix := AssignIndices(n, hasOutfit, hasPlace, hasPose);
      var present := PresentIndices(ix);
      && |present| == Count(hasOutfit) + Count(hasPlace) + Count(hasPose)
      && (forall i :: 0 <= i < |present| ==> present[i] == n + 1 + i)
      && (ix.outfit.Some? <==> hasOutfit) && (ix.place.Some? <==> hasPlace) && (ix.pose.Some? <==> hasPose)
      && (IndexTruthy(ix.outfit) <==> hasOutfit) && (IndexTruthy(ix.place) <==> hasPlace)
      && (IndexTruthy(ix.pose) <==> hasPose)
  {
  }

  /** The role blocks for the present references, in role order. */
  function RoleBlocks(ix: RoleIndices, subjects: nat): seq<Block> {
    (if ix.outfit.Some? then [OutfitRole(ix.outfit.value)] else [])
    + (if ix.place.Some? then [PlaceRole(ix.place.value)] else [])
    + (if ix.pose.Some? then [PoseRole(ix.pose.value, subjects)] else [])
  }

  /** The blocks of the prompt before the suffixes: in image mode the fidelity
      protocol, the present role blocks in role order, and the final
      instructions; in video mode the user's prompt alone. */
  function CoreBlocks(mode: AppMode, prompt: string, subjects: nat,
                      hasOutfit: bool, hasPlace: bool, hasPose: bool): seq<Block>
  {
    if mode == ImageToImage then
      [Fidelity(subjects)]
      + RoleBlocks(AssignIndices(subjects, hasOutfit, hasPlace, hasPose), subjects)
      + [FinalInstructions(prompt)]
    else [RawPrompt(prompt)]
  }

  /** The composition suffix if non-empty, then the exclusion suffix if non-empty. */
  function Suffixes(composition: string, negative: string): seq<Block> {
    (if composition != "" then [Composition(composition)] else [])
    + (if negative != "" then [Exclusion(negative)] else [])
  }

  function ComposedBlocks(mode: AppMode, prompt: string, characterFiles: seq<UploadedFile>,
                          outfit: Option<UploadedFile>, place: Option<UploadedFile>, pose: Option<UploadedFile>,
                          composition: string, negative: string): seq<Block>
  {
    CoreBlocks(mode, prompt, |characterFiles|, outfit.Some?, place.Some?, pose.Some?) + Suffixes(composition, negative)
  }

  /** JavaScript truthiness of a `number | null`. */
  predicate IndexTruthy(index: Option<nat>) {
    index.Some? && index.value != 0
  }

  /** The image-mode instruction `fidelityProtocol + missionBrief +
      finalInstructions`, built the way `handleGenerate` does: a running image
      counter hands out the reference indices, and the mission brief grows by
      one block per truthy index. */
  method ComposeImageInstruction(prompt: string, characterFiles: seq<UploadedFile>,
                                 outfitReferenceFile: Option<UploadedFile>, placeReferenceFile: Option<UploadedFile>,
                                 poseReferenceFile: Option<UploadedFile>, w: Wording)
    returns (instruction: string)
    ensures instruction == Render(CoreBlocks(ImageToImage, prompt, |characterFiles|, outfitReferenceFile.Some?,
                                             placeReferenceFile.Some?, poseReferenceFile.Some?), w)
  {
    var n := |characterFiles|;
    var imageCounter := n;
    var outfitImageIndex: Option<nat> := None;
    if outfitReferenceFile.Some? {
      imageCounter := imageCounter + 1;
      outfitImageIndex := Some(imageCounter);
    }
    var placeImageIndex: Option<nat> := None;
    if placeReferenceFile.Some? {
      imageCounter := imageCounter + 1;
      placeImageIndex := Some(imageCounter);
    }
    var poseImageIndex: Option<nat> := None;
    if poseReferenceFile.Some? {
      imageCounter := imageCounter + 1;
      poseImageIndex := Some(imageCounter);
    }
    ghost var ix := RoleIndices(outfitImageIndex, placeImageIndex, poseImageIndex);
    assert ix == AssignIndices(n, outfitReferenceFile.Some?, placeReferenceFile.Some?, poseReferenceFile.Some?);

    ghost var outfitPart := if outfitImageIndex.Some? then [OutfitRole(outfitImageIndex.value)] else [];
    ghost var placePart := if placeImageIndex.Some? then [PlaceRole(placeImageIndex.value)] else [];
    ghost var posePart := if poseImageIndex.Some? then [PoseRole(poseImageIndex.value, n)] else [];
    var missionBrief := "";
    RenderEmpty(w);
    if IndexTruthy(outfitImageIndex) {
      RenderSnoc([], OutfitRole(outfitImageIndex.value), w);
      assert [] + [OutfitRole(outfitImageIndex.value)] == outfitPart;
      missionBrief := missionBrief + Text(OutfitRole(outfitImageIndex.value), w);
      assert missionBrief == Text(OutfitRole(outfitImageIndex.value), w);
    }
    assert missionBrief == Render(outfitPart, w);
    if IndexTruthy(placeImageIndex) {
      RenderSnoc(outfitPart, PlaceRole(placeImageIndex.value), w);
      missionBrief := missionBrief + Text(PlaceRole(placeImageIndex.value), w);
    } else {
      assert outfitPart + placePart == outfitPart;
    }
    assert missionBrief == Render(outfitPart + placePart, w);
    if IndexTruthy(poseImageIndex) {
      RenderSnoc(outfitPart + placePart, PoseRole(poseImageIndex.value, n), w);
      missionBrief := missionBrief + Text(PoseRole(poseImageIndex.value, n), w);
    } else {
      assert outfitPart + placePart + posePart == outfitPart + placePart;
    }
    ghost var roles := outfitPart + placePart + posePart;
    assert missionBrief == Render(roles, w);

    var fidelityProtocol := Text(Fidelity(n), w);
    var finalInstructions := Text(FinalInstructions(prompt), w);
    instruction := fidelityProtocol + missionBrief + finalInstructions;
    RenderCons(Fidelity(n), roles, w);
    RenderSnoc([Fidelity(n)] + roles, FinalInstructions(prompt), w);
  }

  /** Builds `fullPrompt` the way `handleGenerate` does: the prompt itself, or
      in image mode the composed instruction, then each non-empty suffix. */
  method ComposeFullPrompt(appMode: AppMode, prompt: string, characterFiles: seq<UploadedFile>,
                           outfitReferenceFile: Option<UploadedFile>, placeReferenceFile: Option<UploadedFile>,
                           poseReferenceFile: Option<UploadedFile>, poseAndComposition: string,
                           negativePrompt: string, w: Wording)
    returns (fullPrompt: string)
    ensures fullPrompt == Render(ComposedBlocks(appMode, prompt, characterFiles, outfitReferenceFile,
                                                placeReferenceFile, poseReferenceFile, poseAndComposition,
                                                negativePrompt), w)
  {
    ghost var core := CoreBlocks(appMode, prompt, |characterFiles|, outfitReferenceFile.Some?,
                                 placeReferenceFile.Some?, poseReferenceFile.Some?);
    fullPrompt := prompt;
    if appMode == ImageToImage {
      fullPrompt := ComposeImageInstruction(prompt, characterFiles, outfitReferenceFile, placeReferenceFile,
                                            poseReferenceFile, w);
    } else {
      RenderCons(RawPrompt(prompt), [], w);
      RenderEmpty(w);
      assert core == [RawPrompt(prompt)] + [];
    }
    assert fullPrompt == Render(core, w);
    if poseAndComposition != "" {
      fullPrompt := fullPrompt + Text(Composition(poseAndComposition), w);
    }
    if negativePrompt != "" {
      fullPrompt := fullPrompt + Text(Exclusion(negativePrompt), w);
    }
    RenderSuffixes(core, poseAndComposition, negativePrompt, w);
  }

  /** Each role block names the index assigned to its role, the pose block
      also the number of subject images, and each assigned index has its block. */
  lemma RoleBlocksNameTheirIndices(ix: RoleIndices, subjects: nat)
    ensures var roles := RoleBlocks(ix, subjects);
      && (forall b :: b in roles && b.OutfitRole? ==> ix.outfit == Some(b.index))
      && (forall b :: b in roles && b.PlaceRole? ==> ix.place == Some(b.index))
      && (forall b :: b in roles && b.PoseRole? ==> ix.pose == Some(b.index) && b.subjects == subjects)
      && (ix.outfit.Some? ==> OutfitRole(ix.outfit.value) in roles)
      && (ix.place.Some? ==> PlaceRole(ix.place.value) in roles)
      && (ix.pose.Some? ==> PoseRole(ix.pose.value, subjects) in roles)
  {
  }

  /** Rendering the suffixes after a core appends the composition text when it
      is non-empty, then the exclusion text when it is non-empty. */
  lemma RenderSuffixes(core: seq<Block>, composition: string, negative: string, w: Wording)
    ensures var withComposition := if composition != "" then Render(core, w) + Text(Composition(composition), w)
                                   else Render(core, w);
      Render(core + Suffixes(composition, negative), w)
        == if negative != "" then withComposition + Text(Exclusion(negative), w) else withComposition
  {
    var compositionPart := if composition != "" then [Composition(composition)] else [];
    var exclusionPart := if negative != "" then [Exclusion(negative)] else [];
    assert core + Suffixes(composition, negative) == core + compositionPart + exclusionPart;
    if composition != "" {
      RenderSnoc(core, Composition(composition), w);
    } else {
      assert core + compositionPart == core;
    }
    if negative != "" {
      RenderSnoc(core + compositionPart, Exclusion(negative), w);
    } else {
      assert core + compositionPart + exclusionPart == core + compositionPart;
    }
  }

  /** The core's layout in image mode: the fidelity protocol first, the final
      instructions last, and between them exactly one role block per present
      reference, in role order, each naming the next image index after the n
      subject images. */
  lemma ImageCoreLayout(prompt: string, n: nat, hasOutfit: bool, hasPlace: bool, hasPose: bool)
    ensures var core := CoreBlocks(ImageToImage, prompt, n, hasOutfit, hasPlace, hasPose);
      var o, p := Count(hasOutfit), Count(hasPlace);
      && |core| == o + p + Count(hasPose) + 2
      && core[0] == Fidelity(n)
      && core[|core| - 1] == FinalInstructions(prompt)
      && (hasOutfit ==> core[1] == OutfitRole(n + 1))
      && (hasPlace ==> core[1 + o] == PlaceRole(n + 1 + o))
      && (hasPose ==> core[1 + o + p] == PoseRole(n + 1 + o + p, n))
  {
  }

  /** The suffixes: the composition suffix exactly when it is non-empty, then
      the exclusion suffix exactly when it is non-empty. */
  lemma SuffixLayout(composition: string, negative: string)
    ensures var sfx := Suffixes(composition, negative);
      && |sfx| == Count(composition != "") + Count(negative != "")
      && (composition != "" ==> sfx[0] == Composition(composition))
      && (negative != "" ==> sfx[|sfx| - 1] == Exclusion(negative))
  {
  }

  /** `s` ends with `t`. */
  predicate EndsWith(s: string, t: string) {
    |t| <= |s| && s[|s| - |t|..] == t
  }

  lemma EndsWithConcat(a: string, b: string, t: string)
    requires EndsWith(b, t)
    ensures EndsWith(a + b, t)
  {
    assert (a + b)[|a + b| - |t|..] == b[|b| - |t|..];
  }

  /** A string that ends with `a + b` ends with `b`. */
  lemma EndsWithSuffix(s: string, a: string, b: string)
    requires EndsWith(s, a + b)
    ensures EndsWith(s, b)
  {
    assert s[|s| - |b|..] == (a + b)[|a|..];
  }

  /** A rendering ends with the text of its last block. */
  lemma EndsWithLastText(bs: seq<Block>, w: Wording)
    requires bs != []
    ensures EndsWith(Render(bs, w), Text(bs[|bs| - 1], w))
  {
    var last := bs[|bs| - 1];
    assert bs == bs[..|bs| - 1] + [last];
    RenderSnoc(bs[..|bs| - 1], last, w);
    var t := Text(last, w);
    assert t[|t| - |t|..] == t;
    EndsWithConcat(Render(bs[..|bs| - 1], w), t, t);
  }

  /** The composed instruction ends with the exclusion suffix when there is a
      negative prompt, else with the composition suffix when there is one, else
      with the user's prompt itself. */
  lemma ComposedEnding(mode: AppMode, prompt: string, characterFiles: seq<UploadedFile>,
                       outfit: Option<UploadedFile>, place: Option<UploadedFile>,
                       pose: Option<UploadedFile>, composition: string, negative: string, w: Wording)
    ensures EndsWith(Render(ComposedBlocks(mode, prompt, characterFiles, outfit, place, pose, composition, negative), w),
                     if negative != "" then w.exclusionLead + negative
                     else if composition != "" then w.compositionLead + composition
                     else prompt)
  {
    var bs := ComposedBlocks(mode, prompt, characterFiles, outfit, place, pose, composition, negative);
    EndsWithLastText(bs, w);
    if negative != "" {
      assert bs[|bs| - 1] == Exclusion(negative);
    } else if composition != "" {
      assert bs[|bs| - 1] == Composition(composition);
    } else if mode == ImageToImage {
      assert bs[|bs| - 1] == FinalInstructions(prompt);
      EndsWithSuffix(Render(bs, w), w.finalLead, prompt);
    } else {
      assert bs[|bs| - 1] == RawPrompt(prompt);
    }
  }

  /** "Image 1" for one subject image, "Images 1, 2" for two. */
  lemma IndexListWording()
    ensures Plural(1) == "" && IndexList(1) == "1"
    ensures Plural(2) == "s" && IndexList(2) == "1, 2"
  {
    assert NatToString(2) == "2";
  }
}

/** The skin texture compositor: the fixed geometry of the 64x64 Minecraft skin
    atlas and the three renders built from it (layered head avatar, flat head
    avatar, 2D body). The atlas is an already-decoded image; PNG decoding and
    encoding are not modelled. */
module SkinRenderer {
  import opened Results
  import opened Images

  // ---------------------------------------------------------------------------
  // Geometry table
  // ---------------------------------------------------------------------------

  /** Regions of the atlas read by the renderer. */
  const HeadArea := Rect(8, 8, 8, 8)
  const HeadOverlayArea := Rect(40, 8, 8, 8)
  const BodyArea := Rect(20, 20, 8, 12)
  const ArmRightArea := Rect(44, 20, 4, 12)
  const ArmLeftArea := Rect(36, 52, 4, 12)
  const LegRightArea := Rect(4, 20, 4, 12)
  const LegLeftArea := Rect(20, 52, 4, 12)

  const AtlasRegions := [HeadArea, HeadOverlayArea, BodyArea, ArmRightArea, ArmLeftArea, LegRightArea, LegLeftArea]

  /** The canonical atlas is 64 x 64. */
  const AtlasSide := 64

  /** Where each part is drawn on the 16 x 32 body canvas. */
  const LegLeftSpot := Rect(8, 20, 4, 12)
  const LegRightSpot := Rect(4, 20, 4, 12)
  const ArmLeftSpot := Rect(0, 8, 4, 12)
  const ArmRightSpot := Rect(12, 8, 4, 12)
  const BodySpot := Rect(4, 8, 8, 12)
  const HeadSpot := Rect(4, 0, 8, 8)

  /** The destinations in draw order. */
  const BodySpots := [LegLeftSpot, LegRightSpot, ArmLeftSpot, ArmRightSpot, BodySpot, HeadSpot]

  /** The atlas region drawn at each destination, in the same order. */
  const BodySources := [LegLeftArea, LegRightArea, ArmLeftArea, ArmRightArea, BodyArea, HeadArea]

  const CanvasWidth := 16
  const CanvasHeight := 32

  /** The avatars are resized from 8 x 8 to 128 x 128, the body from 16 x 32 to 160 x 320. */
  const AvatarSize := 128
  const AvatarScale := 16
  const BodyWidth := 160
  const BodyHeight := 320
  const BodyScale := 10

  /** Every region the renderer reads is a non-empty rectangle inside the
      canonical atlas; every destination lies inside the body canvas, has the
      size of the region drawn there, and no two destinations overlap. */
  lemma GeometryTable()
    ensures forall i | 0 <= i < |AtlasRegions| ::
      AtlasRegions[i].w > 0 && AtlasRegions[i].h > 0 && Within(AtlasRegions[i], AtlasSide, AtlasSide)
    ensures |BodySpots| == |BodySources|
    ensures forall i | 0 <= i < |BodySpots| ::
      && Within(BodySpots[i], CanvasWidth, CanvasHeight)
      && BodySpots[i].w == BodySources[i].w && BodySpots[i].h == BodySources[i].h
      && BodySources[i] in AtlasRegions
    ensures forall i, j | 0 <= i < j < |BodySpots| :: Disjoint(BodySpots[i], BodySpots[j])
  {
  }

  // ---------------------------------------------------------------------------
  // Head avatars
  // ---------------------------------------------------------------------------

  /** The head with the head overlay (hat layer) composited over it at (0, 0). */
  function HeadComposite(skin: Image, mix: Mix): (r: Result<Image, ImageError>)
    ensures r.Success? <==> skin.width >= 48 && skin.height >= 16
    ensures r.Success? ==> r.value.width == 8 && r.value.height == 8
    ensures r.Success? ==> forall i: nat, j: nat | i < 8 && j < 8 ::
      At(r.value, i, j) == OverPixel(mix, At(skin, HeadArea.x + i, HeadArea.y + j),
                                          At(skin, HeadOverlayArea.x + i, HeadOverlayArea.y + j))
  {
    var head :- Extract(skin, HeadArea);
    var overlay :- Extract(skin, HeadOverlayArea);
    Success(Composite(mix, head, overlay, 0, 0))
  }

  /** The layered head avatar as the code builds it. The composite and the
      resize share one sharp pipeline, and sharp applies a resize before any
      composite in the same pipeline whatever order they are chained in: the
      head is upscaled to 128 x 128 first, and the 8 x 8 overlay is then laid,
      unscaled, over its top-left corner. */
  function RenderAvatar(skin: Image, mix: Mix): (r: Result<Image, ImageError>)
    ensures r.Success? <==> skin.width >= 48 && skin.height >= 16
    ensures r.Success? ==> r.value.width == AvatarSize && r.value.height == AvatarSize
  {
    var head :- Extract(skin, HeadArea);
    var overlay :- Extract(skin, HeadOverlayArea);
    Success(Composite(mix, Upscale(head, AvatarScale), overlay, 0, 0))
  }

  /** The layered head avatar the code evidently means: head and overlay
      composited at 8 x 8, and that composite upscaled to 128 x 128. */
  function RenderAvatarIntended(skin: Image, mix: Mix): (r: Result<Image, ImageError>)
    ensures r.Success? <==> skin.width >= 48 && skin.height >= 16
    ensures r.Success? ==> r.value.width == AvatarSize && r.value.height == AvatarSize
  {
    var avatar :- HeadComposite(skin, mix);
    Success(Upscale(avatar, AvatarScale))
  }

  /** The flat head avatar: the head alone, upscaled to 128 x 128. */
  function RenderAvatarNoLayer(skin: Image): (r: Result<Image, ImageError>)
    ensures r.Success? <==> skin.width >= 16 && skin.height >= 16
    ensures r.Success? ==> r.value.width == AvatarSize && r.value.height == AvatarSize
  {
    var head :- Extract(skin, HeadArea);
    Success(Upscale(head, AvatarScale))
  }

  /** As built, avatar pixel (x, y) is head-atlas pixel (8 + x/16, 8 + y/16),
      except in the top-left 8 x 8 corner, where overlay pixel (40 + x, 8 + y)
      lies over the single head pixel (8, 8) that the corner was enlarged from. */
  lemma AvatarPixels(skin: Image, mix: Mix)
    requires RenderAvatar(skin, mix).Success?
    ensures forall x: nat, y: nat | x < AvatarSize && y < AvatarSize ::
      At(RenderAvatar(skin, mix).value, x, y)
        == if x < 8 && y < 8 then OverPixel(mix, At(skin, 8, 8), At(skin, 40 + x, 8 + y))
           else At(skin, 8 + x / 16, 8 + y / 16)
  {
    var head := Extract(skin, HeadArea).value;
    var overlay := Extract(skin, HeadOverlayArea).value;
    var big := Upscale(head, AvatarScale);
    forall x: nat, y: nat | x < AvatarSize && y < AvatarSize
      ensures At(RenderAvatar(skin, mix).value, x, y)
        == if x < 8 && y < 8 then OverPixel(mix, At(skin, 8, 8), At(skin, 40 + x, 8 + y))
           else At(skin, 8 + x / 16, 8 + y / 16)
    {
      assert At(big, x, y) == At(head, x / 16, y / 16);
      assert At(RenderAvatar(skin, mix).value, x, y) == LayerPixel(mix, big, overlay, 0, 0, x, y);
    }
  }

  /** In the intended avatar, pixel (x, y) is head-atlas pixel
      (8 + x/16, 8 + y/16) with overlay pixel (40 + x/16, 8 + y/16) laid over it:
      each of the 64 head cells becomes a 16 x 16 block, hat included. */
  lemma IntendedAvatarPixels(skin: Image, mix: Mix)
    requires RenderAvatarIntended(skin, mix).Success?
    ensures forall x: nat, y: nat | x < AvatarSize && y < AvatarSize ::
      At(RenderAvatarIntended(skin, mix).value, x, y)
        == OverPixel(mix, At(skin, 8 + x / 16, 8 + y / 16), At(skin, 40 + x / 16, 8 + y / 16))
  {
    var hc := HeadComposite(skin, mix).value;
    forall x: nat, y: nat | x < AvatarSize && y < AvatarSize
      ensures At(RenderAvatarIntended(skin, mix).value, x, y)
        == OverPixel(mix, At(skin, 8 + x / 16, 8 + y / 16), At(skin, 40 + x / 16, 8 + y / 16))
    {
      assert At(RenderAvatarIntended(skin, mix).value, x, y) == At(hc, x / 16, y / 16);
    }
  }

  /** Each flat-avatar pixel (x, y) is head-atlas pixel (8 + x/16, 8 + y/16). */
  lemma AvatarNoLayerPixels(skin: Image)
    requires RenderAvatarNoLayer(skin).Success?
    ensures forall x: nat, y: nat | x < AvatarSize && y < AvatarSize ::
      At(RenderAvatarNoLayer(skin).value, x, y) == At(skin, 8 + x / 16, 8 + y / 16)
  {
    var head := Extract(skin, HeadArea).value;
    forall x: nat, y: nat | x < AvatarSize && y < AvatarSize
      ensures At(RenderAvatarNoLayer(skin).value, x, y) == At(skin, 8 + x / 16, 8 + y / 16)
    {
      assert At(RenderAvatarNoLayer(skin).value, x, y) == At(head, x / 16, y / 16);
    }
  }

  /** The overlay region of the atlas, cut out, keeps the alpha the atlas has there. */
  lemma OverlayAlpha(skin: Image, alpha: Channel)
    requires skin.width >= 48 && skin.height >= 16
    requires AlphaIs(skin, HeadOverlayArea, alpha)
    ensures AlphaIs(Extract(skin, HeadOverlayArea).value, Bounds(Extract(skin, HeadOverlayArea).value), alpha)
  {
    var overlay := Extract(skin, HeadOverlayArea).value;
    forall i: nat, j: nat | Contains(Bounds(overlay), i, j)
      ensures At(overlay, i, j).a == alpha
    {
      assert Contains(HeadOverlayArea, 40 + i, 8 + j);
    }
  }

  /** A fully transparent head overlay changes nothing: the layered avatar, as
      built and as intended, is the flat avatar, pixel for pixel. */
  lemma ClearOverlayMatchesNoLayer(skin: Image, mix: Mix)
    requires skin.width >= 48 && skin.height >= 16
    requires AlphaIs(skin, HeadOverlayArea, 0)
    ensures RenderAvatar(skin, mix) == RenderAvatarNoLayer(skin)
    ensures RenderAvatarIntended(skin, mix) == RenderAvatarNoLayer(skin)
  {
    var head := Extract(skin, HeadArea).value;
    var overlay := Extract(skin, HeadOverlayArea).value;
    OverlayAlpha(skin, 0);
    CompositeClear(mix, head, overlay, 0, 0);
    CompositeClear(mix, Upscale(head, AvatarScale), overlay, 0, 0);
  }

  /** In the intended avatar a fully opaque head overlay hides the head: the
      avatar is the overlay region upscaled, and each of its pixels is
      overlay-atlas pixel (40 + x/16, 8 + y/16). */
  lemma OpaqueOverlayWins(skin: Image, mix: Mix)
    requires skin.width >= 48 && skin.height >= 16
    requires AlphaIs(skin, HeadOverlayArea, Opaque)
    ensures RenderAvatarIntended(skin, mix) == Success(Upscale(Extract(skin, HeadOverlayArea).value, AvatarScale))
    ensures forall x: nat, y: nat | x < AvatarSize && y < AvatarSize ::
      At(RenderAvatarIntended(skin, mix).value, x, y) == At(skin, 40 + x / 16, 8 + y / 16)
  {
    var head := Extract(skin, HeadArea).value;
    var overlay := Extract(skin, HeadOverlayArea).value;
    OverlayAlpha(skin, Opaque);
    CompositeOpaque(mix, head, overlay, 0, 0);
    Ext(Composite(mix, head, overlay, 0, 0), overlay);
    IntendedAvatarPixels(skin, mix);
    forall x: nat, y: nat | x < AvatarSize && y < AvatarSize
      ensures At(RenderAvatarIntended(skin, mix).value, x, y) == At(skin, 40 + x / 16, 8 + y / 16)
    {
      assert Contains(HeadOverlayArea, 40 + x / 16, 8 + y / 16);
    }
  }

  /** The avatar as built differs from the intended one as soon as the overlay
      is opaque at its bottom-right cell and that cell differs from the head
      cell under it: the bottom-right avatar pixel shows the bare head as
      built, and the hat as intended. */
  lemma OverlayNotUpscaled(skin: Image, mix: Mix)
    requires skin.width >= 48 && skin.height >= 16
    requires At(skin, 47, 15).a == Opaque
    requires At(skin, 15, 15) != At(skin, 47, 15)
    ensures At(RenderAvatar(skin, mix).value, 127, 127) == At(skin, 15, 15)
    ensures At(RenderAvatarIntended(skin, mix).value, 127, 127) == At(skin, 47, 15)
    ensures RenderAvatar(skin, mix) != RenderAvatarIntended(skin, mix)
  {
    AvatarPixels(skin, mix);
    IntendedAvatarPixels(skin, mix);
  }

  /** A 64 x 64 atlas painted red everywhere but the opaque blue head overlay. */
  function HatSkin(): (skin: Image)
    ensures skin.width == AtlasSide && skin.height == AtlasSide
    ensures forall x: nat, y: nat | x < AtlasSide && y < AtlasSide ::
      At(skin, x, y) == if Contains(HeadOverlayArea, x, y) then Rgba(0, 0, 255, 255) else Rgba(255, 0, 0, 255)
  {
    Composite((under, top) => top, Fill(AtlasSide, AtlasSide, Rgba(255, 0, 0, 255)), Fill(8, 8, Rgba(0, 0, 255, 255)), 40, 8)
  }

  /** On that atlas the avatar as built has a red bottom-right corner where the
      intended avatar is blue. */
  lemma HatSkinShowsOverlayNotUpscaled(mix: Mix)
    ensures At(RenderAvatar(HatSkin(), mix).value, 127, 127) == Rgba(255, 0, 0, 255)
    ensures At(RenderAvatarIntended(HatSkin(), mix).value, 127, 127) == Rgba(0, 0, 255, 255)
    ensures RenderAvatar(HatSkin(), mix) != RenderAvatarIntended(HatSkin(), mix)
  {
    assert !Contains(HeadOverlayArea, 15, 15) && Contains(HeadOverlayArea, 47, 15);
    OverlayNotUpscaled(HatSkin(), mix);
  }

  // ---------------------------------------------------------------------------
  // 2D body
  // ---------------------------------------------------------------------------

  /** The six images drawn onto the body canvas. */
  datatype BodyParts = BodyParts(head: Image, body: Image, armRight: Image, armLeft: Image,
                                 legRight: Image, legLeft: Image)

  /** Cuts the body parts out of the atlas, with the head already composited
      with its overlay. Any region outside the atlas fails the whole render. */
  function ExtractBodyParts(skin: Image, mix: Mix): (r: Result<BodyParts, ImageError>)
    ensures r.Success? <==> skin.width >= 48 && skin.height >= 64
    ensures r.Success? ==> r.value.head == HeadComposite(skin, mix).value
  {
    var head :- HeadComposite(skin, mix);
    var body :- Extract(skin, BodyArea);
    var armRight :- Extract(skin, ArmRightArea);
    var armLeft :- Extract(skin, ArmLeftArea);
    // Once the left-arm region (which reaches row 64) fits, both leg regions fit too.
    var legRight := Extract(skin, LegRightArea).value;
    var legLeft := Extract(skin, LegLeftArea).value;
    Success(BodyParts(head, body, armRight, armLeft, legRight, legLeft))
  }

  /** The drawImage calls, in the renderer's order. */
  function BodyDraws(parts: BodyParts): seq<Placement> {
    [ Placement(parts.legLeft, LegLeftSpot.x, LegLeftSpot.y),
      Placement(parts.legRight, LegRightSpot.x, LegRightSpot.y),
      Placement(parts.armLeft, ArmLeftSpot.x, ArmLeftSpot.y),
      Placement(parts.armRight, ArmRightSpot.x, ArmRightSpot.y),
      Placement(parts.body, BodySpot.x, BodySpot.y),
      Placement(parts.head, HeadSpot.x, HeadSpot.y) ]
  }

  /** A new 16 x 32 canvas is transparent black. */
  function BlankCanvas(): (c: Image)
    ensures c.width == CanvasWidth && c.height == CanvasHeight
    ensures forall x: nat, y: nat | x < CanvasWidth && y < CanvasHeight :: At(c, x, y) == Transparent
  {
    Fill(CanvasWidth, CanvasHeight, Transparent)
  }

  /** The assembled 16 x 32 canvas, before upscaling. */
  function BodyCanvas(skin: Image, sharpMix: Mix, canvasMix: Mix): (r: Result<Image, ImageError>)
    ensures r.Success? <==> skin.width >= 48 && skin.height >= 64
    ensures r.Success? ==> r.value.width == CanvasWidth && r.value.height == CanvasHeight
  {
    var parts :- ExtractBodyParts(skin, sharpMix);
    Success(Assemble(canvasMix, BlankCanvas(), BodyDraws(parts)))
  }

  /** The 2D body: the canvas upscaled to 160 x 320. */
  function RenderBody(skin: Image, sharpMix: Mix, canvasMix: Mix): (r: Result<Image, ImageError>)
    ensures r.Success? <==> skin.width >= 48 && skin.height >= 64
    ensures r.Success? ==> r.value.width == BodyWidth && r.value.height == BodyHeight
  {
    var canvas :- BodyCanvas(skin, sharpMix, canvasMix);
    Success(Upscale(canvas, BodyScale))
  }

  /** A pixel drawn onto a transparent canvas pixel. */
  function Paint(mix: Mix, p: Pixel): Pixel {
    OverPixel(mix, Transparent, p)
  }

  /** The atlas pixel that the part drawn from area to spot puts at canvas pixel (cx, cy). */
  function Lift(skin: Image, area: Rect, spot: Rect, cx: nat, cy: nat): Pixel
    requires Within(area, skin.width, skin.height)
    requires area.w == spot.w && area.h == spot.h && Contains(spot, cx, cy)
  {
    At(skin, area.x + (cx - spot.x), area.y + (cy - spot.y))
  }

  /** The body figure: the canvas pixels some part is drawn on. */
  predicate InFigure(cx: nat, cy: nat) {
    exists i | 0 <= i < |BodySpots| :: Contains(BodySpots[i], cx, cy)
  }

  /** Reference definition of the body canvas, straight from the geometry table:
      each destination shows its atlas region (the head with its overlay over
      it), drawn onto transparent; the rest of the canvas stays transparent. */
  function FigurePixel(skin: Image, sharpMix: Mix, canvasMix: Mix, cx: nat, cy: nat): Pixel
    requires skin.width >= 48 && skin.height >= 64
  {
    if Contains(HeadSpot, cx, cy) then
      Paint(canvasMix, OverPixel(sharpMix, Lift(skin, HeadArea, HeadSpot, cx, cy),
                                           Lift(skin, HeadOverlayArea, HeadSpot, cx, cy)))
    else if Contains(BodySpot, cx, cy) then Paint(canvasMix, Lift(skin, BodyArea, BodySpot, cx, cy))
    else if Contains(ArmRightSpot, cx, cy) then Paint(canvasMix, Lift(skin, ArmRightArea, ArmRightSpot, cx, cy))
    else if Contains(ArmLeftSpot, cx, cy) then Paint(canvasMix, Lift(skin, ArmLeftArea, ArmLeftSpot, cx, cy))
    else if Contains(LegRightSpot, cx, cy) then Paint(canvasMix, Lift(skin, LegRightArea, LegRightSpot, cx, cy))
    else if Contains(LegLeftSpot, cx, cy) then Paint(canvasMix, Lift(skin, LegLeftArea, LegLeftSpot, cx, cy))
    else Transparent
  }

  /** Each draw is 1:1 (the destination has the size of the part), each part
      drawn has the size of the atlas region listed for its destination, and
      the six draws are pairwise disjoint. */
  lemma BodyDrawsTile(parts: BodyParts, skin: Image, mix: Mix)
    requires ExtractBodyParts(skin, mix) == Success(parts)
    ensures |BodyDraws(parts)| == |BodySpots|
    ensures forall i | 0 <= i < |BodySpots| :: Footprint(BodyDraws(parts)[i]) == BodySpots[i]
    ensures forall i | 0 <= i < |BodySources| ::
      BodyDraws(parts)[i].layer.width == BodySources[i].w && BodyDraws(parts)[i].layer.height == BodySources[i].h
    ensures PairwiseDisjoint(BodyDraws(parts))
  {
    GeometryTable();
  }

  /** The assembled canvas is the reference figure, pixel for pixel. */
  lemma BodyCanvasMatchesFigure(skin: Image, sharpMix: Mix, canvasMix: Mix)
    requires BodyCanvas(skin, sharpMix, canvasMix).Success?
    ensures forall cx: nat, cy: nat | cx < CanvasWidth && cy < CanvasHeight ::
      At(BodyCanvas(skin, sharpMix, canvasMix).value, cx, cy) == FigurePixel(skin, sharpMix, canvasMix, cx, cy)
  {
    var parts := ExtractBodyParts(skin, sharpMix).value;
    var draws := BodyDraws(parts);
    BodyDrawsTile(parts, skin, sharpMix);
    forall cx: nat, cy: nat | cx < CanvasWidth && cy < CanvasHeight
      ensures At(BodyCanvas(skin, sharpMix, canvasMix).value, cx, cy) == FigurePixel(skin, sharpMix, canvasMix, cx, cy)
    {
      CanvasPixel(skin, sharpMix, canvasMix, parts, cx, cy);
    }
  }

  /** Each extracted part is its atlas region cut out. */
  lemma PartsAreRegions(skin: Image, mix: Mix, parts: BodyParts)
    requires ExtractBodyParts(skin, mix) == Success(parts)
    ensures skin.width >= 48 && skin.height >= 64
    ensures parts.body == Extract(skin, BodyArea).value
    ensures parts.armRight == Extract(skin, ArmRightArea).value
    ensures parts.armLeft == Extract(skin, ArmLeftArea).value
    ensures parts.legRight == Extract(skin, LegRightArea).value
    ensures parts.legLeft == Extract(skin, LegLeftArea).value
  {
  }

  lemma CanvasPixel(skin: Image, sharpMix: Mix, canvasMix: Mix, parts: BodyParts, cx: nat, cy: nat)
    requires ExtractBodyParts(skin, sharpMix) == Success(parts)
    requires cx < CanvasWidth && cy < CanvasHeight
    ensures skin.width >= 48 && skin.height >= 64
    ensures At(Assemble(canvasMix, BlankCanvas(), BodyDraws(parts)), cx, cy)
         == FigurePixel(skin, sharpMix, canvasMix, cx, cy)
  {
    PartsAreRegions(skin, sharpMix, parts);
    var draws := BodyDraws(parts);
    BodyDrawsTile(parts, skin, sharpMix);
    AssemblePixel(canvasMix, BlankCanvas(), draws, cx, cy);
    var result := At(Assemble(canvasMix, BlankCanvas(), draws), cx, cy);
    var figure := FigurePixel(skin, sharpMix, canvasMix, cx, cy);
    if Contains(HeadSpot, cx, cy) {
      assert result == figure by { assert Contains(Footprint(draws[5]), cx, cy); }
    } else if Contains(BodySpot, cx, cy) {
      assert result == figure by { assert Contains(Footprint(draws[4]), cx, cy); }
    } else if Contains(ArmRightSpot, cx, cy) {
      assert result == figure by { assert Contains(Footprint(draws[3]), cx, cy); }
    } else if Contains(ArmLeftSpot, cx, cy) {
      assert result == figure by { assert Contains(Footprint(draws[2]), cx, cy); }
    } else if Contains(LegRightSpot, cx, cy) {
      assert result == figure by { assert Contains(Footprint(draws[1]), cx, cy); }
    } else if Contains(LegLeftSpot, cx, cy) {
      assert result == figure by { assert Contains(Footprint(draws[0]), cx, cy); }
    } else {
      assert result == figure by { assert forall k | 0 <= k < |draws| :: !Contains(Footprint(draws[k]), cx, cy); }
    }
  }

  /** Each body pixel (x, y) is reference-figure pixel (x/10, y/10). */
  lemma BodyPixels(skin: Image, sharpMix: Mix, canvasMix: Mix)
    requires RenderBody(skin, sharpMix, canvasMix).Success?
    ensures forall x: nat, y: nat | x < BodyWidth && y < BodyHeight ::
      At(RenderBody(skin, sharpMix, canvasMix).value, x, y) == FigurePixel(skin, sharpMix, canvasMix, x / 10, y / 10)
  {
    var canvas := BodyCanvas(skin, sharpMix, canvasMix).value;
    BodyCanvasMatchesFigure(skin, sharpMix, canvasMix);
    forall x: nat, y: nat | x < BodyWidth && y < BodyHeight
      ensures At(RenderBody(skin, sharpMix, canvasMix).value, x, y) == FigurePixel(skin, sharpMix, canvasMix, x / 10, y / 10)
    {
      assert At(RenderBody(skin, sharpMix, canvasMix).value, x, y) == At(canvas, x / 10, y / 10);
    }
  }

  /** The head drawn on the body canvas (x in [4, 12), y in [0, 8)) is the
      8 x 8 head-with-overlay composite (that pipeline has no resize, so the
      composite really happens at 8 x 8), drawn onto transparent; where the
      composite is opaque the two agree exactly. That the intended layered
      avatar upscales this same composite holds by definition; it is stated
      here only to tie the two renders together. */
  lemma BodyHeadIsAvatarHead(skin: Image, sharpMix: Mix, canvasMix: Mix)
    requires BodyCanvas(skin, sharpMix, canvasMix).Success?
    ensures HeadComposite(skin, sharpMix).Success?
    ensures RenderAvatarIntended(skin, sharpMix) == Success(Upscale(HeadComposite(skin, sharpMix).value, AvatarScale))
    ensures forall i: nat, j: nat | i < 8 && j < 8 ::
      At(BodyCanvas(skin, sharpMix, canvasMix).value, HeadSpot.x + i, HeadSpot.y + j)
        == Paint(canvasMix, At(HeadComposite(skin, sharpMix).value, i, j))
    ensures forall i: nat, j: nat | i < 8 && j < 8 && At(HeadComposite(skin, sharpMix).value, i, j).a == Opaque ::
      At(BodyCanvas(skin, sharpMix, canvasMix).value, HeadSpot.x + i, HeadSpot.y + j)
        == At(HeadComposite(skin, sharpMix).value, i, j)
  {
    var hc := HeadComposite(skin, sharpMix).value;
    BodyCanvasMatchesFigure(skin, sharpMix, canvasMix);
    forall i: nat, j: nat | i < 8 && j < 8
      ensures At(BodyCanvas(skin, sharpMix, canvasMix).value, HeadSpot.x + i, HeadSpot.y + j) == Paint(canvasMix, At(hc, i, j))
    {
      assert Contains(HeadSpot, HeadSpot.x + i, HeadSpot.y + j);
    }
  }

  /** Drawing the six parts in any other order gives the same canvas: the
      destinations are disjoint, so the renderer's draw order has no effect. */
  lemma BodyDrawOrderIrrelevant(skin: Image, sharpMix: Mix, canvasMix: Mix, order: seq<Placement>)
    requires ExtractBodyParts(skin, sharpMix).Success?
    requires multiset(order) == multiset(BodyDraws(ExtractBodyParts(skin, sharpMix).value))
    ensures Assemble(canvasMix, BlankCanvas(), order) == BodyCanvas(skin, sharpMix, canvasMix).value
  {
    var parts := ExtractBodyParts(skin, sharpMix).value;
    var draws := BodyDraws(parts);
    BodyDrawsTile(parts, skin, sharpMix);
    forall i | 0 <= i < |draws|
      ensures Footprint(draws[i]).w > 0 && Footprint(draws[i]).h > 0
    {
      GeometryTable();
    }
    PermutationKeepsDisjoint(draws, order);
    AssembleOrderFree(canvasMix, BlankCanvas(), draws, order);
  }

  /** A reordering of pairwise disjoint, non-empty placements is still pairwise
      disjoint. */
  lemma PermutationKeepsDisjoint(ps: seq<Placement>, qs: seq<Placement>)
    requires PairwiseDisjoint(ps)
    requires forall i | 0 <= i < |ps| :: Footprint(ps[i]).w > 0 && Footprint(ps[i]).h > 0
    requires multiset(ps) == multiset(qs)
    ensures PairwiseDisjoint(qs)
  {
    forall i, j | 0 <= i < j < |qs|
      ensures Disjoint(Footprint(qs[i]), Footprint(qs[j]))
    {
      assert qs[i] in multiset(ps);
      assert qs[j] in multiset(ps);
      var a :| 0 <= a < |ps| && ps[a] == qs[i];
      var b :| 0 <= b < |ps| && ps[b] == qs[j];
      if a == b {
        TwiceInMultiset(qs, i, j);
        var c := OtherIndex(ps, a);
        if c < a {
          assert Disjoint(Footprint(ps[c]), Footprint(ps[a]));
        } else {
          assert Disjoint(Footprint(ps[a]), Footprint(ps[c]));
        }
      } else if a > b {
        assert Disjoint(Footprint(ps[b]), Footprint(ps[a]));
      }
    }
  }

  /** An element found at two indices occurs at least twice. */
  lemma TwiceInMultiset<T>(s: seq<T>, i: nat, j: nat)
    requires i < j < |s| && s[i] == s[j]
    ensures multiset(s)[s[i]] >= 2
  {
    assert s == s[..i] + [s[i]] + s[i + 1..j] + [s[j]] + s[j + 1..];
  }

  /** An element occurring at least twice sits at some index other than a. */
  lemma OtherIndex<T>(s: seq<T>, a: nat) returns (c: nat)
    requires a < |s| && multiset(s)[s[a]] >= 2
    ensures c < |s| && c != a && s[c] == s[a]
  {
    assert s == s[..a] + [s[a]] + s[a + 1..];
    assert multiset(s[..a] + s[a + 1..])[s[a]] >= 1;
    assert s[a] in multiset(s[..a] + s[a + 1..]);
    assert s[a] in s[..a] + s[a + 1..];
    var k :| 0 <= k < |s[..a] + s[a + 1..]| && (s[..a] + s[a + 1..])[k] == s[a];
    c := if k < a then k else k + 1;
  }

  /** A single-colour opaque atlas renders single-colour avatars, and a body whose
      every pixel is that colour inside the figure and transparent outside it:
      nothing is blended. */
  lemma UniformSkin(skin: Image, colour: Pixel, mix: Mix, sharpMix: Mix, canvasMix: Mix)
    requires skin.width == AtlasSide && skin.height == AtlasSide
    requires colour.a == Opaque
    requires forall x: nat, y: nat | x < skin.width && y < skin.height :: At(skin, x, y) == colour
    ensures forall x: nat, y: nat | x < AvatarSize && y < AvatarSize ::
      && At(RenderAvatar(skin, mix).value, x, y) == colour
      && At(RenderAvatarIntended(skin, mix).value, x, y) == colour
      && At(RenderAvatarNoLayer(skin).value, x, y) == colour
    ensures forall x: nat, y: nat | x < BodyWidth && y < BodyHeight ::
      At(RenderBody(skin, sharpMix, canvasMix).value, x, y) == if InFigure(x / 10, y / 10) then colour else Transparent
  {
    AvatarPixels(skin, mix);
    IntendedAvatarPixels(skin, mix);
    AvatarNoLayerPixels(skin);
    BodyPixels(skin, sharpMix, canvasMix);
    forall x: nat, y: nat | x < BodyWidth && y < BodyHeight
      ensures At(RenderBody(skin, sharpMix, canvasMix).value, x, y) == if InFigure(x / 10, y / 10) then colour else Transparent
    {
      var cx, cy := x / 10, y / 10;
      assert BodySpots == [LegLeftSpot, LegRightSpot, ArmLeftSpot, ArmRightSpot, BodySpot, HeadSpot];
      if InFigure(cx, cy) {
        var i :| 0 <= i < |BodySpots| && Contains(BodySpots[i], cx, cy);
      } else {
        assert !Contains(BodySpots[0], cx, cy) && !Contains(BodySpots[1], cx, cy) && !Contains(BodySpots[2], cx, cy);
        assert !Contains(BodySpots[3], cx, cy) && !Contains(BodySpots[4], cx, cy) && !Contains(BodySpots[5], cx, cy);
      }
    }
  }
}

# MCC-Skins core, modelled in Dafny

MCC-Skins is a small Express server that serves Minecraft player renders. This
project models its two pieces of real logic:

- **The skin texture compositor** (`utils/skin-renderer.js`). It works on a
  64×64 skin atlas. It cuts fixed rectangles out of the atlas, lays the 8×8 hat
  layer over the head, and draws six parts onto a 16×32 canvas. It then
  upscales with nearest-neighbour sampling: ×16 for the 128×128 head avatars and
  ×10 for the 160×320 body.
- **The username → UUID cache** (`getUuid` in `index.js`). It is a map keyed by
  the lower-cased username. Entries expire after one hour. On a miss the name
  is resolved and the entry is overwritten. A failed lookup writes nothing.

Files:

- `results.dfy` holds `Result`, which stands in for thrown errors, and `Option`,
  which records whether a cache call asked the lookup.
- `images.dfy` models images as immutable width × height grids of RGBA pixels. It
  also models the library operations the renderer uses: `Extract` (sharp's
  `extract`), `Composite` (sharp's `composite` and canvas `drawImage`, both
  "over" at an offset), `Upscale` (sharp's `resize` with the nearest kernel, at
  an exact integer factor) and `Assemble` (a sequence of `drawImage` calls).
- `skin_renderer.dfy` holds the geometry table, the renders (the layered
  avatar as built and as evidently intended, the flat avatar and the body) and a reference
  definition of the body canvas (`FigurePixel`) built directly from that table.
- `uuid_cache.dfy` models `getUuid` as one atomic step. The clock readings and the
  profile lookup are passed in as parameters.

How the model handles what it cannot see:

- **Partial alpha.** How sharp and node-canvas blend a partly transparent pixel
  is floating-point library code. The model passes it in as a `Mix` function.
  `OverPixel` fixes the two exact cases: top alpha 0 keeps the pixel underneath,
  and top alpha 255 replaces it. `RenderBody` takes two mixes, one for sharp's
  composite and one for the canvas.
- **Clocks.** `getUuid` reads `Date.now()` twice: once when it checks freshness
  (`now`) and once when it writes the new entry after the lookup returns
  (`storedAt`). Both readings are parameters.
- **The profile lookup.** The Mojang lookup is a `Resolver` function, and each
  call reports the name it was asked about (`asked`). A hit asks nothing.

Where the code is the authority:

- A render fails as soon as one of its regions falls outside the atlas, because
  sharp's `extract` throws for any rectangle that does not fit. The code does
  not check for a 64×64 atlas. The layered avatar renders for any atlas of at
  least 48×16, the flat avatar for at least 16×16, and the body for at least
  48×64. So a legacy 64×32 atlas renders both avatars and fails only the body.
  The `ensures` of `RenderAvatar`, `RenderAvatarNoLayer` and `RenderBody` state
  these conditions in both directions.
- sharp applies `resize` (like `extract` and `rotate`) before any `composite`
  in the same pipeline, whatever order the calls are chained in. `renderAvatar`
  chains `composite` then `resize` in one pipeline, so the head is upscaled to
  128×128 first and the 8×8 overlay is then pasted, unscaled, over its top-left
  corner. `RenderAvatar` models that order; `RenderAvatarIntended` models the
  composite-then-upscale the code evidently means (see "## Findings").
- `renderBody` composites in a pipeline with no resize, so there the overlay
  really is laid over the 8×8 head. It calls `composite` without `left`/`top`;
  sharp then centres the overlay, which for two 8×8 images is offset (0, 0).
  So the body's head is `HeadComposite`, the same 8×8 image the intended avatar
  upscales.
- `drawImage` blends "over" a transparent canvas. So a fully transparent part
  pixel lands as transparent black, not as a verbatim copy. Only opaque pixels
  are copied exactly. `BodyHeadIsAvatarHead` states the head region in those
  terms.

## Model

| member | source | states |
|---|---|---|
| Images.Extract | utils/skin-renderer.js:4-6 | Extraction succeeds exactly when the rectangle is non-empty and lies inside the image. The result is then w×h, with pixel (i, j) equal to source pixel (x+i, y+j). Otherwise it is an error, never a partial image. |
| Images.ExtractWhole | utils/skin-renderer.js:4-6 | Extracting an image's full bounds gives the image back. |
| Images.ExtractTwice | utils/skin-renderer.js:4-6 | Cutting a rectangle out of a cut-out equals cutting the shifted rectangle out of the original. |
| Images.Composite | utils/skin-renderer.js:13-14 | The result keeps the base's size. Pixels under the layer are the layer laid "over" the base; pixels outside it are the base's. |
| Images.CompositeClear | utils/skin-renderer.js:14 | A fully transparent layer leaves the base image unchanged. |
| Images.CompositeOpaque | utils/skin-renderer.js:14 | Where a fully opaque layer lands, the result is the layer's pixel with nothing of the base; elsewhere it is the base. |
| Images.Upscale | utils/skin-renderer.js:15 | The ×k output is (w·k)×(h·k). Each pixel (x, y) is source pixel (x/k, y/k). |
| Images.DecimateUpscale | utils/skin-renderer.js:15 | Keeping one pixel per k×k block of the upscaled image recovers the source exactly, so upscaling loses nothing. |
| Images.UpscaleUniform | utils/skin-renderer.js:55 | A single-colour image upscales to a single-colour image with no blended pixels. |
| Images.AssemblePixel | utils/skin-renderer.js:47-52 | With pairwise-disjoint draws, each canvas pixel is the one draw covering it, laid over the original pixel. Pixels no draw covers are unchanged. |
| Images.AssembleOrderFree | utils/skin-renderer.js:47-52 | Any reordering of the same pairwise-disjoint draws gives the same canvas. |
| SkinRenderer.GeometryTable | utils/skin-renderer.js:33-52 | All seven atlas regions are non-empty and inside 64×64. All six destinations lie inside 16×32 and match the size of the region drawn there. No two destinations overlap. |
| SkinRenderer.HeadComposite | utils/skin-renderer.js:33-45 | Succeeds exactly for atlases of at least 48×16. The result is 8×8; pixel (i, j) is overlay pixel (40+i, 8+j) laid over head pixel (8+i, 8+j). |
| SkinRenderer.RenderAvatar | utils/skin-renderer.js:9-18 | Succeeds exactly for atlases of at least 48×16, and the result is always 128×128. The head is upscaled before the overlay is composited, as sharp orders the pipeline. |
| SkinRenderer.RenderAvatarIntended | utils/skin-renderer.js:9-18 | The corrected avatar (head and overlay composited, then upscaled) succeeds under the same condition and is 128×128. |
| SkinRenderer.RenderAvatarNoLayer | utils/skin-renderer.js:21-28 | Succeeds exactly for atlases of at least 16×16, and the result is always 128×128. |
| SkinRenderer.AvatarPixels | utils/skin-renderer.js:9-18 | As built, layered-avatar pixel (x, y) is head pixel (8 + x/16, 8 + y/16), except for x, y < 8, where it is overlay pixel (40 + x, 8 + y) laid over head pixel (8, 8). |
| SkinRenderer.IntendedAvatarPixels | utils/skin-renderer.js:9-18 | In the intended avatar, pixel (x, y) is overlay pixel (40 + x/16, 8 + y/16) laid over head pixel (8 + x/16, 8 + y/16). |
| SkinRenderer.AvatarNoLayerPixels | utils/skin-renderer.js:21-28 | Flat-avatar pixel (x, y) is head pixel (8 + x/16, 8 + y/16). |
| SkinRenderer.ClearOverlayMatchesNoLayer | utils/skin-renderer.js:9-27 | If the overlay region is fully transparent, the layered avatar, as built and as intended, equals the flat avatar. |
| SkinRenderer.OpaqueOverlayWins | utils/skin-renderer.js:13-15 | If the overlay region is fully opaque, the intended avatar is the overlay region upscaled ×16. Each pixel is overlay pixel (40 + x/16, 8 + y/16). |
| SkinRenderer.OverlayNotUpscaled | utils/skin-renderer.js:13-15 | If overlay cell (47, 15) is opaque and differs from head cell (15, 15), avatar pixel (127, 127) is the head cell as built and the overlay cell as intended, so the two avatars differ. |
| SkinRenderer.HatSkinShowsOverlayNotUpscaled | utils/skin-renderer.js:13-15 | On a red atlas with an opaque blue overlay, avatar pixel (127, 127) is red as built and blue as intended. |
| SkinRenderer.ExtractBodyParts | utils/skin-renderer.js:33-45 | The seven extractions succeed exactly for atlases of at least 48×64. The head part is `HeadComposite`, the overlay laid over the head at 8×8. |
| SkinRenderer.BlankCanvas | utils/skin-renderer.js:41 | The new canvas is 16×32 and every pixel is transparent black. |
| SkinRenderer.BodyCanvas | utils/skin-renderer.js:41-52 | The canvas is built exactly for atlases of at least 48×64, and it is 16×32. |
| SkinRenderer.RenderBody | utils/skin-renderer.js:32-57 | Succeeds exactly for atlases of at least 48×64, and the result is always 160×320. |
| SkinRenderer.BodyDrawsTile | utils/skin-renderer.js:33-52 | Each of the six draws is 1:1, with its footprint equal to its destination rectangle, and each drawn part has the size of the atlas region listed for that destination. The draws are pairwise disjoint. |
| SkinRenderer.BodyCanvasMatchesFigure | utils/skin-renderer.js:41-52 | Every canvas pixel equals the reference figure built from the geometry table. Each destination shows its atlas region, and everything else stays transparent. |
| SkinRenderer.BodyPixels | utils/skin-renderer.js:32-56 | Body pixel (x, y) is reference-figure pixel (x/10, y/10). |
| SkinRenderer.BodyHeadIsAvatarHead | utils/skin-renderer.js:45-52 | The canvas region x∈[4,12), y∈[0,8) is the 8×8 head-with-overlay composite drawn onto transparent. Where that composite is opaque, the two are equal. The intended avatar being that same composite upscaled ×16 holds by definition. |
| SkinRenderer.BodyDrawOrderIrrelevant | utils/skin-renderer.js:47-52 | Drawing the six parts in any order gives the same canvas. |
| SkinRenderer.PermutationKeepsDisjoint | utils/skin-renderer.js:47-52 | Reordering pairwise-disjoint, non-empty draws keeps them pairwise disjoint. |
| SkinRenderer.UniformSkin | utils/skin-renderer.js:9-56 | A single opaque colour atlas gives single-colour avatars, as built and as intended. Every body pixel is that colour inside the figure and transparent outside it. |
| UuidCache.LowerChar | index.js:16 | ASCII upper-case letters map to their lower case; every other character is unchanged. |
| UuidCache.LowerIdempotent | index.js:16 | Lower-casing twice equals lower-casing once. |
| UuidCache.GetUuid | index.js:15-33 | A call asks the lookup exactly when there is no fresh entry for the lower-cased key; a hit returns the cached UUID and changes nothing. A miss asks about the original username and succeeds exactly when the lookup finds it, returning the found UUID and storing it stamped with the second clock reading. A failure returns the lookup's error and leaves the cache unchanged. Other keys are untouched. |
| UuidCache.ExpiryIsStrict | index.js:20 | An entry exactly one hour old is a miss and triggers a lookup; one millisecond younger is a hit. |
| UuidCache.CaseInsensitive | index.js:16-17 | Two usernames with the same lower case get the same hit/miss, the same UUID and the same resulting cache. |
| UuidCache.FreshAfterSuccess | index.js:15-33 | After a successful call stored at t, a call for the same name in any case at t' with t' − t < 1 h hits. It returns the same UUID, asks nothing and changes nothing. |
| UuidCache.GetUuidKeepsKeysNormalised | index.js:16-31 | If every key is already lower-cased, that stays true after a call. |
| UuidCache.Serve | index.js:15-33 | Serving n requests in order asks the lookup at most n times and never evicts a key. A first request that misses asks the lookup. Requests that all find fresh entries in the starting cache ask nothing and leave it unchanged. |
| UuidCache.ServeKeepsKeysNormalised | index.js:12-33 | Over any sequence of calls, every cache key stays lower-cased. |
| UuidCache.LookupOncePerHour | index.js:17-31 | On an empty cache, "Notch" then "NOTCH" within the hour asks the lookup once. "notch" after the hour asks it a second time. |

## Findings

| source | as written | input that shows it | evidently intended | confidence | as-written member | corrected member |
|---|---|---|---|---|---|---|
| utils/skin-renderer.js:13-15 | `composite` and `resize` share one sharp pipeline, and sharp runs the resize first. The head is upscaled to 128×128 and the 8×8 hat layer covers only its top-left 8×8 corner. | A 64×64 atlas, red everywhere except an opaque blue overlay region: avatar pixel (127, 127) is red, with no hat. | Composite the hat over the 8×8 head, then upscale the result, so every 16×16 block shows the hat. | medium: rests on sharp's documented operation order; not executed | SkinRenderer.OverlayNotUpscaled | SkinRenderer.OpaqueOverlayWins |

## Left out

- PNG decoding and encoding (`.png()`, `toBuffer`, `loadImage`, `canvas.toBuffer`) are out of scope. The atlas is an already-decoded image, and an undecodable buffer is not modelled.
- Images.OverPixel: partial-alpha blending is not computed. It is the `Mix` parameter, because sharp and cairo compute it in floating point with their own rounding. Only the alpha 0 and alpha 255 cases are pinned down.
- Images.Composite: premultiplied-alpha effects are not modelled. One example is the colour of a base pixel that is itself fully transparent.
- Images.Composite: sharp rejects an overlay larger than the base; the model clips it instead. The renderer only composites its 8×8 overlay onto an 8×8 or a 128×128 base, so this case never arises.
- Images.Upscale: only exact integer factors are modelled. The renderer only resizes 8×8 to 128×128 (×16) and 16×32 to 160×320 (×10), so the general resize is not needed.
- Images.Extract: the two failure causes (an empty rectangle, and a rectangle outside the image) share one error value, `BadExtractArea`. The renderer never asks for an empty rectangle.
- UuidCache.LowerChar: only ASCII letters are lower-cased. JavaScript's full Unicode `toLowerCase` is not modelled.
- The profile lookup's HTTP response shape is not modelled. A response without `data.id` would store `undefined`; the model's lookup yields a UUID or an error.
- Express routes, response headers and the 404 / redirect fallbacks (`index.js:52-111`) are left out as HTTP plumbing. So are the EJS pages (`index.js:115-146`).
- `getSkinBuffer`'s session lookup, base64/JSON unpacking and texture download (`index.js:36-45`) are network and library decoding, and are left out.
- Async interleavings are not modelled. Two concurrent misses for one name may both call the lookup, and the last writer wins. The model treats `getUuid` as one atomic step.
- Console logging is not modelled.

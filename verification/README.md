# Verification of the pixel, path, matrix and table arithmetic behind avif-kmp

avif-kmp decodes AVIF frames into Skia bitmaps. Its own native code is a thin layer over libavif; the
arithmetic it relies on is inline in the Skia m110 headers it is compiled against. This project models that
code in Dafny and proves what its documentation promises, for all inputs. Where a promise is false, a lemma
says exactly when it holds, and an input for which it fails is named.

| file | models |
|---|---|
| Basics.dfy | shared datatypes |
| Words.dfy | machine words as natural numbers, bitwise operators defined bit by bit, explicit wrap-around |
| FixedPoint.dfy | division by 2^shift - 1 with shifts, power-of-two test (SkMath.h) |
| PMColor.dfy, LayerStack.dfy | premultiplied pixels, two-lane multiply, src-over, stacks of layers against exact compositing (SkColorPriv.h) |
| ColorBlend.dfy | slow, 32-bit and 64-bit interpolation; coverage blending, exact to less than one (SkColorData.h) |
| HashTable.dfy | the open-addressing hash table: probing, deletion by shifting back, resizing, termination (SkTHash.h) |
| PathStream.dfy | path builder, legal verb streams, the iterator over them (SkPathBuilder.h, SkPath.h) |
| MatrixCache.dfy | the lazily computed type mask of a 3x3 matrix (SkMatrix.h) |
| Matrix44.dfy | column-major 4x4 matrices and the embedding of 3x3 ones (SkM44.h) |
| EncodedOrigin.dfy | the eight Exif orientations (SkEncodedOrigin.h; Exif 2.2, section 4.6.4) |
| RowGeometry.dfy | row sizes, pixel offsets, the stride of decodeFrame (SkImageInfo.h, SkImageInfoPriv.h, avifImageJvm.cpp) |
| CanvasGuard.dfy | the save stack and its scope guard (SkCanvas.h) |
| ContourSegments.dfy | stepping over the segments of a contour (SkContourMeasure.h) |

`dafny verify dfyconfig.toml` checks everything.

## Reading the model

- Unsigned words are natural numbers. And and Or have no width; every operation that can overflow wraps
  explicitly (`Wrap32`, `Wrap64`), and the lemmas show where nothing wraps. Scalars are real numbers.
- Code that updates objects is a class whose methods change fields or arrays and are proved against functions
  or maps; code made of expressions is functions.
- Functions the headers only declare are taken from their documentation. `computeTypeMask` and
  `computePerspectiveTypeMask` are parameters: the results hold for every implementation that meets the
  documented contract. `libavif` is a parameter in the same way (its pixel size, and RGBA as default format).
  `moveTo`, `lineTo` and the other builder calls follow the verb table of `SkPath::Make` and the comment on
  `ensureMove`. The builder's own `close` is undocumented: on an empty path it does nothing, as `SkPath::close`
  documents, but it goes through `ensureMove` like every verb, so after a Close it reopens and closes again,
  where `SkPath::close` promises no effect (`CloseEffect`). `save`, `restore`,
  `restoreToCount` and `computeByteSize` follow their comments, and matrix products the comment of `setConcat`.

## Where code and documentation disagree

The model follows the code.

- `SkMul16ShiftRound` is documented for operands up to 32767, but rounds correctly only while the folded
  product is a single digit; 32767 * 32767 / 255 comes out 64 too small.
- `SkFourByteInterp(src, dst, 0)` is documented to return dst; it does only if no byte of dst exceeds the same
  byte of src. `SkFourByteInterp256(src, dst, 0xFF)` is documented to return src; it does only if no byte of src
  exceeds the same byte of dst. Transparent and opaque black fail both. The fast form keeps both promises.
- `SkTHashTable::remove` never returns exactly when every slot is full (`RemoveSlotEndsIff`), and the closing
  assertion of `find` fails exactly when every slot of a table is full and the key is absent (`Find`). Whether
  `set` and `remove` can ever bring a table there depends on its capacity alone: exactly when halving does not
  lead to 4 (`RoomForEverIff`). A default table is safe. The list constructor of `SkTHashMap` gives 5/3 slots per
  pair: one pair fills its table at once (`OnlyPairNeverEnds`), and a table made from three pairs, five slots, is
  full after two removals and one `set` (`ThreePairsFillUp`).
- `getType` documents that a set perspective bit comes with all others; the private helper
  `updateTranslateMask`, seen by itself, clears the translate bit of a perspective matrix whose translation
  became zero (`EditTranslationCounterExample`). None of its callers is in the headers.
- `rectStaysRect` is documented for non-zero factors, but `setScaleTranslate` sets its bit for zero factors too;
  an answer true is right exactly when the mask is not left over from such a call (`RectStaysRectIff`).
- `SkImageInfo::shiftPerPixel` is documented as at most 3; it is, exactly for every type but 32-bit floats, for
  which it is 4 (`ShiftPerPixel`).
- `decodeFrame` derives the stride from the frame width, in 32 bits, and compares neither the frame's size nor
  the stride with the bitmap's. `DecodedPixelsInPlaceIff`, `WritesInsideIff` and `FramePixelsApartIff` say
  exactly when pixels land where the bitmap reads them, stay inside it, and do not overwrite each other. A
  bitmap with padded rows (`PaddedBitmapCounterExample`) and a frame wider than the bitmap
  (`LargeFrameCounterExample`) fail. `SkBitmap` refuses row sizes over 31 bits, so for a bitmap of the frame's
  own size the stride never wraps (`BitmapInPlaceIff`); whether a larger frame whose row does not fit 32 bits
  can exist is decided in libavif, which is not part of this model.
- A canvas guard does not always give back what it found: a body that pops the guard's own saved state and then
  edits changes it, even if the depth never falls below the recorded count (`PoppedCopyCounterExample`).
  `GuardRestoresIff` says for every body when the stack is given back; if the depth never falls below the
  recorded count, it is exactly when the last state written at that depth, if any, is the one that was there
  (`GuardAboveRestoresIff`).
- `SkEncodedOriginToMatrix` calls w and h the size of the source data, and the destination rectangle
  [0, 0, w, h]. The model takes them as the upright size; as the size of the source the promise holds exactly
  when the origin does not exchange the sides or they are equal (`SourceSizeReadingIff`), so not for a
  1 by 2 image of origin 6 (`SourceSizeReadingCounterExample`).

## Model

| member | source | states |
|---|---|---|
| FixedPoint.ShiftRoundExactIff | avif/src/jvmMain/skia/include/core/SkMath.h:36-46 | for every product and every shift, the two shifts give n / (2^shift - 1) rounded to nearest (no tie can occur) exactly when the biased product, folded twice on its base-2^shift digits, is a single digit |
| FixedPoint.ShiftRoundNeverAbove | avif/src/jvmMain/skia/include/core/SkMath.h:36-46 | where the shifts are wrong they are too small: they never exceed the true rounding |
| FixedPoint.ShiftRoundFirstWrong | avif/src/jvmMain/skia/include/core/SkMath.h:36-46 | the shifts are exact for all products below 2^(2*shift) + 2^(shift-1) - 1 and wrong at that product |
| FixedPoint.NearestUnique | avif/src/jvmMain/skia/include/core/SkMath.h:36-46 | "rounded to nearest" determines at most one number, so the statements above fix the result |
| FixedPoint.Mul16NoWrap | avif/src/jvmMain/skia/include/core/SkMath.h:40-46 | on the asserted operands (at most 32767, shift 1 to 8) no 32-bit register wraps |
| FixedPoint.Mul16Exact | avif/src/jvmMain/skia/include/core/SkMath.h:36-46 | the documented rounding holds exactly under the folding condition, and always for operands below 2^shift |
| FixedPoint.MulDiv255CounterExample | avif/src/jvmMain/skia/include/core/SkMath.h:48-54 | inside the documented operand range the result can be 64 below the rounded quotient |
| FixedPoint.MulDiv255OfBytes | avif/src/jvmMain/skia/include/core/SkMath.h:48-54 | for two bytes: the nearest integer to c*a/255, at most either factor, and c itself when a is 255 |
| FixedPoint.IsPow2Iff | avif/src/jvmMain/skia/include/core/SkMath.h:26-32 | at every unsigned width the test accepts zero and the powers of two and nothing else |
| PMColor.PackRoundTrip | avif/src/jvmMain/skia/include/core/SkColorPriv.h:60-122 | four packed bytes are read back by the four getters, in both channel orders |
| PMColor.GetPackedLanes | avif/src/jvmMain/skia/include/core/SkColorPriv.h:90-93 | each getter reads one byte of the word; which one depends on the layout only for red and blue |
| PMColor.PremultiplyExact | avif/src/jvmMain/skia/include/core/SkColorPriv.h:123-136 | the result has the given alpha, colours that are the nearest integers to colour*alpha/255, and satisfies the assertions of SkPackARGB32; the shortcut for alpha 255 agrees with the general path |
| PMColor.AlphaMulQLanes | avif/src/jvmMain/skia/include/core/SkColorPriv.h:140-146 | for every pixel and every scale up to 256 the two masked 32-bit multiplies scale the four bytes separately, rounding each down |
| PMColor.AlphaMulQIdentity | avif/src/jvmMain/skia/include/core/SkColorPriv.h:140-146 | scale 256 returns the pixel unchanged |
| PMColor.SrcOverLanes | avif/src/jvmMain/skia/include/core/SkColorPriv.h:148-150 | for a premultiplied source over any destination the single 32-bit addition is four byte additions, none of which carries |
| PMColor.SrcOverInvariant | avif/src/jvmMain/skia/include/core/SkColorPriv.h:22-27 | premultiplied over premultiplied is premultiplied, and an opaque destination stays opaque, as the comment on SkAlpha255To256 promises |
| PMColor.SrcOverExtremes | avif/src/jvmMain/skia/include/core/SkColorPriv.h:148-150 | the transparent pixel changes nothing; an opaque source replaces the destination |
| LayerStack.StackInvariant | avif/src/jvmMain/skia/include/core/SkColorPriv.h:22-27 | over any list of premultiplied layers every intermediate pixel is premultiplied, and opaque from an opaque base on |
| LayerStack.OpaqueLayerHides | avif/src/jvmMain/skia/include/core/SkColorPriv.h:148-150 | the picture is independent of the base and of everything below an opaque layer |
| LayerStack.StackError | avif/src/jvmMain/skia/include/core/SkColorPriv.h:140-150 | after n layers every channel is strictly within n of compositing over the reals |
| ColorBlend.AlphaMulInv256Exact | avif/src/jvmMain/skia/include/private/SkColorData.h:126-132 | exactly 256 minus the truncated quotient value*alpha256/255, on the whole documented domain |
| ColorBlend.FastInterp32Lanes | avif/src/jvmMain/skia/include/private/SkColorData.h:223-235 | for any two pixels each byte is the weighted mean rounded down; no register wraps |
| ColorBlend.FastInterp64Lanes | avif/src/jvmMain/skia/include/private/SkColorData.h:237-241 | the same for four bytes in one 64-bit register |
| ColorBlend.InterpolationsAgree | avif/src/jvmMain/skia/include/private/SkColorData.h:245-255 | the 32-bit form, the 64-bit form and, on premultiplied pixels, the slow form return the same pixel |
| ColorBlend.FourByteInterpLanes | avif/src/jvmMain/skia/include/private/SkColorData.h:163-170 | the signed shift of SkAlphaBlend is the same weighted mean, and the packed bytes pass the assertions of SkPackARGB32 |
| ColorBlend.InterpolationRange | avif/src/jvmMain/skia/include/private/SkColorData.h:268-273 | an interpolated pixel lies byte by byte between its ends and is premultiplied when they are |
| ColorBlend.FastInterpEnds | avif/src/jvmMain/skia/include/private/SkColorData.h:257-266 | weights 0 and 255 of the fast interpolation return exactly dst and exactly src |
| ColorBlend.FourByteInterpEnds | avif/src/jvmMain/skia/include/private/SkColorData.h:172-181 | the documented ends of the slow interpolation: 255 returns src; 0 returns dst if and only if no byte of dst exceeds the same byte of src |
| ColorBlend.FourByteInterp256Ends | avif/src/jvmMain/skia/include/private/SkColorData.h:155-170 | the documented ends with a scale up to 256: 0 returns dst; 0xFF returns src if and only if no byte of src exceeds the same byte of dst |
| ColorBlend.FourByteInterpCounterExample | avif/src/jvmMain/skia/include/private/SkColorData.h:155-181 | weight 0 from transparent over opaque black does not return dst, and scale 0xFF from opaque black over transparent does not return src |
| ColorBlend.FastInterpAccuracy | avif/src/jvmMain/skia/include/private/SkColorData.h:257-266 | the documented "touch more accurate": every byte of the fast form is less than 3/2 below and less than 1/2 above the exact weighted mean, at every weight, in both word sizes |
| ColorBlend.FourByteInterpAccuracy | avif/src/jvmMain/skia/include/private/SkColorData.h:172-181 | the slow form only keeps every byte less than 2 below and less than 1 above the exact weighted mean |
| ColorBlend.FourByteInterpLessAccurate | avif/src/jvmMain/skia/include/private/SkColorData.h:172-181 | the slow form does leave the range of the fast one on both sides, by the two named inputs |
| ColorBlend.BlendARGB32Lanes | avif/src/jvmMain/skia/include/private/SkColorData.h:275-290 | for a premultiplied source, any destination and any coverage the shared registers hold four separate blends without carries |
| ColorBlend.BlendARGB32Invariant | avif/src/jvmMain/skia/include/private/SkColorData.h:275-290 | blending keeps pixels premultiplied and opaque destinations opaque at every coverage |
| ColorBlend.BlendARGB32NearExact | avif/src/jvmMain/skia/include/private/SkColorData.h:275-290 | every byte is strictly within one of compositing over the reals with coverage (aa + 1) / 256 |
| ColorBlend.FullCoverageIsSrcOver | avif/src/jvmMain/skia/include/private/SkColorData.h:275-290 | at coverage 255 the blend is SkPMSrcOver, word for word |
| ColorBlend.ZeroCoverageIff | avif/src/jvmMain/skia/include/private/SkColorData.h:275-290 | at coverage 0 the destination survives if and only if the source is not opaque or no destination byte exceeds the source byte |
| HashTable.StaysPutMeaning | avif/src/jvmMain/skia/include/private/SkTHash.h:294-310 | the three index comparisons say that the hole is not on the candidate's probe path round the ring |
| HashTable.HomeIsRemainder | avif/src/jvmMain/skia/include/private/SkTHash.h:92-94 | with a power of two as capacity the native slot is the remainder of the hash |
| HashTable.SkTHashTable.HashIsFaithful | avif/src/jvmMain/skia/include/private/SkTHash.h:323-326 | the 32 bits of the key's hash are kept except that 0 becomes 1, so only hashes 0 and 1 are confused |
| HashTable.MoveIntoHole | avif/src/jvmMain/skia/include/private/SkTHash.h:311-314 | moving an entry into the hole leaves a table that is right apart from the new hole |
| HashTable.ClearHole | avif/src/jvmMain/skia/include/private/SkTHash.h:299-306 | when the scan meets an empty slot no entry needs the hole, so it can be cleared |
| HashTable.SkTHashTable.EmptyMeansAbsent | avif/src/jvmMain/skia/include/private/SkTHash.h:92-104 | an empty slot reached by probing proves that the key is not in the table |
| HashTable.SkTHashTable.EmptySlotIff | avif/src/jvmMain/skia/include/private/SkTHash.h:64 | the count is below the capacity if and only if some slot is empty |
| HashTable.SkTHashTable.SearchFailsIff | avif/src/jvmMain/skia/include/private/SkTHash.h:92-107 | a search passes every slot without an answer if and only if the table is full and lacks the key |
| HashTable.SkTHashTable.Find | avif/src/jvmMain/skia/include/private/SkTHash.h:92-108 | finds a slot exactly for the keys of the table, with the value the table maps the key to; the closing assertion holds unless every slot of a table is full and the key is absent |
| HashTable.SkTHashTable.UncheckedSet | avif/src/jvmMain/skia/include/private/SkTHash.h:259-283 | the table as a map is updated at the key of the value; the returned slot holds the value |
| HashTable.SkTHashTable.Set | avif/src/jvmMain/skia/include/private/SkTHash.h:83-90 | map update, the change of load used by the run-level results, and a load between a quarter and three quarters kept by itself |
| HashTable.SkTHashTable.RemoveSlot | avif/src/jvmMain/skia/include/private/SkTHash.h:285-315 | shifting entries back removes exactly one key from the map and keeps every other entry reachable; the slots it leaves are those of the step machine at its end, with the hole cleared |
| HashTable.SkTHashTable.NextMovable | avif/src/jvmMain/skia/include/private/SkTHash.h:299-310 | the inner loop: every entry it passes cannot use the hole; it stops at an empty slot or at an entry that must move |
| HashTable.SkTHashTable.RemoveAndShrink | avif/src/jvmMain/skia/include/private/SkTHash.h:128-133 | removal and the halving rule: the change of load used by the run-level results, and the balanced load kept |
| HashTable.SkTHashTable.Remove | avif/src/jvmMain/skia/include/private/SkTHash.h:119-137 | removes exactly the given key from the map, with the change of load used by the run-level results |
| HashTable.SkTHashTable.Resize | avif/src/jvmMain/skia/include/private/SkTHash.h:139-158 | rehashing into any capacity that holds the entries, a power of two or not, loses and changes nothing |
| HashTable.SkTHashTable.ForEach | avif/src/jvmMain/skia/include/private/SkTHash.h:160-178 | visits every entry once and nothing else |
| HashTable.SkTHashTable.FromList | avif/src/jvmMain/skia/include/private/SkTHash.h:438-443 | denotes the map of the list, later pairs winning, in a table of 5/3 slots per pair that never grows meanwhile; it has an empty slot, or no slot at all, if and only if the list is not of length one |
| HashTable.GrowthLeavesRoomIff | avif/src/jvmMain/skia/include/private/SkTHash.h:85-90 | the growth rule keeps an empty slot at every load if and only if there are at least four slots |
| HashTable.RoomForEverIff | avif/src/jvmMain/skia/include/private/SkTHash.h:83-137 | from a load with room, every sequence of sets and removes keeps room if and only if halving the capacity leads to 4, or it is 0 |
| HashTable.ThreePairsFillUp | avif/src/jvmMain/skia/include/private/SkTHash.h:119-137 | a table made from three pairs is full after two removals and one set |
| HashTable.RemoveEndsIff | avif/src/jvmMain/skia/include/private/SkTHash.h:285-315 | the loop of removeSlot ends if and only if some slot is empty |
| HashTable.SkTHashTable.RemoveSlotEndsIff | avif/src/jvmMain/skia/include/private/SkTHash.h:285-315 | on a table the loop of removeSlot ends if and only if the count is below the capacity |
| HashTable.OnlyPairNeverEnds | avif/src/jvmMain/skia/include/private/SkTHash.h:438-443 | the one entry of a table made from a list of one pair can never be removed |
| PathStream.LegalIff | avif/src/jvmMain/skia/include/core/SkPath.h:73-75 | the contour grammar equals the verb-by-verb rule that the first verb and every verb after a Close is a Move |
| PathStream.ReadsInside | avif/src/jvmMain/skia/include/core/SkPath.h:1563-1594 | over a legal stream with matching counts the iterator never peeks before the first point nor reads past the last point or weight |
| PathStream.SegmentsConnect | avif/src/jvmMain/skia/include/core/SkPath.h:1563-1590 | every segment starts at the last point of the verb before it, the position returned with a Close is that point, and no verb but Move follows a Close |
| PathStream.RangeIter.Advance | avif/src/jvmMain/skia/include/core/SkPath.h:1547-1554 | the three cursors always stand at the totals of the verbs passed |
| PathStream.RangeIter.Current | avif/src/jvmMain/skia/include/core/SkPath.h:1563-1571 | the debug assertion holds, the returned position is a point of the array, for every verb but Move the last point of the verb before, and the pointers delimit the event's points and weight |
| PathStream.RangeIter.Walk | avif/src/jvmMain/skia/include/core/SkPath.h:1547-1571 | running the iterator from begin to end yields the events of the path, each once and in order |
| PathStream.RangeIter.EndOfPath | avif/src/jvmMain/skia/include/core/SkPath.h:1547-1554 | at the end all points and all weights are consumed |
| PathStream.PushKeepsForm | avif/src/jvmMain/skia/include/core/SkPath.h:61-76 | appending a verb with its points keeps a stream well-formed when the verb is a Move or a contour is open |
| PathStream.RunInv | avif/src/jvmMain/skia/include/core/SkPathBuilder.h:234-262 | after any sequence of calls the stream is legal, counts match, a Move is pending exactly on an empty path or after a Close, and fIsA says "just moves" exactly when there are only moves |
| PathStream.BuiltPathShowsDrawing | avif/src/jvmMain/skia/include/core/SkPathBuilder.h:254-262 | for every sequence of calls the iterator over the built arrays yields exactly the segments, start points included, that a pen following the calls draws; drawing after a Close starts at the last move point |
| PathStream.SkPathBuilder.EnsureMove | avif/src/jvmMain/skia/include/core/SkPathBuilder.h:255-261 | the step of the run semantics, in place |
| PathStream.SkPathBuilder.MoveTo | avif/src/jvmMain/skia/include/core/SkPathBuilder.h:239-241 | one step of the run semantics, in place: the new point becomes the last move point and no Move is pending |
| PathStream.SkPathBuilder.QuadTo | avif/src/jvmMain/skia/include/core/SkPathBuilder.h:254-262 | one call is one step of the run semantics, in place |
| PathStream.SkPathBuilder.ConicTo | avif/src/jvmMain/skia/include/core/SkPathBuilder.h:254-262 | one call is one step of the run semantics, in place, with its weight |
| PathStream.SkPathBuilder.CubicTo | avif/src/jvmMain/skia/include/core/SkPathBuilder.h:254-262 | one call is one step of the run semantics, in place |
| PathStream.SkPathBuilder.LineTo | avif/src/jvmMain/skia/include/core/SkPathBuilder.h:254-262 | one call is one step of the run semantics, in place |
| PathStream.SkPathBuilder.Close | avif/src/jvmMain/skia/include/core/SkPathBuilder.h:255-261 | one call is one step of the run semantics, in place |
| PathStream.CloseEffect | avif/src/jvmMain/skia/include/core/SkPath.h:985-991 | no effect if and only if the path is empty; after a Close it reopens the contour and closes it again, a departure from the text on SkPath::close |
| MatrixCache.RunKeepsCache | avif/src/jvmMain/skia/include/core/SkMatrix.h:1832-1911 | in every run of writes, reference writes, edits and queries, with queries only when no reference write waits for dirtyMatrixTypeCache, the cache agrees with the nine entries, through the unknown and the only-perspective-valid state |
| MatrixCache.StepKeepsCache | avif/src/jvmMain/skia/include/core/SkMatrix.h:468-486 | each single operation keeps the cache right, for any implementations of the two declared classifiers that meet their documentation |
| MatrixCache.QueriesAreSound | avif/src/jvmMain/skia/include/core/SkMatrix.h:183-205 | a clear public bit implies the documented matrix form; the perspective bit is exact |
| MatrixCache.QueriesAreExact | avif/src/jvmMain/skia/include/core/SkMatrix.h:191-240 | with a computeTypeMask free of false positives, after any disciplined run isIdentity, isScaleTranslate and isTranslate answer true if and only if the matrix has the documented form, and so does isTriviallyIdentity while the mask is known |
| MatrixCache.ScaleTranslateAnswers | avif/src/jvmMain/skia/include/core/SkMatrix.h:1795-1816 | directly after setScaleTranslate, whatever the classifiers: isIdentity if and only if the scales are 1 and the translation is 0, isTranslate if and only if the scales are 1, isScaleTranslate always |
| MatrixCache.KeptReferenceCounterExample | avif/src/jvmMain/skia/include/core/SkMatrix.h:457-472 | writing through a reference kept across a query makes the next hasPerspective wrong |
| MatrixCache.EditTranslationSetsAllIff | avif/src/jvmMain/skia/include/core/SkMatrix.h:191-205 | for updateTranslateMask by itself: "when the perspective bit is set all others are" survives it if and only if there is no perspective or the new translation is not zero |
| MatrixCache.EditTranslationCounterExample | avif/src/jvmMain/skia/include/core/SkMatrix.h:1905-1911 | setting the translation of a perspective matrix to zero clears one of the bits that should all be set |
| MatrixCache.ScaleTranslateRectIff | avif/src/jvmMain/skia/include/core/SkMatrix.h:1795-1816 | directly after setScaleTranslate rectStaysRect answers true whatever the factors; rectangles map to rectangles if and only if both are non-zero |
| MatrixCache.RectStaysRectIff | avif/src/jvmMain/skia/include/core/SkMatrix.h:243-268 | after every disciplined run, an answer true of rectStaysRect means the documented non-zero form, and that rectangles map to rectangles, if and only if the mask is not left over from a setScaleTranslate with a zero factor; without false positives or omissions in computeTypeMask the answer is true exactly for that form and that leftover |
| MatrixCache.FormsMapRects | avif/src/jvmMain/skia/include/core/SkMatrix.h:243-262 | the documented form maps rectangles to rectangles, inside and outside; scaling by zero does not |
| MatrixCache.ScaleTranslateMaskExact | avif/src/jvmMain/skia/include/core/SkMatrix.h:1807-1815 | the translate and scale bits of the mask computed on the spot are set if and only if the matrix has that part, not just conservative; affine and perspective bits stay clear |
| MatrixCache.RectFormMapsRects | avif/src/jvmMain/skia/include/core/SkMatrix.h:243-262 | in the documented form a point is in a rectangle exactly when its image is in the image rectangle |
| MatrixCache.ClassifierExists | avif/src/jvmMain/skia/include/core/SkMatrix.h:1865-1866 | the documented contracts of the two classifiers can be met, even without false positives |
| MatrixCache.SkMatrix.constructor | avif/src/jvmMain/skia/include/core/SkMatrix.h:46-55 | the default matrix is the identity with a known mask free of false positives |
| MatrixCache.SkMatrix.GetType | avif/src/jvmMain/skia/include/core/SkMatrix.h:199-205 | recomputes an unknown mask, leaves a known one alone, and returns the public bits of a complete one |
| MatrixCache.SkMatrix.HasPerspective | avif/src/jvmMain/skia/include/core/SkMatrix.h:293-307 | true exactly when the bottom row is not (0, 0, 1), in every state of the cache |
| MatrixCache.SkMatrix.IsIdentity | avif/src/jvmMain/skia/include/core/SkMatrix.h:207-217 | true only for the identity; and for it whenever the mask has no false positives |
| MatrixCache.SkMatrix.IsScaleTranslate | avif/src/jvmMain/skia/include/core/SkMatrix.h:219-230 | true only for the documented form; and for it whenever the mask has no false positives |
| MatrixCache.SkMatrix.IsTranslate | avif/src/jvmMain/skia/include/core/SkMatrix.h:232-240 | true only for the documented form; and for it whenever the mask has no false positives |
| MatrixCache.SkMatrix.RectStaysRect | avif/src/jvmMain/skia/include/core/SkMatrix.h:263-268 | true only for the documented non-zero form, or over a mask already known for scale-translate matrices with a zero factor |
| MatrixCache.SkMatrix.IsTriviallyIdentity | avif/src/jvmMain/skia/include/core/SkMatrix.h:1895-1903 | true only for the identity, without computing anything; and for it whenever the mask is known and has no false positives |
| MatrixCache.SkMatrix.MapOrigin | avif/src/jvmMain/skia/include/core/SkMatrix.h:1421-1439 | the documented quotients (C/I, F/I) for every matrix with I not zero, and (0, 0) otherwise |
| MatrixCache.SkMatrix.SetScaleTranslate | avif/src/jvmMain/skia/include/core/SkMatrix.h:1795-1816 | scales in the diagonal, tx and ty in the two translation entries, the rest as in the identity, together with a mask that is right for it |
| MatrixCache.ScaleTranslateMaps | avif/src/jvmMain/skia/include/core/SkMatrix.h:1784-1816 | from any state, the matrix written by setScaleTranslate maps (x, y) to (sx*x + tx, sy*y + ty) |
| MatrixCache.SkMatrix.SetAll | avif/src/jvmMain/skia/include/core/SkMatrix.h:554-568 | every entry by its name, cache unknown |
| MatrixCache.SetAllMaps | avif/src/jvmMain/skia/include/core/SkMatrix.h:538-568 | the matrix written by setAll maps points by the named coefficients, and has perspective if and only if the last three are not (0, 0, 1) |
| MatrixCache.SkMatrix.SetEntry | avif/src/jvmMain/skia/include/core/SkMatrix.h:481-486 | the one entry is stored, the other eight stay, cache unknown: valid even from a stale cache |
| MatrixCache.SkMatrix.Element | avif/src/jvmMain/skia/include/core/SkMatrix.h:457-472 | handing out a reference forgets the mask: valid even from a stale cache |
| MatrixCache.SkMatrix.DirtyMatrixTypeCache | avif/src/jvmMain/skia/include/core/SkMatrix.h:1777-1782 | repairs the cache after reference writes, whatever it held |
| MatrixCache.SkMatrix.EditTranslation | avif/src/jvmMain/skia/include/core/SkMatrix.h:1905-1911 | exactly the two translation entries change; a right cache stays right |
| MatrixCache.EditTranslationMaps | avif/src/jvmMain/skia/include/core/SkMatrix.h:1905-1911 | every image moves by the change of the translation, and the bottom row stays |
| MatrixCache.SkMatrix.GetPerspectiveTypeMaskOnly | avif/src/jvmMain/skia/include/core/SkMatrix.h:1887-1893 | recomputes only a mask without a perspective bit; the bit returned is exact |
| MatrixCache.SkMatrix.WriteElement | avif/src/jvmMain/skia/include/core/SkMatrix.h:457-472 | a reference write stores one entry and keeps the cache right while the mask says nothing |
| MatrixCache.SkMatrix.UpdateTranslateMask | avif/src/jvmMain/skia/include/core/SkMatrix.h:1905-1911 | the translate bit becomes exact, no other bit changes |
| MatrixCache.UpdatedMaskExact | avif/src/jvmMain/skia/include/core/SkMatrix.h:1905-1911 | the updated mask has the translate bit if and only if there is a translation, and agrees with the old one in every other bit |
| MatrixCache.EditTranslationOk | avif/src/jvmMain/skia/include/core/SkMatrix.h:1905-1911 | a translation edit followed by updateTranslateMask keeps the cache right in every state |
| Matrix44.MajorOrders | avif/src/jvmMain/skia/include/core/SkM44.h:208-219 | despite column-major storage RowMajor and ColMajor put every value where rc reads it |
| Matrix44.SkM44.Rows | avif/src/jvmMain/skia/include/core/SkM44.h:191-198 | four setRow calls give the row-major matrix of the rows |
| Matrix44.SkM44.Cols | avif/src/jvmMain/skia/include/core/SkM44.h:199-206 | four setCol calls give the column-major matrix of the columns |
| Matrix44.SkM44.SetRow | avif/src/jvmMain/skia/include/core/SkM44.h:277-283 | changes exactly the entries of one row as rc sees them |
| Matrix44.SkM44.SetCol | avif/src/jvmMain/skia/include/core/SkM44.h:284-287 | changes exactly the entries of one column as rc sees them |
| Matrix44.SkM44.SetRC | avif/src/jvmMain/skia/include/core/SkM44.h:262-266 | changes exactly one entry as rc sees them |
| Matrix44.SkM44.Row | avif/src/jvmMain/skia/include/core/SkM44.h:268-271 | the four entries of a row as rc sees them |
| Matrix44.SkM44.Col | avif/src/jvmMain/skia/include/core/SkM44.h:272-275 | the four entries of a column as rc sees them |
| Matrix44.AsM33OfProductIff | avif/src/jvmMain/skia/include/core/SkM44.h:405-409 | dropping the third row and column commutes with products if and only if the dropped column of the left factor never meets the dropped row of the right one |
| Matrix44.ConcatMaps | avif/src/jvmMain/skia/include/core/SkMatrix.h:722-739 | without perspective the product maps like the right factor followed by the left one |
| Matrix44.EmbedPreservesProducts | avif/src/jvmMain/skia/include/core/SkM44.h:397-416 | the product of two embedded 3x3 matrices is the embedding of their product; asM33 undoes the embedding |
| EncodedOrigin.ShowsNamedSides | avif/src/jvmMain/skia/include/codec/SkEncodedOrigin.h:13-43 | the matrix shows the 0th row and 0th column of the source exactly on the two sides the origin is named after |
| EncodedOrigin.OrientationIsBijection | avif/src/jvmMain/skia/include/codec/SkEncodedOrigin.h:27-52 | a one-to-one map of the source rectangle, sides exchanged where reported, onto [0, w] x [0, h], undone by one of the eight; 6 and 8 undo each other, the others themselves |
| EncodedOrigin.SourceSizeReadingIff | avif/src/jvmMain/skia/include/codec/SkEncodedOrigin.h:27-32 | with w and h read as the source size the promised destination rectangle is met if and only if the origin does not exchange the sides or they are equal |
| EncodedOrigin.SourceSizeReadingCounterExample | avif/src/jvmMain/skia/include/codec/SkEncodedOrigin.h:27-43 | a corner of a 1 by 2 source of origin 6 lands outside [0, 1] x [0, 2] |
| EncodedOrigin.OrientationsCompose | avif/src/jvmMain/skia/include/codec/SkEncodedOrigin.h:32-52 | the product of any two orientation matrices is the matrix of an orientation, the one obtained by composing axis exchanges and flips |
| EncodedOrigin.OriginIsFlips | avif/src/jvmMain/skia/include/codec/SkEncodedOrigin.h:32-52 | the eight matrices are exactly the eight combinations of an axis exchange and two flips; the exchange is what SkEncodedOriginSwapsWidthHeight reports |
| EncodedOrigin.OrientationsFormGroup | avif/src/jvmMain/skia/include/codec/SkEncodedOrigin.h:13-25 | composition is associative with the default as unit and inverses on both sides |
| RowGeometry.MinRowBytesExact | avif/src/jvmMain/skia/include/core/SkImageInfo.h:491-507 | the 64-bit product is exact for every non-negative width, and a negative width never passes for a row of 31 bits |
| RowGeometry.ShiftPerPixel | avif/src/jvmMain/skia/include/core/SkImageInfo.h:478-483 | at most 3, as documented, if and only if the type is not 32-bit float, and never more than 4 |
| RowGeometry.BytesHoldChannels | avif/src/jvmMain/skia/include/core/SkColorType.h:19-49 | for every colour type 8 times the bytes of a pixel is the total width of the documented channels, padding included |
| RowGeometry.ValidRowBytesIff | avif/src/jvmMain/skia/include/core/SkImageInfo.h:584-591 | for every image accepts exactly the whole numbers of pixels of at least minRowBytes64; for images with a size, those that hold a row |
| RowGeometry.MinRowBytesValidIff | avif/src/jvmMain/skia/include/core/SkImageInfo.h:501-507 | for every image minRowBytes is valid if and only if the row size is between 0 and 31 bits |
| RowGeometry.OffsetExact | avif/src/jvmMain/skia/include/private/SkImageInfoPriv.h:88-93 | offsets of pixels in range never wrap and every pixel lies inside computeByteSize |
| RowGeometry.ByteSizeExact | avif/src/jvmMain/skia/include/core/SkImageInfo.h:543-554 | the documented storage with its limits, and tight: the last byte of the last pixel is the last byte |
| RowGeometry.PixelsDisjoint | avif/src/jvmMain/skia/include/private/SkImageInfoPriv.h:88-93 | two different pixels share no byte |
| RowGeometry.AvifRGBImage.Prepare | avif/src/jvmMain/cpp/avifImageJvm.cpp:14-35 | exactly three colour types are accepted; for each the channels, widths and float flag libavif is asked for are those documented for the bitmap (an integer type leaves the flag at its default), the depth is 16 for half floats and else 8, and the stride is the frame width times the pixel size, in 32 bits (FrameStride) |
| RowGeometry.StrideIsMinRowBytes | avif/src/jvmMain/cpp/avifImageJvm.cpp:35 | for equal widths and a row of 31 bits the stride is minRowBytes |
| RowGeometry.DecodedPixelsInPlaceIff | avif/src/jvmMain/cpp/avifImageJvm.cpp:35-40 | for a frame and a bitmap of any two sizes and the stored 32-bit stride: every common pixel is written where the bitmap reads it if and only if the bitmap's rows are as long as the stride, or at most one row or no column is common |
| RowGeometry.WritesInsideIff | avif/src/jvmMain/cpp/avifImageJvm.cpp:35-40 | all bytes the decoder writes lie inside a buffer if and only if the end of the frame's last pixel does; the size of the bitmap's buffer is computeByteSize |
| RowGeometry.SameSizeInPlaceIff | avif/src/jvmMain/cpp/avifImageJvm.cpp:35-40 | for equal sizes everything is written inside the bitmap, and in place if and only if the bitmap's row size is the 32-bit product, or there is at most one row or no column |
| RowGeometry.BitmapInPlaceIff | avif/src/jvmMain/skia/include/core/SkBitmap.h:396-402 | for a bitmap of the frame's size with a row size of at most 31 bits: the stride is minRowBytes, and pixels land in place if and only if the bitmap is tightly packed, has at most one row, or has no column |
| RowGeometry.PaddedBitmapCounterExample | avif/src/jvmMain/cpp/avifImageJvm.cpp:35-36 | a valid row size of 8 for a single column of 4-byte pixels: the second row is read at 8 and written at 4 |
| RowGeometry.LargeFrameCounterExample | avif/src/jvmMain/cpp/avifImageJvm.cpp:35-40 | a frame of two pixels decoded into a bitmap of one writes past its 4 bytes |
| RowGeometry.FramePixelsApartIff | avif/src/jvmMain/cpp/avifImageJvm.cpp:35-40 | two pixels of a frame never share a byte if and only if its row fits 32 bits or it has at most one row |
| CanvasGuard.BelowUntouched | avif/src/jvmMain/skia/include/core/SkCanvas.h:769-800 | what lies below the lowest depth a program of saves, restores, edits and nested guards reaches is never changed |
| CanvasGuard.LevelHoldsLast | avif/src/jvmMain/skia/include/core/SkCanvas.h:769-800 | after any program every level of the stack holds the state last written or copied there, or is gone if it was popped last, nested guards included |
| CanvasGuard.GuardRestoresIff | avif/src/jvmMain/skia/include/core/SkCanvas.h:2571-2593 | for every body, saving or not: the guard gives back exactly the stack it found if and only if the last thing done to each of its levels, if any, put back the state that was there |
| CanvasGuard.GuardAboveRestoresIff | avif/src/jvmMain/skia/include/core/SkCanvas.h:2571-2603 | for a body that stays at or above the recorded count only the top level matters: restored if and only if the last state written at the recorded depth, if any, is the one that was there; after an explicit restore() the rest runs on that stack and is not undone |
| CanvasGuard.GuardBelowKeeps | avif/src/jvmMain/skia/include/core/SkCanvas.h:2589-2603 | a body that ends below the recorded count is not undone: what it left stays |
| CanvasGuard.Perform | avif/src/jvmMain/skia/include/core/SkCanvas.h:2571-2603 | guard objects created, restored and destroyed around a body have exactly the effect stated for programs with guards, also after their own restore() |
| CanvasGuard.GuardRestoresStack | avif/src/jvmMain/skia/include/core/SkCanvas.h:2563-2603 | in particular a saving guard gives back the whole stack after any body that never pops the saved copy; after an explicit restore() the destructor undoes nothing more |
| CanvasGuard.UnsavedGuardRestoresDepth | avif/src/jvmMain/skia/include/core/SkCanvas.h:2571-2593 | a guard that does not save gives back everything but the current state, which is the last one its body wrote at the recorded depth |
| CanvasGuard.PoppedCopyCounterExample | avif/src/jvmMain/skia/include/core/SkCanvas.h:2571-2593 | a body that pops to the recorded count and edits changes the state the guard should have kept |
| CanvasGuard.SkCanvas.RestoreToCount | avif/src/jvmMain/skia/include/core/SkCanvas.h:790-800 | the depth becomes the smaller of itself and the count, at least 1; every level up to it is unchanged |
| CanvasGuard.SkCanvas.Save | avif/src/jvmMain/skia/include/core/SkCanvas.h:575-592 | adds a copy of the current state and returns the count that restores it |
| CanvasGuard.SkCanvas.Restore | avif/src/jvmMain/skia/include/core/SkCanvas.h:768-778 | one level less, the rest unchanged; nothing at the initial state |
| CanvasGuard.SkAutoCanvasRestore.constructor | avif/src/jvmMain/skia/include/core/SkCanvas.h:2577-2584 | records the count before the optional save; nothing for a null canvas |
| CanvasGuard.SkAutoCanvasRestore.Destroy | avif/src/jvmMain/skia/include/core/SkCanvas.h:2589-2593 | restores to the recorded count unless the canvas was forgotten |
| CanvasGuard.SkAutoCanvasRestore.RestoreNow | avif/src/jvmMain/skia/include/core/SkCanvas.h:2595-2603 | restores once and forgets the canvas |
| ContourSegments.Next | avif/src/jvmMain/skia/include/core/SkContourMeasure.h:66-72 | the first later segment with another point index, found inside the array whenever one exists |
| ContourSegments.Walk | avif/src/jvmMain/skia/include/core/SkContourMeasure.h:66-72 | calling Next as long as there is a next one makes a walk over the segments |
| ContourSegments.WalkVisitsRuns | avif/src/jvmMain/skia/include/core/SkContourMeasure.h:66-72 | repeated Next visits the first segment of every maximal run of equal point indices, in order, and no other |

## Left out

- libavif, JNI, array pinning and exception texts: foreign code without bodies here.
- Compose, SwiftUI, Android and desktop entry points: user interface.
- Skia algorithms that are only declared: stroking, convexity, arcs, codecs, drawing, text, GPU, serialization.
- Floating-point rounding, infinities and NaN: scalars are real numbers.
- Transcendental constructors (setRotate, RSXform) and colour-space functions.
- SkFontStyle, path fill-type bits, RawIter::peek and the 16-bit pixel conversions: they would add only easy members.
- Builder calls that add ovals, rounded rectangles, polygons and whole paths, and fSegmentMask: declared only.
- Hash-table iterators, copy and move assignment, and capacities beyond a 32-bit int: they add no state of their own.
- HashTable.SkTHashTable.Find: returns a slot index, not a pointer, so writing through the returned pointer is not modelled.
- PathStream.SkPathBuilder.Close: departs from SkPath::close after a Close; the body of the builder's own close is not part of this model.
- HashTable.SkTHashTable.Remove: asks for an empty slot besides the asserted presence of the key, because on a full table the loop does not end (RemoveEndsIff).
- FixedPoint.IsPow2Iff: unsigned types only; subtracting one from the smallest signed value is undefined in the source.
- SkBlendARGB32 and SkPMSrcOver of sources that are not premultiplied: the type SkPMColor excludes them.
- Matrices mapped through the per-type procedure tables: the procedures are only declared.

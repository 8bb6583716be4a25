# tattoo-ref pixel core in Dafny

This project models the pixel processing of the tattoo-reference tool
(`tattoo-ref/tattoo-ref.js`). The tool takes the RGBA buffer of a browser
`ImageData`, copies it and runs three steps on the copy:

1. **Tone.** Every pixel becomes gray at its BT.601 luma, scaled to 0..1,
   multiplied by `brightness`, stretched around 0.5 by `contrast`, clamped
   to 0..1 and written back at 0..255 into R, G and B. Alpha is kept.
2. **Blur.** This runs when `smoothness > 0.01`. It is a box blur of radius
   `Math.round(1 + 3 * smoothness)` over the red channel. A horizontal pass
   writes into a temporary buffer, then a vertical pass writes back in
   place. Each output is the mean of the in-bounds samples of its window.
3. **Lines.** This runs when `lineStrength > 0.01`. `sobelEdges` builds a
   fresh edge image: for every interior pixel it computes the 3x3 Sobel
   gradient of the red channel and stores the magnitude, clamped to 0..255.
   Each pixel's gray is then lowered by `lineStrength` times its edge
   strength, clamped to 0..255.

Modules:
- `Bytes` (bytes.dfy) holds the numeric primitives:
  - `ByteStore` is what a `Uint8ClampedArray` keeps when a number is
    assigned: clamped to 0..255 and rounded to the nearest integer, ties to
    even.
  - `ClampReal` is `Math.max`/`Math.min`.
  - `MathRound` is `Math.round`.
- `Raster` (raster.dfy) holds the `ImageData` class and the index
  arithmetic `(y * width + x) * 4`.
- `Tone`, `Blur`, `Sobel` and `Pipeline` hold the steps.

Each loop of the source is a method over arrays, proved against a function
on the flat sample sequence (`Toned`, `Blurred`, `Sobeled`, `Darkened`).
Those functions are in turn related to independent statements: bounds,
flat-image behaviour, the Sobel kernels written out, and the rounded square
root.

Behaviour of the code that the model keeps:
- The blur shrinks its window at the borders; it does not replicate edge
  pixels.
- The blur recomputes every window sum; it keeps no running sum.
- The blur reads only the red sample of each pixel.
- Radius 0 copies red into R, G and B.
- Contrast is applied around 0.5 on the 0..1 scale, which is 127.5 on the
  byte scale.
- Every step stores bytes, so the tone values are rounded before the blur
  reads them.
- Alpha is copied from the input through tone, blur and darkening; it is
  never forced opaque.
- The Sobel image itself has alpha 255 inside and 0 on its border.

## Model

| member | source | states |
|---|---|---|
| Bytes.ClampReal | tattoo-ref/tattoo-ref.js:93 | the result lies in lo..hi, equals v when v is in range and the nearer bound otherwise |
| Bytes.ByteStore | tattoo-ref/tattoo-ref.js:96 | a store into the clamped byte array gives 0 for v <= 0 and 255 for v >= 255; otherwise a byte within 1/2 of v, and the even one on a tie |
| Bytes.ByteStoreMonotone | tattoo-ref/tattoo-ref.js:96 | storing keeps the order of two values |
| Bytes.ByteStoreNearest | tattoo-ref/tattoo-ref.js:96 | a value strictly within 1/2 of byte n is stored as n |
| Bytes.MathRound | tattoo-ref/tattoo-ref.js:101 | Math.round gives the integer r with r - 1/2 <= x < r + 1/2 |
| Raster.IndexOf | tattoo-ref/tattoo-ref.js:191 | sample c of in-bounds pixel (x, y) at (y * width + x) * 4 + c lies inside the buffer and maps back to x, y and c |
| Raster.PixelX | tattoo-ref/tattoo-ref.js:185 | the column x of the pixel that holds sample i, the inverse of the index arithmetic |
| Raster.PixelY | tattoo-ref/tattoo-ref.js:184 | the row y of the pixel that holds sample i |
| Raster.At | tattoo-ref/tattoo-ref.js:196-198 | sample c of in-bounds pixel (x, y), read at (y * width + x) * 4 + c |
| Raster.Red | tattoo-ref/tattoo-ref.js:191-192 | the red sample data[(y * width + x) * 4] of in-bounds pixel (x, y), the only channel the blur and Sobel loops read |
| Raster.Idx | tattoo-ref/tattoo-ref.js:191 | the flat index (y * width + x) * 4 of the red sample of pixel (x, y), the offset every loop computes |
| Raster.PixelOf | tattoo-ref/tattoo-ref.js:196 | every sample of the buffer belongs to an in-bounds pixel and is found again from that pixel and its channel |
| Raster.RowMajorBefore | tattoo-ref/tattoo-ref.js:184-185 | pixel (px, py) comes before (x, y) in the y-outer, x-inner order of the loops |
| Raster.Gray | tattoo-ref/tattoo-ref.js:96 | every pixel has R = G = B, the shape each write of the source leaves |
| Raster.SameAlpha | tattoo-ref/tattoo-ref.js:198 | two buffers agree in every alpha sample |
| Raster.FlatColour | tattoo-ref/tattoo-ref.js:79-81 | every pixel of the buffer has colour (r, g, b) |
| Raster.RedWithin | tattoo-ref/tattoo-ref.js:191-192 | every red sample lies in lo..hi |
| Raster.ImageData.constructor | tattoo-ref/tattoo-ref.js:225 | new ImageData(width, height) has a fresh buffer of width*height*4 zero samples |
| Raster.ImageData.Copy | tattoo-ref/tattoo-ref.js:68-72 | the working image is a fresh copy of the original's samples with the same size |
| Raster.ImageData.Valid | tattoo-ref/tattoo-ref.js:68-74 | the buffer holds width * height * 4 samples, as every ImageData does |
| Tone.Luma | tattoo-ref/tattoo-ref.js:83 | luma lies in 0..255 and a gray colour (r = g = b) has luma r |
| Tone.AdjustedGray | tattoo-ref/tattoo-ref.js:84-93 | the adjusted gray level is always within 0..1 |
| Tone.ToneByte | tattoo-ref/tattoo-ref.js:83-96 | the byte written into R, G and B for a colour (r, g, b): the adjusted gray level times 255, stored into the clamped byte array |
| Tone.ToneCurve | tattoo-ref/tattoo-ref.js:83-96 | the tone formula at fixed brightness and contrast as a function of (r, g, b) |
| Tone.RecolorPixels | tattoo-ref/tattoo-ref.js:78-97 | the per-pixel loop leaves exactly `Recolored` of the old samples: R, G and B get the formula of the pixel's original colour and alpha is untouched |
| Tone.ToneStep | tattoo-ref/tattoo-ref.js:78-97 | the tone loop leaves exactly `Toned` of the old samples |
| Tone.Toned | tattoo-ref/tattoo-ref.js:78-97 | the whole buffer after the tone loop: every pixel's R, G and B set to the ToneByte of its original colour, alpha kept, length unchanged |
| Tone.RecoloredAt | tattoo-ref/tattoo-ref.js:79-96 | sample i after the per-pixel loop: f of its pixel's original R, G and B in R, G and B, the original alpha in alpha |
| Tone.Recolored | tattoo-ref/tattoo-ref.js:78-97 | the whole buffer after the per-pixel loop of lines 78-97, length unchanged |
| Tone.RecoloredPixel | tattoo-ref/tattoo-ref.js:79-96 | pixel p after the loop has R = f(original R, G, B), G = B = R, and its original alpha |
| Tone.TonedPixel | tattoo-ref/tattoo-ref.js:79-96 | pixel p after the tone loop is gray at the tone of its original colour and keeps its alpha |
| Tone.RecoloredGray | tattoo-ref/tattoo-ref.js:96 | after the loop every pixel has R = G = B and the alpha channel is the input's |
| Tone.RecoloredFlat | tattoo-ref/tattoo-ref.js:78-97 | an image of one colour (r, g, b) becomes flat gray f(r, g, b) |
| Tone.TonedFlat | tattoo-ref/tattoo-ref.js:78-97 | an image of one colour becomes flat gray at that colour's tone |
| Tone.ToneNeutral | tattoo-ref/tattoo-ref.js:83-94 | at brightness 1 and contrast 1 the tone is the luma rounded to a byte |
| Tone.ToneNeutralGray | tattoo-ref/tattoo-ref.js:83-94 | at neutral settings a gray pixel keeps its level, so white stays 255 and black stays 0 |
| Tone.ToneNeutralPrimaries | tattoo-ref/tattoo-ref.js:83-94 | at neutral settings pure red, green and blue become 76, 150 and 29 |
| Tone.ToneMonotone | tattoo-ref/tattoo-ref.js:83-96 | with brightness and contrast >= 0, a colour of higher luma never gets a darker tone |
| Tone.AdjustedGrayMonotone | tattoo-ref/tattoo-ref.js:84-93 | with brightness and contrast >= 0 the adjusted level grows with luma |
| Blur.InBoundsCountIs | tattoo-ref/tattoo-ref.js:188-194 | the number of in-bounds positions in a..b-1 is max(0, min(b, n) - max(a, 0)) |
| Blur.InBoundsCount | tattoo-ref/tattoo-ref.js:188-193 | the count of positions a..b-1 that lie in 0..n-1: the `continue`-filtered `count++` of the window loops |
| Blur.WindowCount | tattoo-ref/tattoo-ref.js:188-195 | the window of an in-bounds pixel spans max(0, x-r)..min(n-1, x+r), so its count is at least 1 and the division is defined |
| Blur.MeanBetween | tattoo-ref/tattoo-ref.js:195 | the stored mean of samples that all lie in lo..hi lies in lo..hi |
| Blur.Mean | tattoo-ref/tattoo-ref.js:195-197 | the byte stored for sum / count: the quotient of the window sum by its count of in-bounds samples, rounded as the clamped byte array stores it |
| Blur.RowWindow | tattoo-ref/tattoo-ref.js:186-194 | the window loop returns the sum and the count of the in-bounds red samples of the row window |
| Blur.RowSum | tattoo-ref/tattoo-ref.js:186-192 | the sum of the in-bounds red samples of row y between columns a and b-1, the `sum` of the horizontal window |
| Blur.RowMeanAt | tattoo-ref/tattoo-ref.js:195-197 | the stored mean of the row window of pixel (x, y), the value written into tmp |
| Blur.RowsBlurredAt | tattoo-ref/tattoo-ref.js:196-198 | sample i of tmp after the horizontal pass: the row mean in R, G and B, the image's alpha in alpha |
| Blur.RowsBlurred | tattoo-ref/tattoo-ref.js:184-200 | tmp after the horizontal pass, same length as the image |
| Blur.BlurRows | tattoo-ref/tattoo-ref.js:184-200 | the horizontal pass leaves exactly `RowsBlurred` in tmp: the row mean in R, G and B and a copy of the image's alpha |
| Blur.ColumnWindow | tattoo-ref/tattoo-ref.js:205-213 | the window loop returns the sum and the count of the in-bounds red samples of tmp in the column window |
| Blur.ColumnSum | tattoo-ref/tattoo-ref.js:205-211 | the sum of the in-bounds red samples of tmp in column x between rows a and b-1, the `sum` of the vertical window |
| Blur.ColumnMeanAt | tattoo-ref/tattoo-ref.js:214-216 | the stored mean of the column window of tmp at pixel (x, y), the value written back into the image |
| Blur.ColumnsBlurredAt | tattoo-ref/tattoo-ref.js:215-216 | sample i of the image after the vertical pass: the column mean of tmp in R, G and B, the image's own alpha in alpha |
| Blur.ColumnsBlurred | tattoo-ref/tattoo-ref.js:203-219 | the image after the vertical pass, same length |
| Blur.ColumnMajorBefore | tattoo-ref/tattoo-ref.js:203-204 | pixel (px, py) comes before (x, y) in the x-outer, y-inner order of the vertical pass |
| Blur.BlurColumns | tattoo-ref/tattoo-ref.js:203-219 | the vertical pass, column by column in place, leaves exactly `ColumnsBlurred`: the column mean of tmp in R, G and B, alpha untouched |
| Blur.BoxBlur | tattoo-ref/tattoo-ref.js:179-220 | boxBlur leaves exactly `Blurred` of the old samples |
| Blur.Blurred | tattoo-ref/tattoo-ref.js:216-217 | the blur keeps the alpha channel |
| Blur.RowSumBounds | tattoo-ref/tattoo-ref.js:186-194 | a row sum of in-bounds samples that all lie in lo..hi lies between lo and hi times their count |
| Blur.ColumnSumBounds | tattoo-ref/tattoo-ref.js:205-213 | the same for a column sum of tmp |
| Blur.RowsBlurredPixel | tattoo-ref/tattoo-ref.js:195-198 | tmp at pixel (x, y) holds the row mean in R, G and B and the image's alpha |
| Blur.ColumnsBlurredPixel | tattoo-ref/tattoo-ref.js:214-217 | the image at pixel (x, y) holds the column mean of tmp in R, G and B and keeps its alpha |
| Blur.BlurWindowBounded | tattoo-ref/tattoo-ref.js:184-219 | every blurred R, G, B lies between the least and greatest red sample of the in-bounds part of its (2r+1) x (2r+1) window |
| Blur.BlurFlat | tattoo-ref/tattoo-ref.js:179-220 | an image whose red channel is flat at k comes out with R = G = B = k everywhere, at any radius, alpha kept |
| Blur.BlurRadiusZero | tattoo-ref/tattoo-ref.js:188-197 | with radius 0 each pixel's R, G and B become its red sample |
| Blur.BlurredGray | tattoo-ref/tattoo-ref.js:197-216 | after the blur every pixel has R = G = B and the input's alpha |
| Sobel.EdgeLevelFrom | tattoo-ref/tattoo-ref.js:249-250 | the upward search ends at the nearest integer square root of m, capped at 255 |
| Sobel.EdgeLevel | tattoo-ref/tattoo-ref.js:249-250 | v is the integer nearest to sqrt(m), capped at 255: v = 0 or v*v - v < m, and v = 255 or m <= v*v + v |
| Sobel.EdgeLevelIsStoredRoot | tattoo-ref/tattoo-ref.js:249-252 | for every real s >= 0 with s*s = m, storing clamp(s, 0, 255) gives EdgeLevel(m): Math.sqrt, the clamp and the store together |
| Sobel.EdgeLevelOfSquare | tattoo-ref/tattoo-ref.js:249-250 | the edge byte of a perfect square k*k is k |
| Sobel.EdgeLevelMonotone | tattoo-ref/tattoo-ref.js:249-250 | a larger gx*gx + gy*gy never gives a smaller edge byte |
| Sobel.EdgeByte | tattoo-ref/tattoo-ref.js:249-252 | the byte stored for Math.max(0, Math.min(255, Math.sqrt(gx*gx + gy*gy))), as EdgeLevel of gx*gx + gy*gy |
| Sobel.NeighbourhoodAt | tattoo-ref/tattoo-ref.js:239-242 | tap k = 3(j+1) + (i+1) of the neighbourhood reads the red sample at offset (i, j) |
| Sobel.Interior | tattoo-ref/tattoo-ref.js:231-232 | pixel (x, y) lies within the loop bounds 1..width-2 and 1..height-2, so all eight neighbours are in the image |
| Sobel.Neighbourhood | tattoo-ref/tattoo-ref.js:237-242 | the nine red samples read by the j-outer, i-inner loops, in the order of k |
| Sobel.Dot | tattoo-ref/tattoo-ref.js:243-245 | the sum of kernel[k] * gray over the first n taps, as the two accumulators build it |
| Sobel.Convolve | tattoo-ref/tattoo-ref.js:233-247 | the two kernel loops return the Gx and Gy sums of the 3x3 neighbourhood |
| Sobel.Gx | tattoo-ref/tattoo-ref.js:228-247 | the dot product of the horizontal kernel with the red samples of the 3x3 neighbourhood taken row by row |
| Sobel.Gy | tattoo-ref/tattoo-ref.js:229-247 | the dot product of the vertical kernel with the red samples of the 3x3 neighbourhood taken row by row |
| Sobel.SobelEdges | tattoo-ref/tattoo-ref.js:223-258 | sobelEdges returns a fresh image of the same size holding exactly `Sobeled` of the input, and the input is unchanged |
| Sobel.Sobeled | tattoo-ref/tattoo-ref.js:225-253 | the edge image of the same length: EdgeByte in R, G and B and 255 in alpha at interior pixels, 0 in every sample of the border |
| Sobel.SobelAt | tattoo-ref/tattoo-ref.js:225-253 | sample i of the edge image: 0 on the border, 255 in alpha inside, EdgeByte of the gradients in R, G and B inside |
| Sobel.DotGx | tattoo-ref/tattoo-ref.js:228 | the row-major kernel [-1,0,1,-2,0,2,-1,0,1] is the right column minus the left, the middle row weighted 2 |
| Sobel.DotGy | tattoo-ref/tattoo-ref.js:229 | the row-major kernel [-1,-2,-1,0,0,0,1,2,1] is the bottom row minus the top, the middle column weighted 2 |
| Sobel.GxFormula | tattoo-ref/tattoo-ref.js:237-244 | Gx of pixel (x, y) written out over its neighbours' red samples |
| Sobel.GyFormula | tattoo-ref/tattoo-ref.js:237-244 | Gy of pixel (x, y) written out over its neighbours' red samples |
| Sobel.SobelFlatNeighbourhood | tattoo-ref/tattoo-ref.js:237-250 | a flat 3x3 neighbourhood has gx = gy = 0 and edge byte 0 |
| Sobel.SobeledPixel | tattoo-ref/tattoo-ref.js:225-253 | an interior pixel gets the edge byte in R, G and B and alpha 255; every sample of a border pixel stays 0 |
| Sobel.SobelFlatPixel | tattoo-ref/tattoo-ref.js:231-253 | on an image with flat red, each pixel of the edge image has R = G = B = 0 |
| Sobel.SobelFlat | tattoo-ref/tattoo-ref.js:231-253 | on an image with flat red, every R, G and B of the edge image is 0 |
| Pipeline.MixPixels | tattoo-ref/tattoo-ref.js:109-119 | the per-pixel loop leaves exactly `Mixed`: R, G and B get f of the pixel's R and its edge R, and alpha is untouched |
| Pipeline.DarkenEdges | tattoo-ref/tattoo-ref.js:106-119 | the darkening loop leaves exactly `Darkened` of the old samples and the edge image |
| Pipeline.DarkenByte | tattoo-ref/tattoo-ref.js:110-117 | the byte written for a pixel of gray base and edge strength e: base - lineStrength * e, clamped to 0..255 and stored |
| Pipeline.DarkenCurve | tattoo-ref/tattoo-ref.js:114-117 | the darkening formula at a fixed line strength as a function of base and edge |
| Pipeline.Darkened | tattoo-ref/tattoo-ref.js:109-119 | the whole buffer after the darkening loop: R, G and B of each pixel set to DarkenByte of its R and the edge image's R, alpha kept, length unchanged |
| Pipeline.MixedAt | tattoo-ref/tattoo-ref.js:110-117 | sample i after the per-pixel loop: f of its pixel's R and the edge image's R in R, G and B, alpha untouched |
| Pipeline.Mixed | tattoo-ref/tattoo-ref.js:109-119 | the whole buffer after the per-pixel loop of lines 109-119, length unchanged |
| Pipeline.ProcessImage | tattoo-ref/tattoo-ref.js:67-120 | processImage returns a fresh image of the original's size holding exactly `Processed`, and the original is unchanged |
| Pipeline.BlurRadius | tattoo-ref/tattoo-ref.js:101 | the blur radius Math.round(1 + smoothness * 3) |
| Pipeline.Smoothed | tattoo-ref/tattoo-ref.js:100-102 | the blur step: Blurred at radius BlurRadius(smoothness) when smoothness > 0.01, the image unchanged otherwise, same length |
| Pipeline.Lined | tattoo-ref/tattoo-ref.js:105-120 | the line step: Darkened by the Sobel image of the same buffer when lineStrength > 0.01, the image unchanged otherwise, same length |
| Pipeline.Processed | tattoo-ref/tattoo-ref.js:78-120 | the image processImage produces, same length as the original: the tone step, then the blur when smoothness > 0.01, then the darkening by the edges when lineStrength > 0.01 |
| Pipeline.BlurRadiusRange | tattoo-ref/tattoo-ref.js:100-101 | a smoothness above 0.01 gives a radius of at least 1, and one of at most 1 gives a radius of at most 4 |
| Pipeline.DarkenNeverBrightens | tattoo-ref/tattoo-ref.js:114-116 | with lineStrength >= 0 the darkened gray is at most the base gray |
| Pipeline.DarkenNoEdge | tattoo-ref/tattoo-ref.js:114-116 | with edge strength 0 the base gray is kept |
| Pipeline.DarkenMonotoneInEdge | tattoo-ref/tattoo-ref.js:114-116 | with lineStrength >= 0 a stronger edge never gives a lighter pixel |
| Pipeline.MixedGray | tattoo-ref/tattoo-ref.js:117-118 | after the darkening loop every pixel has R = G = B and the input's alpha |
| Pipeline.DarkenedNeverBrighter | tattoo-ref/tattoo-ref.js:109-119 | with lineStrength >= 0 no R, G or B after darkening is brighter than the pixel's R before |
| Pipeline.ProcessedGray | tattoo-ref/tattoo-ref.js:78-120 | at any settings the result is gray in every pixel and has the original's alpha channel |
| Pipeline.DarkenedFlat | tattoo-ref/tattoo-ref.js:109-119 | a flat gray image whose edge image is 0 is left as it is |
| Pipeline.SmoothedFlat | tattoo-ref/tattoo-ref.js:100-102 | the gated blur keeps a flat gray image |
| Pipeline.LinedFlat | tattoo-ref/tattoo-ref.js:105-120 | the gated line step keeps a flat gray image |
| Pipeline.StepsKeepFlat | tattoo-ref/tattoo-ref.js:100-120 | blur and line steps together keep a flat gray image |
| Pipeline.ProcessFlat | tattoo-ref/tattoo-ref.js:67-120 | an image of one colour comes out as flat gray at that colour's tone, at any smoothness and line strength |

## Left out

- DOM lookups, slider wiring and live updates (tattoo-ref/tattoo-ref.js:3-17, 130-141) are user-interface plumbing. The four settings are parameters of `ProcessImage`.
- The `if (!originalImageData) return;` guard (tattoo-ref/tattoo-ref.js:60) is left out. The model always receives an image.
- Image loading and downscaling (tattoo-ref/tattoo-ref.js:25-54) are browser I/O: `FileReader`, `Image`, `drawImage` and `getImageData`.
- Canvas output and JPEG encoding (tattoo-ref/tattoo-ref.js:123-127) are foreign browser calls: `putImageData` and `toDataURL`.
- `resetSettings` and the download handler (tattoo-ref/tattoo-ref.js:146-173) only manage UI state and DOM anchors.
- The module-level variables `originalImageData` and `lastProcessedDataUrl` (tattoo-ref/tattoo-ref.js:19-20) are UI bookkeeping. The image is passed explicitly.
- Floating point is modelled with exact `real` arithmetic, so IEEE-754 rounding of the 0.299/0.587/0.114 weights and of the divisions is not reproduced. A value that lands within one float rounding of a half-way point may round differently in the browser.
- Sobel.EdgeLevel: Math.sqrt is not a primitive here. The stored edge byte is computed exactly as the nearest integer square root capped at 255. `EdgeLevelIsStoredRoot` shows this equals the stored clamp of the exact real square root.
- Blur.BoxBlur: the radius is a natural number. A negative radius makes every count 0 and every mean NaN, which stores 0. That path is not modelled, because the only caller passes `Math.round(1 + 3 * smoothness) >= 1`.
- Raster.ImageData: width and height are positive, because the platform refuses zero-sized images.
- Tone.RecolorPixels and Pipeline.MixPixels model the two per-pixel loops once each, over the per-pixel formula as a function value. `ToneStep` and `DarkenEdges` supply the formulas.

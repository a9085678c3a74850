# Histogram equalization of an RGB image, in Dafny

This project models the histogram-equalization engine of a small C++ image tool and the pixel store it works on.

- **`Images`** (`image.dfy`) is the pixel store. An `Image` has a width, a height and a row-major sequence of pixels, and pixel `(x, y)` sits at flat index `width*y + x`. Its class invariant `Valid()` says the data holds exactly `width*height` pixels. `GetPixel`, `Width`, `Height` and `Area` are reads. `SetPixel` overwrites one element in place.
- **`FileExtension`** (`file_extension.dfy`) models the helper that picks the decoder: the text after the last `.` of a path, lower-cased in the C locale, or `""` when the path has no `.`.
- **`Histograms`** (`histogram.dfy`) holds the per-channel histogram and its cumulative form:
  - `CalculateHistogram` adds one count per pixel of the whole image into bin `Floor(v*65535)` of a 65535-entry buffer;
  - `CalculateCfh` writes the running sum of a histogram into a second buffer.
  - Each is a method over an `array<nat>`, proved against the specification functions `HistogramOf` and `Cumulative`. Lemmas then prove what those functions promise.
  - The inner loop of the histogram scan, over the rows of one column, is the method `CountColumn`, which the outer loop over columns calls.
- **`Equalization`** (`equalization.dfy`) holds the rest:
  - `EqualizeChannel` rewrites one channel of every pixel of a region of interest to `cfh[Floor(v*65534)] / area`;
  - `DoHistogramEqualization` runs histogram, cumulative histogram and remap once per channel R, G, B, each time from zeroed buffers.

Channel values are exact reals. The two quantisers the code uses are kept apart:

- `HistBin(v) = Floor(v*65535)` picks the bin a value is counted in;
- `LookupBin(v) = Floor(v*65534)` picks the bin it is looked up in.

The remapped value `cfh[b] * 65535.0 / area / 65535` is the exact quotient `cfh[b] / area`.

Preconditions of the driver:

- The region must lie inside the image. The code only asserts this, so it is a precondition, not an error result. `Rect` has natural-number fields, so the asserts `roi.x >= 0` and `roi.y >= 0` hold by type.
- Every channel value of every pixel must satisfy `0 <= HistBin(v) < 65535`. The histogram holds `MAX_VALUE` = 65535 entries, so a value of exactly 1.0 (a full-intensity byte 255 turned into 255/255.0) would be counted one past its end. `FullIntensityOverflows` shows this.

What the code does, which the model follows:

- **Histogram scope.** The histogram is built over the whole image, and the divisor `image.area()` is the whole image's pixel count. Neither is restricted to the region.
- **Results.** Remapped values lie in [0, 1], and 1 is reached: a channel that is 0.5 everywhere becomes 1.0 everywhere (`UniformHalfBecomesOne`).
- **Indexing.** Both bin indices are used exactly as computed.
- **Order.** The three channel passes, and the pixel visits within each pass, run one after another.

A property that follows from keeping the two quantisers apart: an 8-bit level n/255 with 0 < n < 255 is counted in bin 257n but looked up in bin 257n-1. A pixel's own bin is therefore not included in its own cumulative count. A channel that holds one such level everywhere becomes 0 everywhere (`UniformByteLevelBecomesZero`). The model states this in exact arithmetic.

## Model

| member | source | states |
|---|---|---|
| `Images.Image.constructor` | test_cpp/Image.h:14 | a default image is 0 by 0 with no pixels and satisfies the invariant |
| `Images.Image.FromPixels` | test_cpp/Image.cpp:128-146 | after a successful load the data holds exactly width*height pixels (the class invariant) |
| `Images.Pixel` | test_cpp/Image.h:6-9 | a pixel is three channel values r, g, b |
| `Images.Image.Width` | test_cpp/Image.cpp:26-29 | returns the stored width |
| `Images.Image.Height` | test_cpp/Image.cpp:32-35 | returns the stored height |
| `Images.Image.Area` | test_cpp/Image.cpp:38-41 | the area of a valid image is its number of stored pixels |
| `Images.Image.GetPixel` | test_cpp/Image.cpp:14-17 | defined exactly when the flat index width*y+x is inside the data; for an in-row column it returns the pixel whose row-major index decodes to (x, y) |
| `Images.Image.SetPixel` | test_cpp/Image.cpp:20-23 | same bounds demand as GetPixel; afterwards GetPixel(x, y) is the new pixel, every other flat index is unchanged, and width, height, data length and the invariant are kept |
| `FileExtension.LastIndexOf` | test_cpp/Image.cpp:49-50 | no result exactly when the character does not occur; otherwise the position holds it and no later position does |
| `FileExtension.ToLowerChar` | test_cpp/Image.cpp:53 | the result is never an upper-case letter; only 'A'..'Z' change, each to its lower-case letter |
| `FileExtension.ToLower` | test_cpp/Image.cpp:53 | same length, each character lower-cased, none left upper-case |
| `FileExtension.GetFileExtension` | test_cpp/Image.cpp:47-55 | "" when the path has no '.'; otherwise the lower-cased text right after a '.' that runs to the end of the path; the result contains no '.' and lower-casing it again changes nothing |
| `Histograms.MaxValue` | test_cpp/ImageProcessing.cpp:7 | MAX_VALUE is 65535, the largest 16-bit unsigned value |
| `Histograms.BinCount` | test_cpp/ImageProcessing.cpp:8 | a histogram buffer has MAX_VALUE = 65535 entries, so its bins are 0 .. 65534 |
| `Histograms.Channel` | test_cpp/ImageProcessing.cpp:6 | the three channels R, G, B of `enum RGB` |
| `Histograms.ChannelOf` | test_cpp/ImageProcessing.cpp:6 | channel number 0, 1 or 2 selects the channel carrying that number (R, G, B) |
| `Histograms.Index` | test_cpp/ImageProcessing.cpp:6 | every channel number is below 3 |
| `Histograms.WithChannel` | test_cpp/ImageProcessing.cpp:33-35 | writing one channel of a pixel sets that channel and leaves the other two unchanged |
| `Histograms.ChannelValue` | test_cpp/ImageProcessing.cpp:15 | reading channel c of a pixel yields the double at offset c of its three consecutive fields r, g, b (the same read is at line 33) |
| `Histograms.HistBin` | test_cpp/ImageProcessing.cpp:15 | the counting index is the integer part of value*65535: at most it and more than it minus one; a non-negative value has a non-negative bin |
| `Histograms.LookupBin` | test_cpp/ImageProcessing.cpp:34 | the lookup index is the integer part of value*65534: at most it and more than it minus one; a non-negative value has a non-negative bin |
| `Histograms.FullIntensityOverflows` | test_cpp/ImageProcessing.cpp:7-15 | a channel value of 1.0 is counted in bin 65535, one past the 65535-entry histogram |
| `Histograms.LookupBinInRange` | test_cpp/ImageProcessing.cpp:34 | a value that can be counted also has a lookup bin inside the cumulative histogram, never above its counting bin |
| `Histograms.BinsMonotone` | test_cpp/ImageProcessing.cpp:15 | both quantisers preserve the order of channel values |
| `Histograms.ByteLevelBins` | test_cpp/ImageProcessing.cpp:34 | the 8-bit level n/255 (0 < n < 255) is counted in bin 257n and looked up in bin 257n-1 |
| `Histograms.HistogramPrefixStep` | test_cpp/ImageProcessing.cpp:15 | counting one more pixel adds one to its own bin and to no other |
| `Histograms.HistogramIsMultiplicity` | test_cpp/ImageProcessing.cpp:10-18 | entry b of the whole-image histogram is the number of pixels whose channel quantises to b |
| `Histograms.HistogramTotal` | test_cpp/ImageProcessing.cpp:10-18 | when every value is countable, the entries sum to the number of pixels (width*height) |
| `Histograms.HistogramOfChannelOnly` | test_cpp/ImageProcessing.cpp:15 | two images that agree on one channel have the same histogram for it |
| `Histograms.ColumnMajorCount` | test_cpp/ImageProcessing.cpp:12-13 | visiting every column and, within it, every row of a valid image counts each row-major pixel exactly once |
| `Histograms.CountColumn` | test_cpp/ImageProcessing.cpp:13-16 | the inner loop over one column: each entry grows by the number of that column's pixels in its bin |
| `Histograms.CalculateHistogram` | test_cpp/ImageProcessing.cpp:10-18 | adds onto the buffer passed in: each entry grows by the whole-image count of its bin; the image is only read |
| `Histograms.CumulativeStep` | test_cpp/ImageProcessing.cpp:22-25 | each cumulative entry is the previous one plus the histogram's own entry, and the first is the first histogram entry |
| `Histograms.CumulativeMonotone` | test_cpp/ImageProcessing.cpp:20-26 | the cumulative histogram is non-decreasing |
| `Histograms.CumulativeLast` | test_cpp/ImageProcessing.cpp:20-26 | its last entry is the histogram's total |
| `Histograms.CumulativeBounded` | test_cpp/ImageProcessing.cpp:20-26 | no entry exceeds the histogram's total |
| `Histograms.CalculateCfh` | test_cpp/ImageProcessing.cpp:20-26 | the output buffer ends up holding, at every i, the sum of histogram entries 0..i |
| `Equalization.Rect` | test_cpp/ImageProcessing.h:6-12 | a region of interest is a top-left corner x, y and a width and height, all non-negative |
| `Equalization.Remap` | test_cpp/ImageProcessing.cpp:34 | the new value is non-negative, at most 1 when the cumulative count at the lookup bin is at most the area, and exactly 1 when it equals the area |
| `Equalization.ChannelCfhBounded` | test_cpp/ImageProcessing.cpp:49-51 | with the histogram taken over the whole image, every cumulative entry is at most the image's pixel count |
| `Equalization.EqualizedInUnitInterval` | test_cpp/ImageProcessing.cpp:48-53 | every equalized channel value lies in [0, 1] |
| `Equalization.EqualizedMonotone` | test_cpp/ImageProcessing.cpp:34 | equalization preserves the order of channel values |
| `Equalization.UniformChannel` | test_cpp/ImageProcessing.cpp:10-34 | a channel holding one value everywhere has a single occupied bin and maps to 1 if the lookup bin reaches it, else to 0 |
| `Equalization.UniformHalfBecomesOne` | test_cpp/ImageProcessing.cpp:34 | a channel that is 0.5 everywhere becomes 1 everywhere |
| `Equalization.UniformByteLevelBecomesZero` | test_cpp/ImageProcessing.cpp:34 | a channel that holds one 8-bit level strictly between 0 and 255 everywhere becomes 0 everywhere |
| `Equalization.EqualizeChannel` | test_cpp/ImageProcessing.cpp:28-38 | inside the region, only the selected channel changes, to cfh[LookupBin(old value)] / area; every pixel outside the region is unchanged; dimensions are kept |
| `Equalization.ChannelPassStep` | test_cpp/ImageProcessing.cpp:48-53 | one pass with the channel's own whole-image cumulative histogram equalizes that channel and leaves the others as they were |
| `Equalization.AllChannelsEqualized` | test_cpp/ImageProcessing.cpp:48-53 | after the three passes every region channel holds its equalized value in [0, 1] and every pixel outside is unchanged |
| `Equalization.DoHistogramEqualization` | test_cpp/ImageProcessing.cpp:40-54 | requires the region inside the image; each region channel becomes the equalization of its own original values over the whole image; values land in [0, 1]; pixels outside the region are unchanged; an empty region leaves the image unchanged |

## Left out

- The loading constructor `Image(path)` (test_cpp/Image.cpp:57-147) is not modelled. It does file I/O, calls the external JPEG decoder and parses a PPM header. `Images.Image.FromPixels` stands for the state a successful load leaves behind.
- `Image::writeToFile` (test_cpp/Image.cpp:151-176) is not modelled: it writes a file and casts doubles to bytes.
- The `byte/255.0` and `v*255` conversions are not modelled, and neither is IEEE rounding. Channel values are exact reals, and the remap division is exact.
- Channel selection by `reinterpret_cast` pointer arithmetic is modelled as the three-way `Channel` datatype.
- Integer widths are not modelled. `size_t` counts, the running sum and the flat index `width*y + x` are unbounded naturals. A count or sum never exceeds the pixel count, so neither wraps. The flat index stays below the area because every call in the engine passes x < width and y < height (test_cpp/ImageProcessing.cpp:12-13, and :30-31 under the asserts at :43-46).
- `Images.Image.GetPixel` and `Images.Image.SetPixel` compute the flat index without 64-bit wrap-around. A direct call whose `_width*y + x` wraps modulo 2^64 back into the data is not modelled: the requires, in unbounded arithmetic, refuse it.
- `Images.Image.GetPixel`: for a column at or past the width, the contract says only that the flat index must be inside the data. Such a read reaches into the next row, as the code does, but no postcondition describes that case.
- `Equalization.EqualizeChannel` requires the region to lie inside the image. The function itself checks only each flat index. Its one caller asserts this containment first.
- `Equalization.DoHistogramEqualization` requires every channel value of every pixel to be countable (bin below 65535). The code would index past the histogram for a value of 1.0.
- `compareTwoImages` (test_cpp/Test.cpp), `main` (test_cpp/main.cpp) and `ScopeTimer` (test_cpp/Timer.cpp) are not part of this model. They do file loading, console output, argument handling and wall-clock timing.
- The `Image(size_t, size_t)` constructor is declared in test_cpp/Image.h but not defined in the sources, so it is not part of this model.
- `Histograms.HistBin` and `Histograms.LookupBin` round down, where the C++ conversion of a double to `size_t` truncates toward zero. The two agree on the non-negative values the program produces. For -1/65535 < v < 0 (-1/65534 < v < 0 for `LookupBin`) the model's bin is -1, which the driver's precondition excludes, while the code's bin is 0. For lower values the scaled value truncates to a negative integer, which `size_t` cannot hold, so the code's conversion is undefined behaviour.
- `Equalization.Rect` has natural-number fields, so a negative region width or height cannot be expressed. The code's asserts would let one through when `roi.x + roi.width >= 0`, and its loops would then run zero times. That is the behaviour of a zero-size region, which the model covers.
- `FileExtension.GetFileExtension` treats a path as a sequence of characters, not of bytes, and covers only the ASCII case mapping 'A'..'Z'. `::tolower` on a negative `char` (a non-ASCII byte where `char` is signed) is undefined behaviour in C++ and is not modelled.

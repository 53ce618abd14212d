# OpenCV accelerator benchmark: input encoders and flag discipline

The RZ/V2MA OpenCV sample (`OCA_sample.cpp`) runs sixteen blocks, each
calling one OpenCV function twice: first with the OpenCV accelerator (OCA)
circuit of the function disabled, then with it enabled. The first block
is an untimed filter2D warm-up; the other fifteen time both calls. Three
parts of its `main` are self-contained logic, and this project models them
in Dafny and proves properties about them.

- **Packed 4:2:2 encoder** (`packed422.dfy`, module `Packed422`). This is
  the loop that builds the input of block [2] (`cvtColor`,
  `COLOR_YUV2BGR_YUYV`). For each horizontal pixel pair of each row it
  writes Y0, U, Y1, V through a counter that advances by four.
  - `Pack(src)` is the buffer the loop must produce. It is defined through
    a symbolic layout (`Layout`), with one `Sample` per byte.
  - `EncodePacked` is the loop itself, over an `array<byte>`. It is proved
    to fill exactly `Pack(src)`.
- **Semi-planar 4:2:0 encoder** (`semiplanar420.dfy`, module
  `SemiPlanar420`). This is the loop that builds the two planes of block
  [3] (`cvtColorTwoPlane`). For every 2x2 block it writes four lumas into a
  w*h plane, and one U, V pair into a (w/2)*(h/2)*2 plane.
  - `LumaPlane` and `ChromaPlane` are the planes it must produce.
  - `EncodeSemiPlanar` is the loop over two arrays. It is proved to fill
    exactly those planes.
- **Per-pixel arithmetic** (`colour.dfy`, module `Colour`), shared by both
  encoders:
  - the luma and colour-difference equations with the code's three-decimal
    weights, computed exactly over `real`;
  - channel sums over a pair or a block;
  - the saturating store `v > 255 ? 255 : v < 0 ? 0 : (unsigned char) v`.
- **The acceleration-flag vector `OCA_f`** (`acceleration.dfy`, module
  `Acceleration`).
  - Class `Accelerator` holds the 16-entry array and a ghost log of the
    vectors handed to `OCA_Activate`.
  - `RunBlock` is one benchmark block: set the block's circuits to DISABLE,
    activate, set them to ENABLE, activate, reset.
  - `Benchmark` runs the sixteen blocks in program order.
  - Every circuit number has type `Unit` (a natural below 16), so every
    index into the vector is in bounds by construction.
- `arith.dfy` (modules `Arith` and `Seqs`) holds the index arithmetic and
  slice facts the proofs share.

The image is a row-major `seq<Bgr>` of w*h pixels, where pixel (x, y) is
`src[y*w + x]`. Width and height are parameters. Both encoders require an
even width, and the 4:2:0 encoder also an even height, because the source
loops step by two. The fixed 1920x1080 of the source is one instance.

Each encoder loop is split the same way: an outer method over rows
(`EncodePacked`, `EncodeSemiPlanar`), an inner method over one row or row
pair (`EncodeRow`, `EncodeRowPair`), and the loop body (`StorePair`,
`StoreBlock`). The bodies compute the same values in the same order as the
source and store them at the same indices.

Details of the code worth knowing:

- Every store is truncated by the C cast to `unsigned char` after the two
  clamps, so a value in [0, 255] stores its floor. `Saturate` and
  `LumaInRange` state this.
- The weights are the full-range BT.601 form, with no +16 offset and the
  range 0..255.
- The semi-planar loop stores U at y*(w/2)+x and V at +1, in that order,
  although its comment says NV21 and the planes are decoded with
  `COLOR_YUV2RGB_NV21`, which reads V first.
- The packed loop writes Y, U, Y, V, which is YUYV, although its comment
  says UYVY.

## Model

| member | source | states |
|---|---|---|
| Colour.Saturate | OCA_sample.cpp:228-231 | above 255 stores 255, below 0 stores 0, and otherwise the stored byte c satisfies c <= v < c+1: truncation toward zero, always in [0, 255] |
| Colour.Luma | OCA_sample.cpp:224-225 | the luma expression of the code, over exact reals; LumaInRange bounds it and both LumaIndependence lemmas show each luma byte depends on its own pixel only |
| Colour.PairU | OCA_sample.cpp:226 | the pair U expression of the code, over exact reals; PairChromaIsMeanTransform, PairChromaSwap and ChromaBounds are proved about it |
| Colour.PairV | OCA_sample.cpp:227 | the pair V expression of the code, over exact reals; PairChromaIsMeanTransform, PairChromaSwap and ChromaBounds are proved about it |
| Colour.BlockU | OCA_sample.cpp:328-329 | the block U expression of the code, over exact reals; BlockChromaIsMeanTransform, BlockChromaPermutation and ChromaBounds are proved about it |
| Colour.BlockV | OCA_sample.cpp:330-331 | the block V expression of the code, over exact reals; BlockChromaIsMeanTransform, BlockChromaPermutation and ChromaBounds are proved about it |
| Colour.SaturateMonotone | OCA_sample.cpp:332-337 | the saturating store preserves order: a larger computed value never stores a smaller byte |
| Colour.LumaInRange | OCA_sample.cpp:224-225 | the luma of any pixel lies in [0, 255], so neither clamp of the luma store is taken and the stored byte is the floor of the luma |
| Colour.ChromaBounds | OCA_sample.cpp:226-227 | pair and block U and V always lie in [0.5, 255.5]: the `< 0` clamp of a chroma store is never taken |
| Colour.BlueSaturatesU | OCA_sample.cpp:226 | the `> 255` clamp is reachable: two saturated-blue pixels give U = 255.5, which stores 255 |
| Colour.SumPermutation | OCA_sample.cpp:328-331 | two groups of pixels that are permutations of each other (equal multisets) have equal channel sums |
| Colour.PairChromaIsMeanTransform | OCA_sample.cpp:226-227 | the pair U and V formulas are the colour-difference transform of the pair's mean colour |
| Colour.BlockChromaIsMeanTransform | OCA_sample.cpp:328-331 | the block U and V formulas are the colour-difference transform of the block's mean colour |
| Colour.PairChromaSwap | OCA_sample.cpp:226-227 | swapping the two pixels of a pair leaves its U and V unchanged |
| Colour.BlockChromaPermutation | OCA_sample.cpp:328-331 | any permutation of the four pixels of a block leaves its U and V unchanged |
| Colour.PrimariesBlockIsNeutral | OCA_sample.cpp:328-331 | the block red, green, blue, white has mean grey 127.5, so U = V = 128 exactly |
| Colour.WhitePair | OCA_sample.cpp:224-231 | a white pixel stores luma 255, and a white pair stores U = V = 128 |
| Packed422.LayoutAt | OCA_sample.cpp:211-232 | the four samples of the pair starting at even pixel i are samples 2*i .. 2*i+3 of the layout, in the order Y0, U, Y1, V |
| Packed422.PairAt | OCA_sample.cpp:228-231 | bytes 2*i .. 2*i+3 of the packed buffer are the saturated Y0, U, Y1, V of the pair starting at pixel i |
| Packed422.PackedLayout | OCA_sample.cpp:211-232 | for even x in row y, the pair (x, x+1) occupies bytes 2*(y*w+x) .. +3 of the w*h*2 buffer, as saturated [Y0, U, Y1, V] |
| Packed422.PackedPositionDecodes | OCA_sample.cpp:228-232 | the byte index of slot j of the pair at (x, y) is below w*h*2 and gives back y, x and j, so no two writes share a byte |
| Packed422.PackedPositionCovers | OCA_sample.cpp:194 | every byte of the w*h*2 buffer is the index of some slot of some pair inside the image, so every byte is written |
| Packed422.LumaIndependence | OCA_sample.cpp:224-225 | replacing one pixel never changes the luma byte of any other pixel, its pair partner included |
| Packed422.PairSwap | OCA_sample.cpp:224-231 | swapping the two pixels of a pair swaps its two luma bytes and leaves its U and V bytes unchanged |
| Packed422.WhiteImage | OCA_sample.cpp:224-231 | an all-white image packs to 255 at every even byte and 128 at every odd byte |
| Packed422.Pack | OCA_sample.cpp:194-234 | the w*h*2 buffer the packing loop must produce, byte k the saturated sample k of the layout; EncodePacked is proved to fill it, and PackedLayout, PairSwap, LumaIndependence and WhiteImage are proved about it |
| Packed422.StoreQuad | OCA_sample.cpp:228-232 | the four stores at counter .. counter+3: with the buffer agreeing with the target before counter, it agrees with the target before counter+4 afterwards |
| Packed422.StorePair | OCA_sample.cpp:213-232 | with bytes before the counter 2*i already packed, one loop step for the pair at pixel i makes bytes before counter+4 exactly the packed buffer's |
| Packed422.EncodeRow | OCA_sample.cpp:212-233 | starting at counter 2*row, the inner loop over a row advances the counter by 2*w and extends the packed prefix over that row |
| Packed422.EncodePacked | OCA_sample.cpp:210-234 | the nested loop fills a freshly allocated w*h*2 buffer that equals the packed image byte for byte |
| SemiPlanar420.LumaPlane | OCA_sample.cpp:332-335 | the w*h luma plane the two-plane loop must produce, one saturated luma per pixel; LumaPlaneAt, LumaIndependence and WhiteImage are proved about it |
| SemiPlanar420.ChromaPlane | OCA_sample.cpp:336-337 | the (w/2)*(h/2)*2 chroma plane the two-plane loop must produce, U of a block at even bytes and V at odd bytes; ChromaAt, BlockPermutation and WhiteImage are proved about it |
| SemiPlanar420.LumaPlaneAt | OCA_sample.cpp:324-335 | byte k of the luma plane is the saturated luma of pixel k |
| SemiPlanar420.ChromaAt | OCA_sample.cpp:336-337 | bytes y*(w/2)+x and y*(w/2)+x+1 of the chroma plane are the saturated U and V of the block at (x, y) |
| SemiPlanar420.ChromaPositionDecodes | OCA_sample.cpp:336-337 | the chroma index of slot c of the block at (x, y) is below (w/2)*(h/2)*2, equals row y/2 byte x of a w-byte-per-row plane, and gives back y, x and c |
| SemiPlanar420.ChromaPositionCovers | OCA_sample.cpp:303-304 | every byte of the chroma plane is U or V of some block inside the image |
| SemiPlanar420.LumaPositionDecodes | OCA_sample.cpp:332-335 | the luma index of pixel (x+dx, y+dy) of the block at (x, y) is below w*h and gives back its row and column |
| SemiPlanar420.LumaPositionCovers | OCA_sample.cpp:303-304 | every byte of the luma plane is the index of some pixel of some block inside the image, so every byte is written |
| SemiPlanar420.LumaIndependence | OCA_sample.cpp:324-327 | images that agree at pixel k store the same luma byte k, whatever their other pixels |
| SemiPlanar420.BlockPermutation | OCA_sample.cpp:328-337 | two images whose blocks at (x, y) hold the same four pixels in any arrangement store the same U and V bytes for that block |
| SemiPlanar420.WhiteImage | OCA_sample.cpp:324-337 | an all-white image stores luma 255 everywhere and 128 in every U and V byte |
| SemiPlanar420.StoreLumas | OCA_sample.cpp:332-335 | the four luma stores of one block at row+x, row+x+1, row+w+x and row+w+x+1 extend the finished luma prefixes of both rows by two bytes each |
| SemiPlanar420.StoreChroma | OCA_sample.cpp:336-337 | the U and V stores of one block at n and n+1 extend the finished chroma prefix from n to n+2 |
| SemiPlanar420.StoreBlock | OCA_sample.cpp:305-337 | one loop step for the block at column x extends the finished luma and chroma prefixes by that block's four lumas and its U, V pair |
| SemiPlanar420.EncodeRowPair | OCA_sample.cpp:304-338 | the inner loop over a row pair makes both rows of the luma plane and row y/2 of the chroma plane final |
| SemiPlanar420.EncodeSemiPlanar | OCA_sample.cpp:303-339 | the nested loop fills a freshly allocated w*h luma array and a freshly allocated (w/2)*(h/2)*2 chroma array that equal the luma and chroma planes byte for byte |
| Acceleration.Code | OCA_sample.cpp:55-57 | DISABLE, ENABLE and NOCHANGE are the codes 0, 1 and 2, each code naming exactly one request |
| Acceleration.Assign | OCA_sample.cpp:581-582 | a run of `OCA_f[unit] = m` statements sets exactly the named entries to m and leaves every other entry as it was |
| Acceleration.AssignTwice | OCA_sample.cpp:145-166 | setting the same entries to DISABLE and then to ENABLE is the same as setting them to ENABLE |
| Acceleration.RestoreNeutral | OCA_sample.cpp:623-624 | resetting a block's vector gives back all NOCHANGE if and only if the reset names every entry the block set |
| Acceleration.TwoPlaneResetCovers | OCA_sample.cpp:344-385 | block [3] sets CVT_NV2BGR but resets CVT_YUV2BGR; both are circuit 2, so the vector is still all NOCHANGE afterwards |
| Acceleration.ResetsCover | OCA_sample.cpp:126-1128 | at the end of every benchmark block, the reset names every entry the block set |
| Acceleration.TraceAt | OCA_sample.cpp:145-166 | activation k of a run of blocks gets block k/2's units at DISABLE (k even) or ENABLE (k odd), and everything else at NOCHANGE |
| Acceleration.ActivationDiscipline | OCA_sample.cpp:145-166 | at every activation, the current block's entries hold DISABLE at the first call and ENABLE at the second, and every other entry holds NOCHANGE |
| Acceleration.Accelerator.constructor | OCA_sample.cpp:93-95 | the new vector has 16 entries, all NOCHANGE, and nothing has been activated yet |
| Acceleration.Accelerator.SetUnits | OCA_sample.cpp:581-582 | assigning the listed entries one by one leaves the array equal to Assign of its old contents |
| Acceleration.Accelerator.Activate | OCA_sample.cpp:583 | OCA_Activate appends the current vector to the log and changes no entry |
| Acceleration.Accelerator.RunBlock | OCA_sample.cpp:145-186 | one block logs its units at DISABLE, then at ENABLE, and leaves the vector with its units at ENABLE, then reset |
| Acceleration.BenchmarkBlock | OCA_sample.cpp:131-186 | run from the all-NOCHANGE vector, block b adds its two activations to the log and leaves the vector all NOCHANGE again |
| Acceleration.Benchmark | OCA_sample.cpp:96-1131 | the sixteen blocks in program order log the trace of Blocks and leave the vector all NOCHANGE |
| Acceleration.BenchmarkDiscipline | OCA_sample.cpp:112-1109 | at each of the benchmark's 32 activations, exactly the current block's circuits are DISABLE (first call) or ENABLE (second call), and all others are NOCHANGE |
| Acceleration.BenchmarkCodes | OCA_sample.cpp:112-1109 | in the numbers the driver reads, entry i of activation k is 0 or 1 (by the parity of k) when i is a circuit of block k/2, and 2 otherwise |
| Acceleration.MorphologyActivations | OCA_sample.cpp:581-604 | the morphology block's two activations carry ERODE and DILATE, DISABLE then ENABLE, and every other entry NOCHANGE |

## Left out

- The OpenCV kernels (`resize`, `cvtColor`, `cvtColorTwoPlane`, `GaussianBlur`, `dilate`, `erode`, `morphologyEx`, `filter2D`, `Sobel`, `adaptiveThreshold`, `matchTemplate`, `minMaxLoc`, `rectangle`, `warpAffine`, `warpPerspective`, `pyrDown`, `pyrUp`): these are calls into a library whose code is not part of this model. A block is modelled only by its flag writes and activations.
- `OCA_Activate`: it is a driver call with effects outside the program. It is modelled only by recording the vector it receives in the ghost log.
- Image file I/O (`imread`, `imwrite`, `sync`, `sleep`): external effects. The encoders take the decoded image as a parameter.
- Timing (`timespec_get`, `timedifference_msec`) and the printed `cpu_time / oca_time` ratio: wall clock and floating point, with no logic to verify. The ratio has no guard against a zero divisor.
- `printf` output, the `volatile oca_s` writes and the unused `src_size`/`dst_size` assignments: they have no effect on the modelled state.
- The fixed crop rectangles of the template-match block: constant geometry handed to OpenCV.
- IEEE float behaviour: the intermediates are computed exactly over `real` with the decimal weights, then truncated. A float rounding of the weights or of a sum, which could move a value across an integer boundary, is not modelled.
- The `cv::Mat` wrappers: reading `tmp2(cv::Point(x, y))` is modelled as `src[y*w + x]`, channels [0], [1], [2] as b, g, r. The stack arrays `in_data`, `in_data0` and `in_data1` are modelled as freshly allocated arrays of the same sizes.
- Acceleration.Accelerator.SetUnits: each block writes its flags as one or two literal assignment statements. The model writes them with one loop over the block's list of units, which has the same effect.
- Acceleration.Benchmark: it starts from a freshly initialised `Accelerator` passed in by the caller, rather than from the declaration inside `main`.

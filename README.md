# Video to Minecraft sprite sheet — a verified model of the converter's core

The converter (`main.py`) turns a video into a Minecraft animated texture. The
texture is one tall image: the video's frames are sampled, cropped to their centred
square and optionally resized, then stacked one under the other. This project models
the parts of that script that are logic rather than I/O:

- `power_of_two.dfy` (module `PowerOfTwo`) covers the power-of-two test the resolution
  prompt applies and `reduce_to_power_of_2`. Both are exact integer functions.
- `validation.dfy` (module `Validation`) holds the decision each numeric prompt makes on
  one input line, `get_animation_resolution` and `get_frames_count_reduction`. A line
  gives either an accepted value or a complaint, after which the prompt asks again.
- `frames.dfy` (module `Frames`) holds frames as rows of blue-green-red pixels. It also
  has `crop_rectangle_as_square` and the shape contract of `resize_frame`: the resizer
  is a parameter of type `Resizer`, any function that returns an S x S frame.
- `sampler.dfy` (module `Sampler`) covers the decoder and `iter_each_n_frame`:
  - The decoder is the class `VideoCapture`, holding the stream of reads it would
    deliver (`None` marks a failed read), the frame size it reports, and a read cursor.
  - The generator is the method `IterEachNFrame`, a loop that reads until the first
    failed read.
  - It is proved against `EveryNth(Decoded(stream), n)`: the frames before the first
    failed read, keeping index i when `i % n == 0`.
- `compositor.dfy` (module `Compositor`) covers the rest:
  - `convert_video_to_animation_img` is the method `ConvertVideoToAnimationImg`. Its
    loop crops each sampled frame, resizes it when `resize_size` is truthy, and
    concatenates it below the image so far.
  - Its result is `SpriteSheet(...)`, which is `None` without frames and otherwise the
    tiles stacked.
  - `MakeAnimation` is the part of `main` that chooses the resolution and calls the
    converter.

In the code, `i % n` uses Python's floor remainder. The model uses Dafny's Euclidean
remainder; the two agree because i ≥ 0 and n ≥ 1. `(d - side) // 2` is likewise taken
on non-negative numbers.

## Model

| member | source | states |
|---|---|---|
| PowerOfTwo.PowerOfTwoIsPow2 | main.py:55 | the integer power-of-two test holds exactly when n = 2^k for some whole k, i.e. when log2(n) is an integer (both directions) |
| PowerOfTwo.Log2Floor | main.py:93 | int(log2(n)) for n ≥ 1: the k with 2^k ≤ n < 2^(k+1) |
| PowerOfTwo.ReduceToPowerOf2 | main.py:91-93 | for n ≥ 1 the result p is a power of two with p ≤ n < 2p |
| PowerOfTwo.ReduceToPowerOf2IsUnique | main.py:91-93 | any power of two p with p ≤ n < 2p is the result, so the contract pins the function down |
| PowerOfTwo.ReduceToPowerOf2FixesPowers | main.py:91-93 | a power of two comes back unchanged |
| PowerOfTwo.ReduceToPowerOf2Idempotent | main.py:91-93 | reducing twice is reducing once |
| Validation.IsDigits | main.py:40 | `str.isdigit` on ASCII text: the line is non-empty and every character is 0-9 |
| Validation.DigitsValue | main.py:44-50 | `int(float(line))` on a digit string, read left to right in base 10; the value is 0 exactly when every digit is '0' (the lines main.py:52-54 refuse as not positive) |
| Validation.Decimal | main.py:44-50 | the decimal spelling of n is a digit string whose value is n, so parsing inverts it |
| Validation.CheckResolution | main.py:38-59 | the empty line (and only it) gives the default; a line is accepted as a size exactly when it is all digits and denotes a power of two; an accepted size is ≥ 1, a power of two and the line's value; a non-digit line is refused as not a number |
| Validation.CheckReduction | main.py:70-88 | the empty line gives 1; any accepted value is ≥ 1; a non-empty line is accepted exactly when it is all digits with value ≥ 1, and then as that value; a non-digit line is refused as not a number |
| Validation.ResolutionOfDecimal | main.py:38-59 | typing n: 0 is refused as not positive, another non-power of two as not a power of two, a power of two is accepted as n |
| Validation.ResolutionAcceptsEveryPow2 | main.py:52-59 | every 2^k typed in decimal is accepted as 2^k |
| Validation.ReductionOfDecimal | main.py:70-88 | typing n: 0 is refused as not positive, any other n is accepted as n |
| Validation.LeadingZeroIgnored | main.py:40-50 | a leading zero changes neither prompt's verdict on a digit string |
| Frames.CropRectangleAsSquare | main.py:96-108 | cropping an r x c frame gives a side x side frame, side = min(r, c), whose pixel (i, j) is input pixel ((r - side) / 2 + i, (c - side) / 2 + j) |
| Frames.CropSquareIsIdentity | main.py:100-106 | a square frame is returned unchanged |
| Frames.CropIsIdempotent | main.py:96-108 | cropping twice is cropping once |
| Sampler.Decoded | main.py:134-137 | the frames delivered are the stream's reads up to its first failed read, in order, and that read (if any) is the failed one |
| Sampler.EveryNth | main.py:139-140 | the `frame_i % each_n_frame == 0` filter, built one frame at a time at the end as the generator yields; its meaning is stated by the lemmas below |
| Sampler.EveryNthAt | main.py:139-140 | stride n keeps (F + n - 1) / n of F frames, and its k-th is frame k·n |
| Sampler.EveryNthKeepsMultiples | main.py:139-140 | every index i < F with i % n == 0 is kept, at position i / n |
| Sampler.EveryNthIsEmptyIff | main.py:139-140 | nothing is sampled exactly when there is no frame, whatever the stride |
| Sampler.EveryNthOfOne | main.py:124 | the default stride 1 keeps every frame |
| Sampler.EveryNthIsDrawnFrom | main.py:139-140 | every sampled frame is one of the decoded frames |
| Sampler.VideoCapture.constructor | main.py:212 | a decoder opens at the start of its stream |
| Sampler.VideoCapture.Read | main.py:135 | a read returns the next item of the stream and moves the cursor one step; past the end it fails and the cursor stays |
| Sampler.IterEachNFrame | main.py:124-142 | the frames yielded are EveryNth(Decoded(unread stream), n); the cursor ends just past the first failed read; every yielded frame has the decoder's size |
| Compositor.IsTruthy | main.py:164 | `if resize_size:` on an optional size: present and not 0 |
| Compositor.Tile | main.py:163-165 | a tile is the cropped frame, passed through the resizer when the size is truthy; its shape is stated by Compositor.TileShape |
| Compositor.Stack | main.py:167-170 | repeated `np.concatenate` along the rows: the tiles one below the other, in order; its size and layout are stated by Compositor.StackSize and Compositor.StackBand |
| Compositor.TileShape | main.py:163-165 | a tile is S x S when resize_size is truthy and min(height, width) square otherwise |
| Compositor.StackSize | main.py:170 | stacking k side x side tiles gives an image side wide and k·side tall |
| Compositor.StackBand | main.py:167-170 | rows [j·side, (j+1)·side) of the stack are tile j |
| Compositor.StackIsBanded | main.py:162-170 | the stack is k·side by side and is the tiles, in order, in bands of side rows |
| Compositor.SpriteSheetStep | main.py:167-170 | one more frame starts the image when there is none, and otherwise goes below it |
| Compositor.SpriteSheetShape | main.py:159-172 | the sheet is None exactly when there are no frames; otherwise it is the frames' tiles stacked in sampling order |
| Compositor.ConvertVideoToAnimationImg | main.py:145-172 | the image is the sprite sheet of the sampled frames; it is None exactly when no frame was sampled, which is exactly when none was decoded; otherwise row band j is the j-th sampled frame cropped (and resized) |
| Compositor.AnimationResolution | main.py:213-216 | the side is the requested one, or else the largest power of two not above min(width, height); either way it is a power of two |
| Compositor.MakeAnimation | main.py:212-221 | the image is the sheet of every reduction-th frame at the chosen side, side wide and side times the frame count tall; the decoder's cursor ends just past its first failed read |
| Compositor.SpriteSheetTilesArePowerOfTwo | main.py:209-221 | whatever the resolution prompt accepted, a non-empty sheet is made of power-of-two square tiles |

## Left out

- The prompt loops (main.py:14-27, 35-59, 67-88) read with `input` and complain with `print`. Only the decision on one line is modelled, and the complaint is returned as a value.
- The path prompt and its existence check (main.py:10-27) are filesystem I/O.
- Opening the video and querying it with `video.get` (main.py:212-215, 225) are calls into OpenCV. The model takes the stream of reads and the reported size as inputs.
- Sampler.VideoCapture.constructor: it requires every decoded frame to have the reported size. This only matters when `resize_size` is falsy, because `np.concatenate` then needs equal widths. Under `main`, every tile is resized to S x S (main.py:213-221), so in the source a stream whose frame size changes partway through would still convert.
- `resize_frame`'s interpolation (main.py:120) is OpenCV's and uses floating point. The resizer is a parameter constrained only to return S x S frames, so pixel values after a resize are unconstrained.
- Saving the image and the `.mcmeta` file (main.py:175-204) is file I/O. This includes `os.path.splitext`, the `20 / fps` and `fps / reduction` float divisions, and the float-to-string formatting of the frame time.
- The source computes the power-of-two test and `reduce_to_power_of_2` in floating point (`float(...)`, `log2`, main.py:44, 55, 93). The model uses exact integers.
  - The two differ from about 2^49 on, because log2 is rounded to a double.
    - 2^49 + 1 = 562949953421313 is an exact double, but its log2 rounds to 49.0, so main.py:55 accepts it as a power of two. PowerOfTwo.IsPowerOfTwo refuses it.
    - `reduce_to_power_of_2(2^49 - 1)` returns 2^49, which exceeds its argument (main.py:93). PowerOfTwo.ReduceToPowerOf2 returns 2^48 there.
    - Past 2^53, `float(...)` itself rounds: 2^53 + 1 becomes 2^53.
  - A digit string of more than about 309 digits becomes infinity in the source.
  - The `is_integer` check on a digit string (main.py:46-48) can never fail in exact arithmetic, so it has no verdict here.
- Validation.IsDigits: it accepts ASCII digits only, so Validation.CheckResolution and Validation.CheckReduction refuse every other digit with `Retry(NotANumber)`. Python's `str.isdigit` accepts every Unicode digit, which gives two other behaviours in the source:
  - `float` accepts every Unicode decimal digit (category Nd). So the source takes fullwidth "３２" or Arabic-Indic "٣٢" as 32 (main.py:40-59, 72-88).
  - Digits that are not decimal, such as superscripts, pass `isdigit`, but then `float` raises an exception (main.py:44, 76).
- PowerOfTwo.ReduceToPowerOf2 requires n ≥ 1: `log2` of 0 raises in the source (main.py:93, reached when the video reports a zero size). Compositor.AnimationResolution and Compositor.MakeAnimation carry the same requirement.
- Sampler.IterEachNFrame requires a stride ≥ 1. In the source, 0 makes `i % 0` raise. A negative stride works there, because Python's `i % -n == 0` holds exactly when `i % n == 0`, so it samples like n. The reduction prompt never produces either, so neither is modelled.
- The generator is lazy in the source: frames are cropped while the decoder is still being read. The model reads all frames first, then composes. The result and the final cursor are the same.
- When no frame is sampled, the converter returns `None` (main.py:159, 172) rather than raising an error, and the model follows the code. Frame 0 of a non-empty stream is always kept, so the sample is empty only when nothing was decoded (Sampler.EveryNthIsEmptyIff).
- The crop names the frame's first axis "width" and the second "height" (main.py:98). They are really rows and columns. The model names them by what they are, and the result is the same.

# AI clipper: highlight selection and vertical reframing

This project models the core of an AI clip generator. The generator takes a
time-coded transcript of a video and picks a fixed number of highlight spans.
It then cuts each span out of the video, reframes landscape footage to a
centred 9:16 window and writes the clips to numbered files.

The model follows `extract_highlights` and `create_clips` in `Ai.clipper.py`:

- **Scorer**: a segment is interesting when its lower-cased text contains a
  keyword as a substring, or when the text splits into more than eight
  words.
- **Selector**: `ExtractHighlights` is the imperative selection.
  - A `for` loop (the method `ScanContent`) appends `(start, end)` of every
    interesting segment whose duration lies in `[min_len, max_len]`.
  - A `while` loop then appends random spans until there are `num_clips`.
  - The result is the slice `[:num_clips]`.

  The method is proved equal to the specification function `Highlights`.
  The scan is specified for an arbitrary segment test `q`, so its lemmas do
  not depend on how a segment is scored; `Qualifier` is the clipper's test.
  Lemmas about `Highlights` state the exact output length, content-before-filler
  order, the duration bounds and the bounds on synthetic starts.
- **Renderer**: `Reframe` is the crop window a sub-clip gets. `CreateClips`
  is the loop over `enumerate(highlights)`: it gives each highlight its cut,
  its framing and its output path `highlight_{i+1}.mp4`.
- **PyBuiltins**: the Python built-ins this code depends on. These are
  `str.lower`, `str.split()`, `w in t`, `s[:n]`, `random.uniform`,
  `os.path.join` and the f-string rendering of an integer. Each is a Dafny function
  with a lemma stating its meaning (for `split`, agreement with an
  independent word-count automaton; for the decimal rendering, the round
  trip through `int()`).

Randomness is injected. `draws` is the sequence of values `random.random()`
would return, each in `[0, 1)`. `random.uniform(a, b)` is computed as CPython
does it, `a + (b - a) * u`. Fill iteration `k` reads `draws[2k]` for the start
and `draws[2k+1]` for the length. The code never checks `last_end > max_len`,
so the algorithm does not require it either. The bounds lemma takes it as a
hypothesis (`last_end >= max_len` is enough) and also states where starts land
when it fails.

Reading `segments[-1]` of an empty transcript raises `IndexError` in Python.
The model returns `Failure(IndexError)` there. This happens exactly when the
fill loop has to run, that is, when the transcript is empty and
`num_clips > 0`. A negative `num_clips` slices as Python does: it drops that
many content spans from the end.

The code never raises a configuration or sampling error. Its highlights are
bare `(start, end)` tuples with no origin tag, so provenance is stated by
position (`ContentBeforeSynthetic`). The landscape crop width is `h * 9 / 16`
as a real number, not rounded.

The proofs are checked with

    dafny verify wrappers.dfy pybuiltins.dfy scorer.dfy selector.dfy renderer.dfy

## Model

| member | source | states |
|---|---|---|
| `PyBuiltins.LowerSpec` | Ai.clipper.py:19 | The lower-cased text has the same length and no ASCII capitals. Every other character is unchanged, and each capital becomes the letter 32 code points above it. |
| `PyBuiltins.ContainsSpec` | Ai.clipper.py:24 | `word in text` holds exactly when `word` occurs at some index of `text` as a contiguous run. |
| `PyBuiltins.SplitSpec` | Ai.clipper.py:24 | `text.split()` yields words that are non-empty and free of whitespace. Concatenated, they are exactly the non-whitespace characters of the text, in order. |
| `PyBuiltins.SplitJoin` | Ai.clipper.py:24 | `" ".join(text.split())` equals an independent scan that drops leading and trailing whitespace and turns each inner whitespace run into one space. |
| `PyBuiltins.SplitUnique` | Ai.clipper.py:24 | `text.split()` is the only list of non-empty, whitespace-free words that joins with single spaces to that squeezed text, so the word boundaries are exactly the whitespace runs. |
| `PyBuiltins.SplitCount` | Ai.clipper.py:24 | `len(text.split())` equals the count of the word-count automaton, an independent definition of the number of words. |
| `PyBuiltins.PyPrefix` | Ai.clipper.py:34 | `highlights[:num_clips]` is a prefix of the list. It has `min(n, len)` elements for `n >= 0`; for `n < 0` it has `len + n` elements, or none. |
| `PyBuiltins.UniformBounds` | Ai.clipper.py:30-31 | `random.uniform(a, b)` lies between `a` and `b`, whichever is larger. |
| `PyBuiltins.DecimalString` | Ai.clipper.py:49 | The number in the f-string is rendered with at least one character, all decimal digits, and no leading zero unless the number is 0. |
| `PyBuiltins.ParseDecimalString` | Ai.clipper.py:49 | Reading back the rendered number gives the number itself. |
| `PyBuiltins.DecimalStringInjective` | Ai.clipper.py:49 | Different numbers render differently. |
| `PyBuiltins.PathJoin` | Ai.clipper.py:49 | `os.path.join(folder, name)` is `name` when `name` is absolute. Otherwise it starts with the folder and ends with `name`. |
| `PyBuiltins.PathJoinInjective` | Ai.clipper.py:49 | Joining one folder with two relative names gives equal paths only when the names are equal. |
| `Scorer.AnyKeywordSpec` | Ai.clipper.py:24 | `any(word in text for word in keywords)` holds exactly when some keyword of the list is contained in the text. |
| `Scorer.ScoreSpec` | Ai.clipper.py:19-24 | A segment scores as interesting exactly when some keyword occurs in its lower-cased text, or that text has more than eight whitespace-separated words. |
| `Selector.ContentIndicesSpec` | Ai.clipper.py:18-26 | For any segment test, the scan over the first `n` segments selects strictly increasing indices below `n`. Each names a segment that passes the test, and every such segment is selected. |
| `Selector.ContentSpec` | Ai.clipper.py:18-26 | For any segment test, the content phase emits exactly `(start, end)` of the selected segments: one span per selected index, in transcript order. |
| `Selector.ContentScanSpec` | Ai.clipper.py:18-26 | With the clipper's test, segment `i` is selected exactly when it scores as interesting and its `end - start` lies in `[min_len, max_len]`; the content spans are those segments' `(start, end)`, in transcript order. |
| `Selector.ScanContent` | Ai.clipper.py:18-26 | The `for` loop over the segments returns exactly the content spans of the whole transcript. |
| `Selector.ContentDurations` | Ai.clipper.py:22-26 | Every content span lasts between `min_len` and `max_len`. |
| `Selector.Fill` | Ai.clipper.py:28-32 | `n` fill iterations append exactly `n` spans. |
| `Selector.FillAt` | Ai.clipper.py:28-32 | Fill iteration `k` builds its span from draws `2k` (start) and `2k+1` (length). |
| `Selector.SyntheticBounds` | Ai.clipper.py:29-31 | If `last_end >= max_len`, every synthetic start lies in `[0, last_end - max_len]`; otherwise it lies in `[last_end - max_len, 0]`. If `min_len <= max_len`, every synthetic span lasts between `min_len` and `max_len`. |
| `Selector.Highlights` | Ai.clipper.py:16-34 | Selection fails (IndexError) exactly when the transcript is empty and `num_clips > 0`. Otherwise a non-negative `num_clips` gives exactly `num_clips` spans. With at least `num_clips` content spans, the result is the first `num_clips` of them and nothing random is drawn. A negative `num_clips` drops that many content spans from the end. |
| `Selector.ExtractHighlights` | Ai.clipper.py:16-34 | The imperative scan, fill loop and slice return exactly what `Highlights` specifies, error included. |
| `Selector.ContentBeforeSynthetic` | Ai.clipper.py:26-34 | On a non-empty transcript, let `m = min(num_clips, #content)`. The result is the first `m` content spans followed by the first `num_clips - m` fill iterations, and that many iterations' draws are available. |
| `Selector.HighlightDurations` | Ai.clipper.py:25-32 | If `min_len <= max_len`, every returned span, content or synthetic, lasts between `min_len` and `max_len`. |
| `Renderer.Reframe` | Ai.clipper.py:43-47 | A frame is cropped exactly when `w > h`. The window is `h*9/16` wide and centred on `w/2`. Its two margins are equal, `(w - h*9/16)/2` each, and it lies strictly inside `(0, w)`. |
| `Renderer.FramedSize` | Ai.clipper.py:43-47 | A landscape frame comes out `h*9/16` by `h`: 9:16, narrower than before, with the height kept. A portrait or square frame keeps its size. |
| `Renderer.OutputName` | Ai.clipper.py:49 | The output file name is non-empty and relative, so joining keeps it under the folder. |
| `Renderer.OutputNameNumber` | Ai.clipper.py:49 | The name for highlight `i` is `highlight_<digits>.mp4`, where the digits read back as `i + 1`. |
| `Renderer.OutputPathsDistinct` | Ai.clipper.py:39-49 | Two different highlight indices never get the same output path. |
| `Renderer.CreateClips` | Ai.clipper.py:36-51 | There is one job per highlight, in highlight order. Job `i` cuts highlight `i`'s `(start, end)`, applies the reframing rule and writes `os.path.join(folder, highlight_{i+1}.mp4)`. No two jobs write the same file. |

## Left out

- `download_video`: a network download through yt_dlp; not part of this model.
- `transcribe_video`: Whisper inference, a foreign ML call. The transcript is an input sequence of segments.
- Media side effects of `create_clips` are not modelled. These are opening the video, `subclip`, the pixel crop, `write_videofile` with its codecs and 30 fps, `os.makedirs` and `clip.close()`. `CreateClips` returns the jobs it would run instead of running them.
- Renderer.CreateClips: every sub-clip takes the source video's frame size. A sub-clip keeps its parent's size, so `w` and `h` are parameters. Errors raised by the media library, such as a span past the end of the video, are not modelled.
- Renderer.Reframe: the media library later truncates the window edges to whole pixel columns. The model keeps the real-valued window the code computes.
- PyBuiltins.LowerSpec: covers the ASCII letters only. Python's full Unicode case mapping, which can change a string's length, is not modelled.
- PyBuiltins.PathJoin: only POSIX paths (`posixpath.join`) are modelled; on Windows `os.path.join` uses `\` and drive letters.
- Floating-point rounding: times and sizes are Dafny `real`, so every bound is exact.
- The pseudo-random generator and its distribution: the draws are injected values in `[0, 1)`.
- `streamlit_app.py`: Streamlit UI and zipping. Its only logic is the fixed arguments `8, 27, [...], 50`.
- `tortoise/do_tts.py`: argument parsing around an external text-to-speech library.

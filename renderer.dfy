/**
 * `create_clips`: for each highlight in order, cut the sub-clip, reframe a
 * landscape frame to a centred 9:16 window and pick the numbered output
 * file. Decoding, cropping pixels and encoding are left to the media
 * library; what is modelled is the crop window and the file name chosen for
 * each highlight.
 */
module Renderer {
  import opened PyBuiltins
  import Selector

  /** The horizontal window `sub.crop(x_center=..., width=...)` keeps; the full height is kept. */
  datatype Framing = Uncropped | Cropped(x1: real, x2: real)

  /** A frame size after reframing. */
  datatype Size = Size(width: real, height: real)

  /**
   * The reframing rule for a sub-clip of `w` by `h` pixels: a landscape
   * frame gets a window of width `h * 9 / 16` centred on `w / 2`; any other
   * frame is left alone.
   */
  function Reframe(w: nat, h: nat): (f: Framing)
    ensures f.Cropped? <==> w > h
    ensures f.Cropped? ==> f.x2 - f.x1 == (h as real) * 9.0 / 16.0
    ensures f.Cropped? ==> (f.x1 + f.x2) / 2.0 == (w as real) / 2.0
    ensures f.Cropped? ==> f.x1 == (w as real) - f.x2 == ((w as real) - (h as real) * 9.0 / 16.0) / 2.0
    ensures f.Cropped? ==> 0.0 < f.x1 <= f.x2 < w as real
  {
    if w > h then
      var newW := (h as real) * 9.0 / 16.0;
      var xCenter := (w as real) / 2.0;
      // moviepy's crop with x_center and width keeps [x_center - width/2, x_center + width/2]
      Cropped(xCenter - newW / 2.0, xCenter + newW / 2.0)
    else
      Uncropped
  }

  /**
   * The frame size that is written out for a `w` by `h` sub-clip: a
   * landscape frame comes out 9:16, narrower, at the same height; a portrait
   * or square frame comes out at its own size.
   */
  function FramedSize(w: nat, h: nat): (s: Size)
    ensures w > h ==> s == Size((h as real) * 9.0 / 16.0, h as real)
    ensures w > h ==> s.width * 16.0 == s.height * 9.0 && s.width < w as real
    ensures w <= h ==> s == Size(w as real, h as real)
  {
    match Reframe(w, h)
    case Uncropped => Size(w as real, h as real)
    case Cropped(x1, x2) => Size(x2 - x1, h as real)
  }

  /** `f"highlight_{i+1}.mp4"` for the highlight at 0-based index `i`. */
  function OutputName(i: nat): (name: string)
    ensures |name| > 0 && name[0] != '/'
  {
    "highlight_" + DecimalString(i + 1) + ".mp4"
  }

  /** `os.path.join(output_folder, f"highlight_{i+1}.mp4")`. */
  function OutputPath(folder: string, i: nat): string {
    PathJoin(folder, OutputName(i))
  }

  /** The number inside the name of the file for highlight `i` is `i + 1`. */
  lemma OutputNameNumber(i: nat)
    ensures var name := OutputName(i);
      |name| > 14 &&
      name[..10] == "highlight_" && name[|name| - 4..] == ".mp4" &&
      (forall k :: 10 <= k < |name| - 4 ==> IsDigit(name[k])) &&
      ParseDecimal(name[10..|name| - 4]) == i + 1
  {
    var digits := DecimalString(i + 1);
    var name := OutputName(i);
    assert name[10..|name| - 4] == digits;
    ParseDecimalString(i + 1);
  }

  /** Two different highlights never share an output file. */
  lemma OutputPathsDistinct(folder: string, i: nat, j: nat)
    requires i != j
    ensures OutputPath(folder, i) != OutputPath(folder, j)
  {
    if OutputPath(folder, i) == OutputPath(folder, j) {
      PathJoinInjective(folder, OutputName(i), OutputName(j));
      var a, b := DecimalString(i + 1), DecimalString(j + 1);
      assert |a| == |b|;
      assert a == OutputName(i)[10..10 + |a|];
      assert b == OutputName(j)[10..10 + |b|];
      DecimalStringInjective(i + 1, j + 1);
    }
  }

  /** One iteration of the loop: the sub-clip `[start, end]`, its framing and its output file. */
  datatype ClipJob = ClipJob(path: string, start: real, end: real, framing: Framing)

  /**
   * The loop of `create_clips` over `enumerate(highlights)`, for a source
   * video whose frames are `w` by `h` pixels. Job `i` cuts highlight `i`,
   * applies the reframing rule and goes to `highlight_{i+1}.mp4`; no two
   * jobs write the same file.
   */
  method CreateClips(highlights: seq<Selector.Span>, folder: string, w: nat, h: nat) returns (jobs: seq<ClipJob>)
    ensures |jobs| == |highlights|
    ensures forall i :: 0 <= i < |jobs| ==>
      jobs[i].path == OutputPath(folder, i) &&
      jobs[i].start == highlights[i].start && jobs[i].end == highlights[i].end &&
      jobs[i].framing == Reframe(w, h)
    ensures forall i, j :: 0 <= i < j < |jobs| ==> jobs[i].path != jobs[j].path
  {
    jobs := [];
    for i := 0 to |highlights|
      invariant |jobs| == i
      invariant forall k :: 0 <= k < i ==>
        jobs[k].path == OutputPath(folder, k) &&
        jobs[k].start == highlights[k].start && jobs[k].end == highlights[k].end &&
        jobs[k].framing == Reframe(w, h)
    {
      var start, end := highlights[i].start, highlights[i].end;
      var framing := Reframe(w, h);
      var path := OutputPath(folder, i);
      jobs := jobs + [ClipJob(path, start, end, framing)];
    }
    forall i, j | 0 <= i < j < |jobs| ensures jobs[i].path != jobs[j].path {
      OutputPathsDistinct(folder, i, j);
    }
  }
}

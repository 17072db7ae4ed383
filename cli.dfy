/**
 * The command-line program `index.js`: `node index.js <input> <output> [percentage]`.
 * Reading the arguments, decoding the input file and writing the output file are outside
 * the model; the decoded image is a parameter and the result is the encoder's payload.
 */
module Cli {
  import opened Results
  import opened Pixels
  import opened Extensions
  import opened Bubble
  import opened Encoding

  /** The percentage used when the third argument is missing, not a number, or 0. */
  const DefaultPercentage: real := 0.3

  /**
   * `Math.min(Number(arg) || 0.3, 1)`, where `arg` is the value of `Number(...)` on the
   * third argument and None stands for NaN (which is also what a missing argument gives).
   */
  function BubblePercentage(arg: Option<real>): (p: real)
    ensures p <= 1.0 && p != 0.0
    ensures arg.None? || arg.value == 0.0 ==> p == DefaultPercentage
    ensures arg.Some? && arg.value != 0.0 ==> p == arg.value || (p == 1.0 && arg.value > 1.0)
    ensures arg.Some? && arg.value != 0.0 && arg.value <= 1.0 ==> p == arg.value
  {
    var n := match arg
      case None => DefaultPercentage
      case Some(x) => if x == 0.0 then DefaultPercentage else x;
    if n < 1.0 then n else 1.0
  }

  /** Clamping a clamped percentage again changes nothing. */
  lemma BubblePercentageIdempotent(arg: Option<real>)
    ensures BubblePercentage(Some(BubblePercentage(arg))) == BubblePercentage(arg)
  {
  }

  /**
   * `run()` after the two `getFile` calls: size checks, the masker with the clamped
   * percentage, then the payload for the output file's format.
   */
  method Run(inputName: string, outputName: string, arg: Option<real>, img: array2<Pixel>, s: Samples)
    returns (res: Result<Payload>)
    requires img.Length0 >= 1 && img.Length1 >= 1 ==> SamplesFit(s, img.Length0, img.Length1)
    modifies img
    ensures GetFile(inputName).Failure? ==> res == Failure(GetFile(inputName).error)
    ensures GetFile(inputName).Success? && GetFile(outputName).Failure? ==>
      res == Failure(GetFile(outputName).error)
    ensures GetFile(inputName).Success? && GetFile(outputName).Success? ==>
      (img.Length0 < 1 ==> res == Failure(HeightTooSmall)) &&
      (img.Length0 >= 1 && img.Length1 < 1 ==> res == Failure(WidthTooSmall)) &&
      (img.Length0 >= 1 && img.Length1 >= 1 && OccupyHeight(img.Length0, BubblePercentage(arg)) < 1.0 ==>
        res == Failure(ImageTooSmall))
    ensures (GetFile(inputName).Success? && GetFile(outputName).Success? &&
      img.Length0 >= 1 && img.Length1 >= 1 && OccupyHeight(img.Length0, BubblePercentage(arg)) >= 1.0) ==>
      res.Success?
    ensures res.Failure? ==> unchanged(img)
    ensures res.Success? ==>
      GetFile(inputName).Success? && GetFile(outputName).Success? &&
      img.Length0 >= 1 && img.Length1 >= 1 && OccupyHeight(img.Length0, BubblePercentage(arg)) >= 1.0 &&
      res.value.format == GetFile(outputName).value.format &&
      res.value.width == img.Length1 && res.value.height == img.Length0 &&
      var masked := Bubbled(old(Snapshot(img)), img.Length1, s);
      res.value.data == FlatGrid(if res.value.format == Bmp then ReversedGrid(masked) else masked) &&
      Snapshot(img) == if res.value.format == Bmp then ReversedGrid(masked) else masked
  {
    var inputFile := GetFile(inputName);
    if inputFile.Failure? {
      return Failure(inputFile.error);
    }
    var outputFile := GetFile(outputName);
    if outputFile.Failure? {
      return Failure(outputFile.error);
    }
    var bubblePercentage := BubblePercentage(arg);
    var imgHeight := img.Length0;
    if imgHeight < 1 {
      return Failure(HeightTooSmall);
    }
    var imgWidth := img.Length1;
    if imgWidth < 1 {
      return Failure(WidthTooSmall);
    }
    var err := SpeechBubbler(img, bubblePercentage, s);
    if err.Some? {
      return Failure(err.value);
    }
    var payload := EncodedData(img, outputFile.value.format);
    res := Success(payload);
  }
}

/**
 * The library entry point `getEncodedDataFromArray(inputImage, to, bubblePercentage)` of
 * `src/speechbubbler.js`. The percentage is used as given (no clamping). The caller's image
 * is masked in place and, when `to` is bmp, left with every pixel's channels reversed.
 */
module Library {
  import opened Results
  import opened Pixels
  import opened Extensions
  import opened Bubble
  import opened Encoding

  method GetEncodedDataFromArray(img: array2<Pixel>, to: string, bubblePercentage: real, s: Samples)
    returns (res: Result<Payload>)
    requires img.Length0 >= 1 && img.Length1 >= 1 ==> SamplesFit(s, img.Length0, img.Length1)
    modifies img
    ensures ParseFormat(to).None? ==> res == Failure(UnsupportedFormat)
    ensures ParseFormat(to).Some? ==>
      (img.Length0 < 1 ==> res == Failure(HeightTooSmall)) &&
      (img.Length0 >= 1 && img.Length1 < 1 ==> res == Failure(WidthTooSmall)) &&
      (img.Length0 >= 1 && img.Length1 >= 1 && OccupyHeight(img.Length0, bubblePercentage) < 1.0 ==>
        res == Failure(ImageTooSmall))
    ensures (ParseFormat(to).Some? && img.Length0 >= 1 && img.Length1 >= 1 &&
      OccupyHeight(img.Length0, bubblePercentage) >= 1.0) ==> res.Success?
    ensures res.Failure? ==> unchanged(img)
    ensures res.Success? ==>
      ParseFormat(to).Some? && img.Length0 >= 1 && img.Length1 >= 1 &&
      OccupyHeight(img.Length0, bubblePercentage) >= 1.0 &&
      res.value.format == ParseFormat(to).value &&
      res.value.width == img.Length1 && res.value.height == img.Length0 &&
      var masked := Bubbled(old(Snapshot(img)), img.Length1, s);
      res.value.data == FlatGrid(if res.value.format == Bmp then ReversedGrid(masked) else masked) &&
      Snapshot(img) == if res.value.format == Bmp then ReversedGrid(masked) else masked
  {
    var format := ParseFormat(to);
    if format.None? {
      return Failure(UnsupportedFormat);
    }
    var imgHeight := img.Length0;
    if imgHeight < 1 {
      return Failure(HeightTooSmall);
    }
    var imgWidth := img.Length1;
    if imgWidth < 1 {
      return Failure(WidthTooSmall);
    }
    var err := SpeechBubbler(img, bubblePercentage, s);
    if err.Some? {
      return Failure(err.value);
    }
    var payload := EncodedData(img, format.value);
    res := Success(payload);
  }
}

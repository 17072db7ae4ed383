/** The supported formats and the file-name extension parser. */
module Extensions {
  import opened Results

  datatype Format = Png | Jpg | Bmp

  /** `extensions = ['png', 'jpg', 'bmp']` */
  const SupportedExtensions: seq<string> := ["png", "jpg", "bmp"]

  function FormatName(f: Format): string {
    match f
    case Png => "png"
    case Jpg => "jpg"
    case Bmp => "bmp"
  }

  /** `extensions.some(x => x === e)`: exact, case-sensitive membership. */
  function ParseFormat(e: string): (r: Option<Format>)
    ensures r.Some? <==> e in SupportedExtensions
    ensures r.Some? ==> FormatName(r.value) == e
  {
    if e == "png" then Some(Png)
    else if e == "jpg" then Some(Jpg)
    else if e == "bmp" then Some(Bmp)
    else None
  }

  /** Every format's name parses back to that format. */
  lemma FormatNameRoundTrip(f: Format)
    ensures ParseFormat(FormatName(f)) == Some(f)
  {
  }

  /** `s.split('').reverse().join('')`: the same characters, as many, in the opposite order. */
  function Reverse(s: string): (r: string)
    ensures |r| == |s|
    ensures forall ch :: ch in r <==> ch in s
  {
    var r := seq(|s|, k requires 0 <= k < |s| => s[|s| - 1 - k]);
    assert forall k :: 0 <= k < |s| ==> r[|s| - 1 - k] == s[k];
    r
  }

  /** Reversing a name twice gives the name back. */
  lemma ReverseTwice(s: string)
    ensures Reverse(Reverse(s)) == s
  {
  }

  /** A single character reverses to itself. */
  lemma ReverseSingle(ch: char)
    ensures Reverse([ch]) == [ch]
  {
  }

  /** The reversal of a + b is the reversal of b followed by the reversal of a. */
  lemma ReverseAppend(a: string, b: string)
    ensures Reverse(a + b) == Reverse(b) + Reverse(a)
  {
  }

  /** `s.indexOf(ch)`: the first position of ch, or -1 when ch does not occur. */
  function IndexOf(s: string, ch: char): (i: int)
    ensures -1 <= i < |s|
    ensures i >= 0 ==> s[i] == ch
    ensures forall q :: 0 <= q < |s| && (i == -1 || q < i) ==> s[q] != ch
  {
    if s == [] then -1
    else if s[0] == ch then 0
    else
      var k := IndexOf(s[1..], ch);
      if k == -1 then -1 else k + 1
  }

  /**
   * The first '.' of the reversed name, at `index`, is the last '.' of the name: it sits at
   * |input| - 1 - index and nothing after it is a '.'; there is none exactly when the name
   * has no '.'.
   */
  lemma LastDot(input: string, index: int)
    requires index == IndexOf(Reverse(input), '.')
    ensures index == -1 <==> '.' !in input
    ensures index >= 0 ==> input[|input| - 1 - index] == '.'
    ensures index >= 0 ==> '.' !in input[|input| - index..]
  {
    var n := |input|;
    var r := Reverse(input);
    if '.' in input {
      var k :| 0 <= k < n && input[k] == '.';
      assert r[n - 1 - k] == '.';
    }
    if index >= 0 {
      var tail := input[n - index..];
      forall p | 0 <= p < |tail|
        ensures tail[p] != '.'
      {
        assert r[index - 1 - p] != '.';
      }
    }
  }

  /**
   * `getExtension`: the characters after the last '.'; fails when there is no '.' and when
   * the name ends in '.'.
   */
  function GetExtension(input: string): (r: Result<string>)
    ensures '.' !in input ==> r == Failure(NoExtension(input))
    ensures '.' in input && input[|input| - 1] == '.' ==> r == Failure(EmptyExtension(input))
    ensures r.Success? <==> '.' in input && input[|input| - 1] != '.'
    ensures r.Success? ==>
      0 < |r.value| < |input| &&
      input == input[..|input| - |r.value| - 1] + "." + r.value &&
      '.' !in r.value
  {
    var index := IndexOf(Reverse(input), '.');
    LastDot(input, index);
    if index == -1 then
      Failure(NoExtension(input))
    else
      var extension := input[|input| - index..];
      assert input == input[..|input| - index - 1] + "." + extension;
      if |extension| == 0 then Failure(EmptyExtension(input)) else Success(extension)
  }

  /** A file name with a supported extension. */
  datatype File = File(file: string, format: Format)

  /** `getFile`: the name unchanged, with its extension, which must be a supported one. */
  function GetFile(input: string): (r: Result<File>)
    ensures GetExtension(input).Failure? ==> r == Failure(GetExtension(input).error)
    ensures GetExtension(input).Success? && ParseFormat(GetExtension(input).value).None? ==>
      r == Failure(UnsupportedExtension(GetExtension(input).value))
    ensures r.Success? <==> exists f :: GetExtension(input) == Success(FormatName(f))
    ensures r.Success? ==> r.value.file == input && GetExtension(input) == Success(FormatName(r.value.format))
  {
    match GetExtension(input)
    case Failure(e) => Failure(e)
    case Success(extension) =>
      match ParseFormat(extension)
      case None => Failure(UnsupportedExtension(extension))
      case Some(f) => Success(File(input, f))
  }
}

/** Removal of the light background of the cloud image.

    Once the cloud image has been drawn to a scratch canvas its RGBA bytes
    are rewritten in place, four bytes (one pixel) at a time: near-white
    pixels become fully transparent, light-grey ones keep 30% of their
    opacity and mid-tone ones 60%.  Only the alpha byte of a pixel is ever
    written. */
module CloudAlpha {

  /** An element of the image's byte buffer. */
  type Byte = b: int | 0 <= b < 256

  /** The conversion of a non-negative value n / 10 to a byte: to the
      nearest integer, halves to the even one. */
  function RoundTenths(n: nat): (r: nat)
    ensures 10 * r <= n + 5 && n <= 10 * r + 5
  {
    var q := n / 10;
    var rem := n % 10;
    if rem > 5 || (rem == 5 && q % 2 == 1) then q + 1 else q
  }

  /** 30% of an alpha value. */
  function ThirtyPercent(a: Byte): (r: Byte)
    ensures r <= a
  {
    RoundTenths(a * 3)
  }

  /** 60% of an alpha value. */
  function SixtyPercent(a: Byte): (r: Byte)
    ensures r <= a
  {
    RoundTenths(a * 6)
  }

  /** The new alpha of a pixel with colour (r, g, b) and alpha a. */
  function KeyPixel(r: Byte, g: Byte, b: Byte, a: Byte): Byte
  {
    if r > 240 && g > 240 && b > 240 then 0
    else if r > 200 && g > 200 && b > 200 then ThirtyPercent(a)
    else if r > 150 && g > 150 && b > 150 then SixtyPercent(a)
    else a
  }

  /** The byte at position j once the whole buffer has been keyed: alpha
      bytes (every fourth, counting from 3) are keyed by their pixel's
      colour, all others are kept. */
  function KeyedAt(s: seq<Byte>, j: nat): Byte
    requires j < |s|
  {
    if j % 4 == 3 then KeyPixel(s[j - 3], s[j - 2], s[j - 1], s[j]) else s[j]
  }

  /** The whole keyed buffer. */
  function Keyed(s: seq<Byte>): (t: seq<Byte>)
    ensures |t| == |s|
    ensures forall j :: 0 <= j < |s| && j % 4 != 3 ==> t[j] == s[j]
    ensures forall j :: 0 <= j < |s| ==> t[j] <= s[j]
    ensures forall j :: 0 <= j < |s| && j % 4 == 3 && s[j - 3] > 240 && s[j - 2] > 240 && s[j - 1] > 240 ==> t[j] == 0
    ensures forall j :: 0 <= j < |s| && j % 4 == 3 && (s[j - 3] <= 150 || s[j - 2] <= 150 || s[j - 1] <= 150) ==> t[j] == s[j]
  {
    seq(|s|, j requires 0 <= j < |s| => KeyedAt(s, j))
  }

  /** The stride-4 loop over the buffer.  A trailing partial pixel, which
      the loop reads past the end of the buffer for, is never written. */
  method RemoveLightBackground(data: array<Byte>)
    modifies data
    ensures data[..] == Keyed(old(data[..]))
  {
    var i := 0;
    while i < data.Length
      invariant 0 <= i <= data.Length + 3 && i % 4 == 0
      invariant forall j :: 0 <= j < data.Length && j < i ==> data[j] == KeyedAt(old(data[..]), j)
      invariant forall j :: i <= j < data.Length ==> data[j] == old(data[j])
    {
      if i + 3 < data.Length {
        var r := data[i];
        var g := data[i + 1];
        var b := data[i + 2];
        if r > 240 && g > 240 && b > 240 {
          data[i + 3] := 0;
        } else if r > 200 && g > 200 && b > 200 {
          data[i + 3] := ThirtyPercent(data[i + 3]);
        } else if r > 150 && g > 150 && b > 150 {
          data[i + 3] := SixtyPercent(data[i + 3]);
        }
      }
      i := i + 4;
    }
  }
}

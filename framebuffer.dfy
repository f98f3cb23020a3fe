/**
 * The controller's frame buffer and the decoding of one raw frame into it.
 *
 * A raw frame is a 4-byte sequence number followed by one R, G, B, A group per
 * pixel. The frame buffer holds one RGB triple per pixel of the model, in the
 * model's pixel order; it is cleared to black at the start of every cycle and
 * then overwritten from the frame, with the alpha byte and the sequence number
 * left unused.
 */
module FrameBuffer {
  import opened Common
  import opened Framing

  datatype Rgb = Rgb(r: byte, g: byte, b: byte)

  const Black := Rgb(0, 0, 0)

  /** A pixel as the instrument sends it. */
  datatype Rgba = Rgba(r: byte, g: byte, b: byte, a: byte)

  function WithoutAlpha(p: Rgba): Rgb
  {
    Rgb(p.r, p.g, p.b)
  }

  /** The colour of pixel `i`: the first three bytes of the group at `4 + 4i`. */
  function PixelAt(frame: seq<byte>, i: nat): Rgb
    requires 4 + 4 * i + 4 <= |frame|
  {
    Rgb(frame[4 + 4 * i], frame[4 + 4 * i + 1], frame[4 + 4 * i + 2])
  }

  /** The frame buffer a frame decodes to, for a model of `pixelCount` pixels. */
  function Decoded(frame: seq<byte>, pixelCount: nat): seq<Rgb>
    requires |frame| >= FrameSize(pixelCount)
  {
    seq(pixelCount, i requires 0 <= i < pixelCount => PixelAt(frame, i))
  }

  /** The R, G, B, A bytes of `pixels`, in order. */
  function EncodePixels(pixels: seq<Rgba>): (bytes: seq<byte>)
    ensures |bytes| == 4 * |pixels|
  {
    if pixels == [] then []
    else [pixels[0].r, pixels[0].g, pixels[0].b, pixels[0].a] + EncodePixels(pixels[1..])
  }

  /** The raw frame an instrument writes: a 4-byte sequence number, then the pixels. */
  function EncodeFrame(header: seq<byte>, pixels: seq<Rgba>): (frame: seq<byte>)
    requires |header| == 4
    ensures |frame| == FrameSize(|pixels|)
  {
    header + EncodePixels(pixels)
  }

  lemma {:induction false} EncodePixelsAt(pixels: seq<Rgba>, i: nat)
    requires i < |pixels|
    ensures var bytes := EncodePixels(pixels);
      bytes[4 * i] == pixels[i].r && bytes[4 * i + 1] == pixels[i].g &&
      bytes[4 * i + 2] == pixels[i].b && bytes[4 * i + 3] == pixels[i].a
  {
    if i > 0 {
      EncodePixelsAt(pixels[1..], i - 1);
    }
  }

  /** Decoding undoes the instrument's encoding, except for the alpha bytes
      and the sequence number, which it drops. */
  lemma DecodeEncode(header: seq<byte>, pixels: seq<Rgba>)
    requires |header| == 4
    ensures Decoded(EncodeFrame(header, pixels), |pixels|)
      == seq(|pixels|, i requires 0 <= i < |pixels| => WithoutAlpha(pixels[i]))
  {
    var frame := EncodeFrame(header, pixels);
    forall i | 0 <= i < |pixels|
      ensures PixelAt(frame, i) == WithoutAlpha(pixels[i])
    {
      EncodePixelsAt(pixels, i);
    }
  }

  /** The sequence number and the alpha bytes do not affect the decoded buffer. */
  lemma DecodeIgnoresHeaderAndAlpha(frame: seq<byte>, pixelCount: nat, j: nat, v: byte)
    requires |frame| >= FrameSize(pixelCount) && j < |frame|
    requires j < 4 || j % 4 == 3
    ensures Decoded(frame[j := v], pixelCount) == Decoded(frame, pixelCount)
  {
    var changed := frame[j := v];
    forall i | 0 <= i < pixelCount
      ensures PixelAt(changed, i) == PixelAt(frame, i)
    {
      assert 4 + 4 * i != j && 4 + 4 * i + 1 != j && 4 + 4 * i + 2 != j;
    }
  }

  /** Every colour byte of the frame does affect the decoded buffer. */
  lemma DecodeSeesColourBytes(frame: seq<byte>, pixelCount: nat, j: nat, v: byte)
    requires |frame| >= FrameSize(pixelCount)
    requires 4 <= j < FrameSize(pixelCount) && j % 4 != 3
    requires frame[j] != v
    ensures Decoded(frame[j := v], pixelCount) != Decoded(frame, pixelCount)
  {
    var i := (j - 4) / 4;
    assert 4 + 4 * i <= j < 4 + 4 * i + 3;
    assert Decoded(frame[j := v], pixelCount)[i] != Decoded(frame, pixelCount)[i];
  }

  /** The worked example of three pixels, red, green and blue, at full alpha. */
  lemma DecodeThreePixels()
    ensures Decoded([0, 0, 0, 1, 255, 0, 0, 255, 0, 255, 0, 255, 0, 0, 255, 255], 3)
      == [Rgb(255, 0, 0), Rgb(0, 255, 0), Rgb(0, 0, 255)]
  {
  }

  /** Clear the frame buffer to black. */
  method ResetToBlack(buffer: array<Rgb>)
    modifies buffer
    ensures forall i :: 0 <= i < buffer.Length ==> buffer[i] == Black
  {
    for i := 0 to buffer.Length
      invariant forall k :: 0 <= k < i ==> buffer[k] == Black
    {
      buffer[i] := Black;
    }
  }

  /** Overwrite every pixel of the frame buffer with its colour in `frame`. */
  method DecodeInto(frame: seq<byte>, buffer: array<Rgb>)
    requires |frame| >= FrameSize(buffer.Length)
    modifies buffer
    ensures buffer[..] == Decoded(frame, buffer.Length)
  {
    for i := 0 to buffer.Length
      invariant forall k :: 0 <= k < i ==> buffer[k] == PixelAt(frame, k)
    {
      var r := frame[4 + i * 4 + 0];
      var g := frame[4 + i * 4 + 1];
      var b := frame[4 + i * 4 + 2];
      buffer[i] := Rgb(r, g, b);
    }
  }
}

/**
 Machine words and pixel colours shared by the evaluator and the page driver.

 A canvas `ImageData` stores each pixel as four bytes R, G, B, A. The driver
 reads and writes those bytes through a `Uint32Array` laid over the same
 buffer, so every pixel is one 32-bit word. WebAssembly and the browsers it
 runs in are little-endian, so the red byte is the least significant byte of
 the word and alpha the most significant.
 */
module Pixels {

  type u8 = x: int | 0 <= x < 0x100
  type u32 = x: int | 0 <= x < 0x1_0000_0000

  /** One canvas pixel, channel by channel. */
  datatype Rgba = Rgba(r: u8, g: u8, b: u8, a: u8)

  /** The word a `Uint32Array` element shows for the four bytes of one pixel. */
  function Pack(c: Rgba): (w: u32)
    ensures w % 0x100 == c.r
    ensures w / 0x100_0000 == c.a
  {
    c.r + 0x100 * (c.g + 0x100 * (c.b + 0x100 * c.a))
  }

  /** The four bytes a `Uint32Array` element occupies, red first. */
  function Unpack(w: u32): (c: Rgba)
    ensures c.r == w % 0x100
    ensures c.a == w / 0x100_0000
  {
    var q1 := w / 0x100;
    var q2 := q1 / 0x100;
    Rgba(w % 0x100, q1 % 0x100, q2 % 0x100, q2 / 0x100)
  }

  lemma ByteDivMod(lo: int, hi: int)
    requires 0 <= lo < 0x100 && 0 <= hi
    ensures (lo + 0x100 * hi) % 0x100 == lo
    ensures (lo + 0x100 * hi) / 0x100 == hi
  {
  }

  /** Writing a pixel's bytes and reading them back as a word loses nothing. */
  lemma UnpackPack(c: Rgba)
    ensures Unpack(Pack(c)) == c
  {
    var hi := c.b + 0x100 * c.a;
    var mid := c.g + 0x100 * hi;
    ByteDivMod(c.r, mid);
    ByteDivMod(c.g, hi);
    ByteDivMod(c.b, c.a);
  }

  /** Reading a word's bytes and writing them back gives the same word. */
  lemma PackUnpack(w: u32)
    ensures Pack(Unpack(w)) == w
  {
    var q1 := w / 0x100;
    var q2 := q1 / 0x100;
    assert w == w % 0x100 + 0x100 * q1;
    assert q1 == q1 % 0x100 + 0x100 * q2;
    assert q2 == q2 % 0x100 + 0x100 * (q2 / 0x100);
  }

  /** The `Uint32Array` view of a run of pixels. */
  function WordView(texels: seq<Rgba>): (ws: seq<u32>)
    ensures |ws| == |texels|
    ensures forall i :: 0 <= i < |ws| ==> Unpack(ws[i]) == texels[i]
  {
    var ws := seq(|texels|, i requires 0 <= i < |texels| => Pack(texels[i]));
    assert forall i :: 0 <= i < |ws| ==> Unpack(ws[i]) == texels[i] by {
      forall i | 0 <= i < |ws|
        ensures Unpack(ws[i]) == texels[i]
      {
        UnpackPack(texels[i]);
      }
    }
    ws
  }

  /** The pixels whose bytes a run of `Uint32Array` words occupies. */
  function TexelView(ws: seq<u32>): (texels: seq<Rgba>)
    ensures |texels| == |ws|
    ensures forall i :: 0 <= i < |texels| ==> Pack(texels[i]) == ws[i]
  {
    var texels := seq(|ws|, i requires 0 <= i < |ws| => Unpack(ws[i]));
    assert forall i :: 0 <= i < |texels| ==> Pack(texels[i]) == ws[i] by {
      forall i | 0 <= i < |texels|
        ensures Pack(texels[i]) == ws[i]
      {
        PackUnpack(ws[i]);
      }
    }
    texels
  }

  /** The two views of one buffer are inverse to each other, both ways round. */
  lemma ViewsRoundTrip(texels: seq<Rgba>, ws: seq<u32>)
    ensures TexelView(WordView(texels)) == texels
    ensures WordView(TexelView(ws)) == ws
  {
    var t := TexelView(WordView(texels));
    forall i | 0 <= i < |texels|
      ensures t[i] == texels[i]
    {
      UnpackPack(texels[i]);
    }
    var w := WordView(TexelView(ws));
    forall i | 0 <= i < |ws|
      ensures w[i] == ws[i]
    {
      PackUnpack(ws[i]);
    }
  }
}

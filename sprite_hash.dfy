// The bytes the sprite-collection build hashes to find textures with the
// same content: every pixel's four channels in `GetPixels32` order, then
// the low three bytes of the width and of the height. MD5 is a parameter:
// nothing here depends on what it computes.

module SpriteHash {
  import opened Pixels
  import opened SpriteLuts

  /** Row `y` of `tex`, left to right. */
  function Row(tex: Texture, y: int): (r: seq<Color>)
    requires tex.Valid() && 0 <= y < tex.height
    reads tex.data
    ensures |r| == tex.width
  {
    seq(tex.width, x requires 0 <= x < tex.width reads tex.data => tex.data[x, y])
  }

  /** Rows `y` upwards of `tex`, bottom to top. */
  function RowsFrom(tex: Texture, y: int): (r: seq<Color>)
    requires tex.Valid() && 0 <= y <= tex.height
    reads tex.data
    ensures |r| == (tex.height - y) * tex.width
    decreases tex.height - y
  {
    if y == tex.height then [] else Row(tex, y) + RowsFrom(tex, y + 1)
  }

  /** `GetPixels32`: the pixels row by row, starting with the bottom row. */
  function Pixels32(tex: Texture): (r: seq<Color>)
    requires tex.Valid()
    reads tex.data
    ensures |r| == tex.width * tex.height
  {
    RowsFrom(tex, 0)
  }

  /** Channel `n` of `c` in the order r, g, b, a. */
  function Channel(c: Color, n: int): byte
  {
    if n == 0 then c.r else if n == 1 then c.g else if n == 2 then c.b else c.a
  }

  /** The four channels of every pixel, one pixel after the other. */
  function ChannelBytes(ps: seq<Color>): (r: seq<byte>)
    ensures |r| == 4 * |ps|
  {
    seq(4 * |ps|, k requires 0 <= k < 4 * |ps| => Channel(ps[k / 4], k % 4))
  }

  /**
   * The low three bytes of a non-negative `v`, least significant first:
   * for such a `v`, `(v & 0xff0000) >> 16` is `v / 65536 % 256`, and
   * likewise for the other two.
   */
  function LowBytes(v: int): (r: seq<byte>)
    ensures |r| == 3
  {
    [(v % 256) as byte, (v / 256 % 256) as byte, (v / 65536 % 256) as byte]
  }

  /** The buffer `SetSpriteLutHash` hashes for a lut with texture `tex`; `[0]` for none. */
  function HashBuffer(tex: Texture?): seq<byte>
    requires tex != null ==> tex.Valid()
    reads if tex != null then {tex.data} else {}
  {
    if tex == null then [0]
    else ChannelBytes(Pixels32(tex)) + LowBytes(tex.width) + LowBytes(tex.height)
  }

  /** The buffer filled in by `SetSpriteLutHash`. */
  method FillHashBuffer(tex: Texture?) returns (buf: array<byte>)
    requires tex != null ==> tex.Valid()
    ensures fresh(buf)
    ensures buf[..] == HashBuffer(tex)
  {
    if tex == null {
      buf := new byte[1];
      buf[0] := 0;
      return;
    }
    var pixelData := Pixels32(tex);
    buf := new byte[6 + |pixelData| * 4];
    WriteChannels(buf, pixelData);
    WriteSides(buf, 4 * |pixelData|, tex.width, tex.height);
    assert buf[..] == buf[..4 * |pixelData|] + buf[4 * |pixelData|..];
  }

  /** The pixel loop of `SetSpriteLutHash`: the channels go to the front of `buf`. */
  method WriteChannels(buf: array<byte>, pixelData: seq<Color>)
    requires 4 * |pixelData| <= buf.Length
    modifies buf
    ensures buf[..4 * |pixelData|] == ChannelBytes(pixelData)
    ensures buf[4 * |pixelData|..] == old(buf[4 * |pixelData|..])
  {
    var ptr := 0;
    for i := 0 to |pixelData|
      invariant ptr == 4 * i
      invariant forall k :: 0 <= k < ptr ==> buf[k] == Channel(pixelData[k / 4], k % 4)
      invariant buf[4 * |pixelData|..] == old(buf[4 * |pixelData|..])
    {
      buf[ptr] := pixelData[i].r;
      buf[ptr + 1] := pixelData[i].g;
      buf[ptr + 2] := pixelData[i].b;
      buf[ptr + 3] := pixelData[i].a;
      ptr := ptr + 4;
    }
  }

  /** The six bytes after the pixels: the low three bytes of the width, then of the height. */
  method WriteSides(buf: array<byte>, ptr: int, width: int, height: int)
    requires 0 <= ptr && buf.Length == ptr + 6
    modifies buf
    ensures buf[..ptr] == old(buf[..ptr])
    ensures buf[ptr..] == LowBytes(width) + LowBytes(height)
  {
    var wb, hb := LowBytes(width), LowBytes(height);
    buf[ptr], buf[ptr + 1], buf[ptr + 2] := wb[0], wb[1], wb[2];
    buf[ptr + 3], buf[ptr + 4], buf[ptr + 5] := hb[0], hb[1], hb[2];
  }

  /** `SetSpriteLutHash`: the lut's hash becomes the digest of its buffer, and nothing else changes. */
  method SetSpriteLutHash(lut: SpriteLut, md5: seq<byte> -> seq<byte>) returns (lut': SpriteLut)
    requires lut.tex != null ==> lut.tex.Valid()
    ensures lut' == lut.(hash := md5(HashBuffer(lut.tex)))
  {
    var buf := FillHashBuffer(lut.tex);
    lut' := lut.(hash := md5(buf[..]));
  }

  /** Three low bytes tell apart every value below 2^24. */
  lemma LowBytesInjective(v: int, v': int)
    requires 0 <= v < 0x100_0000 && 0 <= v' < 0x100_0000
    ensures LowBytes(v) == LowBytes(v') <==> v == v'
  {
    if LowBytes(v) == LowBytes(v') {
      assert v % 256 == v' % 256 && v / 256 % 256 == v' / 256 % 256 && v / 65536 == v' / 65536;
    }
  }

  /** The channel bytes give back the pixels. */
  lemma ChannelBytesInjective(ps: seq<Color>, ps': seq<Color>)
    ensures ChannelBytes(ps) == ChannelBytes(ps') <==> ps == ps'
  {
    if ChannelBytes(ps) == ChannelBytes(ps') {
      forall n | 0 <= n < |ps|
        ensures ps[n] == ps'[n]
      {
        var k := 4 * n;
        assert ChannelBytes(ps)[k] == ChannelBytes(ps')[k];
        assert ChannelBytes(ps)[k + 1] == ChannelBytes(ps')[k + 1];
        assert ChannelBytes(ps)[k + 2] == ChannelBytes(ps')[k + 2];
        assert ChannelBytes(ps)[k + 3] == ChannelBytes(ps')[k + 3];
      }
    }
  }

  /**
   * For textures with sides below 2^24, two buffers are equal exactly when
   * both luts lack a texture, or both textures have the same size and the
   * same pixels.
   */
  lemma HashBufferExact(a: Texture?, b: Texture?)
    requires a != null ==> a.Valid() && a.width < 0x100_0000 && a.height < 0x100_0000
    requires b != null ==> b.Valid() && b.width < 0x100_0000 && b.height < 0x100_0000
    ensures HashBuffer(a) == HashBuffer(b) <==>
              (a == null <==> b == null)
              && (a != null && b != null ==>
                    a.width == b.width && a.height == b.height && Pixels32(a) == Pixels32(b))
  {
    if a != null && b != null && HashBuffer(a) == HashBuffer(b) {
      var pa, pb := ChannelBytes(Pixels32(a)), ChannelBytes(Pixels32(b));
      var n := |HashBuffer(a)|;
      assert HashBuffer(a)[n - 6..n - 3] == LowBytes(a.width) && HashBuffer(b)[n - 6..n - 3] == LowBytes(b.width);
      assert HashBuffer(a)[n - 3..] == LowBytes(a.height) && HashBuffer(b)[n - 3..] == LowBytes(b.height);
      LowBytesInjective(a.width, b.width);
      LowBytesInjective(a.height, b.height);
      assert HashBuffer(a)[..n - 6] == pa && HashBuffer(b)[..n - 6] == pb;
      ChannelBytesInjective(Pixels32(a), Pixels32(b));
    }
    if a != null && b == null {
      assert |HashBuffer(a)| >= 10;
    }
    if a == null && b != null {
      assert |HashBuffer(b)| >= 10;
    }
  }
}

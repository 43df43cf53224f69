/** The difference hash ("dHash") of a picture and the Hamming distance
    between two hashes. Only the integer part is modelled: the rescale of the
    picture to 9x8 pixels is done by the caller. */
module ImgDiff {
  import opened Strings
  import opened Errors

  /** A 64-bit hash, one bit per adjacent pixel pair. */
  type Hash = bv64

  const HashWidth: nat := 9
  const HashHeight: nat := 8

  /** Number of one bits in the binary form of `n`. */
  function Ones(n: nat): nat {
    if n == 0 then 0 else n % 2 + Ones(n / 2)
  }

  function Pow2(k: nat): nat {
    if k == 0 then 1 else 2 * Pow2(k - 1)
  }

  /** Eight more bits multiply the range by 256. */
  lemma Pow2Step(k: nat)
    ensures Pow2(k + 8) == 256 * Pow2(k)
  {
    assert Pow2(k + 2) == 4 * Pow2(k) by {
      assert Pow2(k + 2) == 2 * Pow2(k + 1);
    }
    assert Pow2(k + 4) == 16 * Pow2(k) by {
      assert Pow2(k + 4) == 2 * Pow2(k + 3) && Pow2(k + 3) == 2 * Pow2(k + 2);
    }
    assert Pow2(k + 8) == 2 * Pow2(k + 7) && Pow2(k + 7) == 2 * Pow2(k + 6);
    assert Pow2(k + 6) == 2 * Pow2(k + 5) && Pow2(k + 5) == 2 * Pow2(k + 4);
  }

  lemma Pow2Of64()
    ensures Pow2(64) == 0x1_0000_0000_0000_0000
  {
    Pow2Step(0); Pow2Step(8); Pow2Step(16); Pow2Step(24);
    Pow2Step(32); Pow2Step(40); Pow2Step(48); Pow2Step(56);
  }

  lemma {:induction false} OnesBound(n: nat, k: nat)
    requires n < Pow2(k)
    ensures Ones(n) <= k
  {
    if n > 0 {
      OnesBound(n / 2, k - 1);
    }
  }

  lemma {:induction false} OnesZero(n: nat)
    ensures Ones(n) == 0 <==> n == 0
  {
    if n > 0 && n % 2 == 0 {
      OnesZero(n / 2);
    }
  }

  /** `Distance`: the number of bit positions where the hashes differ. */
  function Distance(h1: Hash, h2: Hash): (d: nat)
    ensures d <= 64
  {
    var x := (h1 ^ h2) as int;
    Pow2Of64();
    OnesBound(x, 64);
    Ones(x)
  }

  /** The distance is symmetric and vanishes exactly on equal hashes. */
  lemma DistanceMetric(h1: Hash, h2: Hash)
    ensures Distance(h1, h2) == Distance(h2, h1)
    ensures Distance(h1, h2) == 0 <==> h1 == h2
  {
    var x, y := h1 ^ h2, h2 ^ h1;
    assert x == y;
    OnesZero(x as int);
    assert (x == 0) <==> (h1 == h2);
  }

  /** A decoded picture: `nchan` bytes per pixel, rows `rowstride` bytes
      apart. */
  datatype Pixbuf = Pixbuf(width: int, height: int, nchan: int, rowstride: int, pixels: seq<Byte>)

  /** Where pixel (`iw`, `ih`) starts in the buffer. */
  function Offset(p: Pixbuf, ih: int, iw: int): int {
    ih * p.rowstride + iw * p.nchan
  }

  /** Every pixel's channels lie inside the buffer. */
  predicate Wellformed(p: Pixbuf) {
    p.width >= 0 && p.height >= 0 && p.nchan >= 1 &&
    forall ih, iw :: 0 <= ih < p.height && 0 <= iw < p.width ==>
      0 <= Offset(p, ih, iw) && Offset(p, ih, iw) + p.nchan <= |p.pixels|
  }

  /** BT.601 luma in 16.16 fixed point, rounded: the weights 0.299, 0.587
      and 0.114 scaled by 65536 sum to exactly 65536. */
  function Luma(r: Byte, g: Byte, b: Byte): (y: Byte)
    ensures 19595 * r + 38470 * g + 7471 * b + 32768 < 0x1_0000_0000
  {
    (19595 * r + 38470 * g + 7471 * b + 32768) / 65536
  }

  /** A gray input keeps its value. */
  lemma LumaGray(v: Byte)
    ensures Luma(v, v, v) == v
  {
    assert 19595 * v + 38470 * v + 7471 * v + 32768 == 65536 * v + 32768;
  }

  /** Luma never decreases when a channel brightens. */
  lemma LumaMonotone(r: Byte, g: Byte, b: Byte, r2: Byte, g2: Byte, b2: Byte)
    requires r <= r2 && g <= g2 && b <= b2
    ensures Luma(r, g, b) <= Luma(r2, g2, b2)
  {
  }

  /** The gray value of one pixel: the byte itself for one channel, luma of
      the first three channels otherwise (alpha is not read). */
  function GrayAt(p: Pixbuf, ih: int, iw: int): Byte
    requires Wellformed(p) && 0 <= ih < p.height && 0 <= iw < p.width
    requires p.nchan == 1 || p.nchan == 3 || p.nchan == 4
  {
    var o := Offset(p, ih, iw);
    if p.nchan == 1 then p.pixels[o]
    else Luma(p.pixels[o], p.pixels[o + 1], p.pixels[o + 2])
  }

  /** The alpha byte of a four-channel pixel does not affect its gray
      value. */
  lemma AlphaIgnored(p: Pixbuf, ih: int, iw: int, a: Byte)
    requires Wellformed(p) && p.nchan == 4 && 0 <= ih < p.height && 0 <= iw < p.width
    ensures var q := p.(pixels := p.pixels[Offset(p, ih, iw) + 3 := a]);
      Wellformed(q) && GrayAt(q, ih, iw) == GrayAt(p, ih, iw)
  {
    var q := p.(pixels := p.pixels[Offset(p, ih, iw) + 3 := a]);
    assert forall jh, jw :: Offset(q, jh, jw) == Offset(p, jh, jw);
  }

  /** `pixbufToGrayscaleImage`: the gray image, row by row; `None` stands for
      the panic on a channel count other than 1, 3 or 4. */
  method ToGrayscale(p: Pixbuf) returns (r: Option<array2<Byte>>)
    requires Wellformed(p)
    ensures !(p.nchan == 1 || p.nchan == 3 || p.nchan == 4) ==> r.None?
    ensures (p.nchan == 1 || p.nchan == 3 || p.nchan == 4) ==>
      r.Some? && r.value.Length0 == p.height && r.value.Length1 == p.width &&
      forall ih, iw :: 0 <= ih < p.height && 0 <= iw < p.width ==> r.value[ih, iw] == GrayAt(p, ih, iw)
  {
    if !(p.nchan == 1 || p.nchan == 3 || p.nchan == 4) {
      return None;
    }
    var im := new Byte[p.height, p.width];
    var ih := 0;
    while ih < p.height
      invariant 0 <= ih <= p.height
      invariant forall jh, jw :: 0 <= jh < ih && 0 <= jw < p.width ==> im[jh, jw] == GrayAt(p, jh, jw)
    {
      var iw := 0;
      while iw < p.width
        invariant 0 <= iw <= p.width
        invariant forall jh, jw :: 0 <= jh < ih && 0 <= jw < p.width ==> im[jh, jw] == GrayAt(p, jh, jw)
        invariant forall jw :: 0 <= jw < iw ==> im[ih, jw] == GrayAt(p, ih, jw)
      {
        var o := ih * p.rowstride + iw * p.nchan;
        assert o == Offset(p, ih, iw);
        var y;
        if p.nchan == 1 {
          y := p.pixels[o];
        } else {
          y := Luma(p.pixels[o], p.pixels[o + 1], p.pixels[o + 2]);
        }
        im[ih, iw] := y;
        iw := iw + 1;
      }
      ih := ih + 1;
    }
    return Some(im);
  }

  /** The single bit at position `k`. */
  function Mask(k: nat): Hash
    requires k < 64
  {
    1 << (k as bv7)
  }

  predicate Bit(h: Hash, k: nat)
    requires k < 64
  {
    (h >> (k as bv7)) & 1 == 1
  }

  lemma OrBitBv(h: Hash, j: bv7, k: bv7)
    requires j < 64 && k < 64
    ensures ((h | (1 << j)) >> k) & 1 == 1 <==> (h >> k) & 1 == 1 || k == j
  {
  }

  lemma RoundTrip(j: nat)
    requires j < 64
    ensures (j as bv7) as int == j
  {
  }

  /** Setting bit `j` sets exactly that bit. */
  lemma OrBit(h: Hash, j: nat, k: nat)
    requires j < 64 && k < 64
    ensures Bit(h | Mask(j), k) <==> Bit(h, k) || k == j
  {
    var jb, kb := j as bv7, k as bv7;
    RoundTrip(j);
    RoundTrip(k);
    assert jb < 64 && kb < 64;
    OrBitBv(h, jb, kb);
    assert (jb == kb) <==> (j == k);
  }

  lemma ZeroBit(k: nat)
    requires k < 64
    ensures !Bit(0, k)
  {
  }

  /** The pixel right of (`ix`, `iy`) is strictly brighter. */
  predicate Brighter(q: Pixbuf, iy: nat, ix: nat)
    requires Wellformed(q) && q.width == HashWidth && q.height == HashHeight
    requires q.nchan == 1 || q.nchan == 3 || q.nchan == 4
    requires iy < 8 && ix < 8
  {
    GrayAt(q, iy, ix + 1) > GrayAt(q, iy, ix)
  }

  /** The 9x8 gray picture laid out as `DHash` buffers it: pixel (`ix`,
      `iy`) at index `9 * iy + ix`. */
  function GrayGrid(q: Pixbuf): (g: seq<Byte>)
    requires Wellformed(q) && q.width == HashWidth && q.height == HashHeight
    requires q.nchan == 1 || q.nchan == 3 || q.nchan == 4
    ensures |g| == 72
  {
    seq(72, k requires 0 <= k < 72 => GrayAt(q, k / 9, k % 9))
  }

  /** In the buffer `g`, the pixel right of (`ix`, `iy`) is strictly
      brighter. */
  predicate Rises(g: seq<Byte>, iy: nat, ix: nat)
    requires |g| == 72 && iy < 8 && ix < 8
  {
    g[9 * iy + ix + 1] > g[9 * iy + ix]
  }

  /** The buffer rises exactly where the picture does. */
  lemma GridRises(q: Pixbuf, iy: nat, ix: nat)
    requires Wellformed(q) && q.width == HashWidth && q.height == HashHeight
    requires q.nchan == 1 || q.nchan == 3 || q.nchan == 4
    requires iy < 8 && ix < 8
    ensures Rises(GrayGrid(q), iy, ix) <==> Brighter(q, iy, ix)
  {
    var g := GrayGrid(q);
    var k := 9 * iy + ix;
    assert k / 9 == iy && k % 9 == ix;
    assert (k + 1) / 9 == iy && (k + 1) % 9 == ix + 1;
  }

  /** The hash bits for positions below `n`: bit `iy*8 + ix` compares pixel
      `ix + 1` with pixel `ix` of row `iy` in the buffer. */
  function HashBits(g: seq<Byte>, n: nat): Hash
    requires |g| == 72 && n <= 64
  {
    if n == 0 then 0
    else
      var k := n - 1;
      SetIf(HashBits(g, k), Rises(g, k / 8, k % 8), k)
  }

  /** `h` with bit `k` set when `c` holds. */
  function SetIf(h: Hash, c: bool, k: nat): Hash
    requires k < 64
  {
    if c then h | Mask(k) else h
  }

  /** The hash of a 9x8 picture, or `None` where the gray conversion
      panics. */
  function HashOf(q: Pixbuf): Option<Hash>
    requires Wellformed(q) && q.width == HashWidth && q.height == HashHeight
  {
    if q.nchan == 1 || q.nchan == 3 || q.nchan == 4 then Some(HashBits(GrayGrid(q), 64)) else None
  }

  /** Bit `k` of the partial hash is set exactly when `k` is below `n` and
      its pixel pair rises. */
  lemma {:induction false} HashBitsBit(g: seq<Byte>, n: nat, k: nat)
    requires |g| == 72 && n <= 64 && k < 64
    ensures Bit(HashBits(g, n), k) <==> k < n && Rises(g, k / 8, k % 8)
  {
    if n == 0 {
      ZeroBit(k);
    } else {
      var j := n - 1;
      HashBitsBit(g, j, k);
      if Rises(g, j / 8, j % 8) {
        OrBit(HashBits(g, j), j, k);
      }
    }
  }

  /** `DHash` sets bit `iy*8 + ix` exactly when pixel `ix + 1` of row `iy` is
      strictly brighter than pixel `ix`, and no other bit. */
  lemma DHashBits(q: Pixbuf, iy: nat, ix: nat)
    requires Wellformed(q) && q.width == HashWidth && q.height == HashHeight
    requires q.nchan == 1 || q.nchan == 3 || q.nchan == 4
    requires iy < 8 && ix < 8
    ensures iy * 8 + ix < 64
    ensures Bit(HashOf(q).value, iy * 8 + ix) <==> Brighter(q, iy, ix)
  {
    var k := iy * 8 + ix;
    assert k / 8 == iy && k % 8 == ix;
    HashBitsBit(GrayGrid(q), 64, k);
    GridRises(q, iy, ix);
  }

  /** The 64 bit positions are distinct: (iy, ix) is recovered from
      `iy*8 + ix`. */
  lemma PositionsDistinct(iy: nat, ix: nat, jy: nat, jx: nat)
    requires iy < HashHeight && ix < HashWidth - 1 && jy < HashHeight && jx < HashWidth - 1
    requires iy * 8 + ix == jy * 8 + jx
    ensures iy == jy && ix == jx
  {
    assert (iy * 8 + ix) / 8 == iy && (jy * 8 + jx) / 8 == jy;
  }

  /** A picture of one uniform gray hashes to zero: the comparison is
      strict. */
  lemma UniformHashZero(q: Pixbuf)
    requires Wellformed(q) && q.width == HashWidth && q.height == HashHeight
    requires q.nchan == 1 || q.nchan == 3 || q.nchan == 4
    requires forall iy, ix :: 0 <= iy < 8 && 0 <= ix < 9 ==> GrayAt(q, iy, ix) == GrayAt(q, 0, 0)
    ensures HashOf(q) == Some(0)
  {
    var g := GrayGrid(q);
    forall iy, ix | 0 <= iy < 8 && 0 <= ix < 8
      ensures !Rises(g, iy, ix)
    {
      GridRises(q, iy, ix);
    }
    UniformBitsZero(g, 64);
  }

  lemma {:induction false} UniformBitsZero(g: seq<Byte>, n: nat)
    requires |g| == 72 && n <= 64
    requires forall iy, ix :: 0 <= iy < 8 && 0 <= ix < 8 ==> !Rises(g, iy, ix)
    ensures HashBits(g, n) == 0
  {
    if n > 0 {
      UniformBitsZero(g, n - 1);
    }
  }

  /** `DHash` after the rescale: reads the 9x8 gray image into a buffer, then
      ORs in one bit per rising pixel pair. `None` stands for the panic of
      the gray conversion. */
  method DHash(q: Pixbuf) returns (r: Option<Hash>)
    requires Wellformed(q) && q.width == HashWidth && q.height == HashHeight
    ensures r == HashOf(q)
  {
    var gray := ToGrayscale(q);
    if gray.None? {
      return None;
    }
    var data := GrayData(q, gray.value);
    assert data[..] == GrayGrid(q) by {
      forall k | 0 <= k < 72
        ensures data[k] == GrayGrid(q)[k]
      {
        assert k == 9 * (k / 9) + k % 9;
      }
    }
    var hash := HashData(data);
    return Some(hash);
  }

  /** The first loop of `DHash`: the gray image copied row by row into a
      buffer of 9*8 bytes. */
  method GrayData(q: Pixbuf, g: array2<Byte>) returns (data: array<Byte>)
    requires Wellformed(q) && q.width == HashWidth && q.height == HashHeight
    requires q.nchan == 1 || q.nchan == 3 || q.nchan == 4
    requires g.Length0 == HashHeight && g.Length1 == HashWidth
    requires forall ih, iw :: 0 <= ih < 8 && 0 <= iw < 9 ==> g[ih, iw] == GrayAt(q, ih, iw)
    ensures data.Length == 72
    ensures forall iy, ix :: 0 <= iy < 8 && 0 <= ix < 9 ==> data[9 * iy + ix] == GrayAt(q, iy, ix)
  {
    data := new Byte[HashWidth * HashHeight];
    var iy := 0;
    while iy < HashHeight
      invariant 0 <= iy <= HashHeight
      invariant forall jy, jx :: 0 <= jy < iy && 0 <= jx < 9 ==> data[9 * jy + jx] == GrayAt(q, jy, jx)
    {
      var ix := 0;
      while ix < HashWidth
        invariant 0 <= ix <= HashWidth
        invariant forall jy, jx :: 0 <= jy < iy && 0 <= jx < 9 ==> data[9 * jy + jx] == GrayAt(q, jy, jx)
        invariant forall jx :: 0 <= jx < ix ==> data[9 * iy + jx] == GrayAt(q, iy, jx)
      {
        data[iy * 9 + ix] := g[iy, ix];
        ix := ix + 1;
      }
      iy := iy + 1;
    }
  }

  /** The second loop of `DHash`: one bit per rising pixel pair. */
  method HashData(data: array<Byte>) returns (hash: Hash)
    requires data.Length == 72
    ensures hash == HashBits(data[..], 64)
  {
    hash := 0;
    ghost var g := data[..];
    var iy := 0;
    while iy < HashHeight
      invariant 0 <= iy <= HashHeight
      invariant hash == HashBits(g, 8 * iy)
    {
      hash := HashRow(data, iy, hash);
      iy := iy + 1;
    }
  }

  /** The inner loop of the second loop: the bits of row `iy`. */
  method HashRow(data: array<Byte>, iy: nat, h: Hash) returns (hash: Hash)
    requires data.Length == 72 && iy < 8
    requires h == HashBits(data[..], 8 * iy)
    ensures hash == HashBits(data[..], 8 * iy + 8)
  {
    hash := h;
    ghost var g := data[..];
    var o := 9 * iy;
    var ix := 0;
    while ix < HashWidth - 1
      invariant 0 <= ix <= HashWidth - 1
      invariant hash == HashBits(g, 8 * iy + ix)
    {
      var k := 8 * iy + ix;
      HashStep(g, iy, ix, k, hash);
      if data[o + ix + 1] > data[o + ix] {
        hash := hash | Mask(k);
      }
      ix := ix + 1;
    }
  }

  /** One comparison sets bit `iy*8 + ix` exactly when its pair rises. */
  lemma HashStep(g: seq<Byte>, iy: nat, ix: nat, k: nat, hash: Hash)
    requires |g| == 72 && iy < 8 && ix < 8 && k == 8 * iy + ix
    requires hash == HashBits(g, k)
    ensures (if g[9 * iy + ix + 1] > g[9 * iy + ix] then hash | Mask(k) else hash) == HashBits(g, k + 1)
  {
    assert k / 8 == iy && k % 8 == ix;
  }
}

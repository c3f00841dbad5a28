/** The DXT1 and DXT5 image converters of ImageUtils.cpp: cutting an image into blocks of four by four texels and
    writing out the code of each. The colour block encoder, all floating point, is a parameter. */
module DxtImage {
  import opened AlphaBlock

  datatype Image = Image(pixels: seq<Byte>, width: int, height: int, channels: int) {
    predicate Proper() {
      width >= 1 && height >= 1 && 1 <= channels <= 4
    }

    /** The source is told the sizes and given a buffer to match. */
    predicate Filled() {
      Proper() ==> |pixels| == width * height * channels
    }

    function Start(row: int, col: int): int {
      row * width * channels + col * channels
    }

    function Step(): int {
      if channels < 3 then 0 else 1
    }

    lemma TexelIsInside(row: int, col: int)
      requires Proper() && Filled() && 0 <= row < height && 0 <= col < width
      ensures 0 <= Start(row, col) && Start(row, col) + channels <= |pixels|
      ensures Start(row, col) + 2 * Step() < |pixels|
    {
      var at := row * width + col;
      Before(row, height, width, col);
      Scaled(at, height * width, channels);
      assert Start(row, col) == at * channels;
      assert width * height == height * width;
    }

    /** Red, green and blue of a texel, and alpha if wanted. */
    function Texel(row: int, col: int, alpha: bool): (t: seq<Byte>)
      requires Proper() && Filled() && 0 <= row < height && 0 <= col < width
      ensures |t| == Size(alpha)
    {
      TexelIsInside(row, col);
      var at := Start(row, col);
      [pixels[at], pixels[at + Step()], pixels[at + Step() + Step()]]
      + if !alpha then [] else [if channels % 2 == 0 then pixels[at + channels - 1] else 255]
    }
  }

  function Size(alpha: bool): nat { if alpha then 4 else 3 }

  lemma Before(row: int, height: int, width: int, col: int)
    requires 0 <= row < height && 0 <= col < width
    ensures 0 <= row * width && row * width + col + 1 <= height * width
  {
    assert (height - 1 - row) * width >= 0;
    assert (height - 1 - row) * width == height * width - width - row * width;
  }

  lemma Scaled(a: int, b: int, k: int)
    requires 0 <= a && a + 1 <= b && k >= 1
    ensures 0 <= a * k && a * k + k <= b * k
  {
    assert (b - 1 - a) * k >= 0;
    assert (b - 1 - a) * k == b * k - k - a * k;
  }

  // ----- blocks

  /** How many blocks of four it takes. */
  function Blocks(n: int): int { (n + 3) / 4 }

  /** Texel (y, x) of the block at row j and column i; outside the image, the block's first texel. */
  function BlockTexel(im: Image, alpha: bool, j: int, i: int, y: int, x: int): (t: seq<Byte>)
    requires im.Proper() && im.Filled() && 0 <= j < im.height && 0 <= i < im.width && 0 <= y && 0 <= x
    ensures |t| == Size(alpha)
  {
    if j + y < im.height && i + x < im.width then im.Texel(j + y, i + x, alpha) else im.Texel(j, i, alpha)
  }

  /** The first n texels of the block, row by row. */
  function BlockUpTo(im: Image, alpha: bool, j: int, i: int, n: nat): (b: seq<Byte>)
    requires im.Proper() && im.Filled() && 0 <= j < im.height && 0 <= i < im.width && n <= 16
    ensures |b| == n * Size(alpha)
  {
    if n == 0 then []
    else BlockUpTo(im, alpha, j, i, n - 1) + BlockTexel(im, alpha, j, i, (n - 1) / 4, (n - 1) % 4)
  }

  function Block(im: Image, alpha: bool, j: int, i: int): seq<Byte>
    requires im.Proper() && im.Filled() && 0 <= j < im.height && 0 <= i < im.width
  {
    BlockUpTo(im, alpha, j, i, 16)
  }

  method PutBytes(buffer: array<Byte>, index: nat, bytes: seq<Byte>) returns (next: nat)
    requires index + |bytes| <= buffer.Length
    modifies buffer
    ensures next == index + |bytes|
    ensures buffer[..next] == old(buffer[..index]) + bytes
  {
    next := index;
    for k := 0 to |bytes|
      invariant next == index + k
      invariant buffer[..next] == old(buffer[..index]) + bytes[..k]
    {
      buffer[next] := bytes[k];
      next := next + 1;
    }
    assert bytes[..|bytes|] == bytes;
  }

  /** The block holds its first n texels. */
  ghost predicate Filling(buffer: seq<Byte>, im: Image, alpha: bool, j: int, i: int, n: nat, idx: nat)
    requires im.Proper() && im.Filled() && 0 <= j < im.height && 0 <= i < im.width && n <= 16
  {
    idx == n * Size(alpha) <= |buffer| && buffer[..idx] == BlockUpTo(im, alpha, j, i, n)
  }

  lemma FirstTexel(im: Image, alpha: bool, j: int, i: int, n: nat, buffer: seq<Byte>, idx: nat)
    requires im.Proper() && im.Filled() && 0 <= j < im.height && 0 <= i < im.width && 1 <= n <= 16
    requires Filling(buffer, im, alpha, j, i, n, idx)
    ensures Size(alpha) <= idx && buffer[..Size(alpha)] == im.Texel(j, i, alpha)
  {
    BlockStarts(im, alpha, j, i, n);
    assert buffer[..idx][..Size(alpha)] == buffer[..Size(alpha)];
  }

  lemma {:induction false} BlockStarts(im: Image, alpha: bool, j: int, i: int, n: nat)
    requires im.Proper() && im.Filled() && 0 <= j < im.height && 0 <= i < im.width && 1 <= n <= 16
    ensures Size(alpha) <= n * Size(alpha)
    ensures BlockUpTo(im, alpha, j, i, n)[..Size(alpha)] == im.Texel(j, i, alpha)
  {
    hide im.Filled, im.Texel;
    if n == 1 {
      assert BlockUpTo(im, alpha, j, i, 0) == [];
      assert [] + im.Texel(j, i, alpha) == im.Texel(j, i, alpha);
    } else {
      BlockStarts(im, alpha, j, i, n - 1);
    }
  }

  /** Copying a block out of the image, one row of texels after the other, repeating its first texel where the
      block reaches past the image. */
  method FillBlock(im: Image, alpha: bool, j: int, i: int, ublock: array<Byte>)
    requires im.Proper() && im.Filled() && 0 <= j < im.height && 0 <= i < im.width
    requires ublock.Length == 16 * Size(alpha)
    modifies ublock
    ensures ublock[..] == Block(im, alpha, j, i)
  {
    hide Filling, BlockUpTo, im.Texel, im.Filled, im.Proper;
    var idx: nat := 0;
    var mx, my := 4, 4;
    FillingStarts(im, alpha, j, i, ublock[..]);
    if j + 4 >= im.height {
      my := im.height - j;
    }
    if i + 4 >= im.width {
      mx := im.width - i;
    }
    for y := 0 to my
      invariant Filling(ublock[..], im, alpha, j, i, 4 * y, idx)
    {
      for x := 0 to mx
        invariant Filling(ublock[..], im, alpha, j, i, 4 * y + x, idx)
      {
        idx := PutTexel(im, alpha, j, i, y, x, im.Texel(j + y, i + x, alpha), ublock, idx);
      }
      for x := mx to 4
        invariant Filling(ublock[..], im, alpha, j, i, 4 * y + x, idx)
      {
        FirstTexel(im, alpha, j, i, 4 * y + x, ublock[..], idx);
        idx := PutTexel(im, alpha, j, i, y, x, ublock[..Size(alpha)], ublock, idx);
      }
    }
    for y := my to 4
      invariant Filling(ublock[..], im, alpha, j, i, 4 * y, idx)
    {
      for x := 0 to 4
        invariant Filling(ublock[..], im, alpha, j, i, 4 * y + x, idx)
      {
        FirstTexel(im, alpha, j, i, 4 * y + x, ublock[..], idx);
        idx := PutTexel(im, alpha, j, i, y, x, ublock[..Size(alpha)], ublock, idx);
      }
    }
    FillingEnds(im, alpha, j, i, ublock[..], idx);
  }

  lemma FillingStarts(im: Image, alpha: bool, j: int, i: int, buffer: seq<Byte>)
    requires im.Proper() && im.Filled() && 0 <= j < im.height && 0 <= i < im.width
    ensures Filling(buffer, im, alpha, j, i, 0, 0)
  {
  }

  lemma FillingEnds(im: Image, alpha: bool, j: int, i: int, buffer: seq<Byte>, idx: nat)
    requires im.Proper() && im.Filled() && 0 <= j < im.height && 0 <= i < im.width
    requires |buffer| == 16 * Size(alpha) && Filling(buffer, im, alpha, j, i, 16, idx)
    ensures buffer == Block(im, alpha, j, i)
  {
    assert buffer[..idx] == buffer;
  }

  method PutTexel(im: Image, alpha: bool, j: int, i: int, y: nat, x: nat, texel: seq<Byte>, ublock: array<Byte>,
                  idx: nat)
    returns (next: nat)
    requires im.Proper() && im.Filled() && 0 <= j < im.height && 0 <= i < im.width && y < 4 && x < 4
    requires ublock.Length == 16 * Size(alpha) && texel == BlockTexel(im, alpha, j, i, y, x)
    requires Filling(ublock[..], im, alpha, j, i, 4 * y + x, idx)
    modifies ublock
    ensures Filling(ublock[..], im, alpha, j, i, 4 * y + x + 1, next)
  {
    assert ublock[..][..idx] == ublock[..idx];
    next := PutBytes(ublock, idx, texel);
    assert ublock[..][..next] == ublock[..next];
    assert (4 * y + x) / 4 == y && (4 * y + x) % 4 == x;
  }

  // ----- the whole image

  /** What one block turns into: a colour block, in DXT5 with an alpha block before it. */
  datatype Format = Dxt1(color: seq<Byte> -> seq<Byte>) | Dxt5(color: seq<Byte> -> seq<Byte>, flat: int) {
    function BlockSize(): nat { if Dxt1? then 8 else 16 }

    ghost predicate Proper() {
      forall block: seq<Byte> :: |color(block)| == 8
    }
  }

  function BlockCode(im: Image, format: Format, j: int, i: int): seq<Byte>
    requires im.Proper() && im.Filled() && 0 <= j < im.height && 0 <= i < im.width
  {
    match format
    case Dxt1(color) => color(Block(im, false, j, i))
    case Dxt5(color, flat) => EncodedAlpha(Block(im, true, j, i), flat) + color(Block(im, true, j, i))
  }

  lemma BlockCodeSize(im: Image, format: Format, j: int, i: int)
    requires im.Proper() && im.Filled() && 0 <= j < im.height && 0 <= i < im.width && format.Proper()
    ensures |BlockCode(im, format, j, i)| == format.BlockSize()
  {
  }

  /** The codes of the first c blocks of a row of blocks. */
  function RowCode(im: Image, format: Format, j: int, c: nat): seq<Byte>
    requires im.Proper() && im.Filled() && 0 <= j < im.height && c <= Blocks(im.width)
  {
    if c == 0 then [] else RowCode(im, format, j, c - 1) + BlockCode(im, format, j, 4 * (c - 1))
  }

  /** The codes of the first r rows of blocks. */
  function RowsCode(im: Image, format: Format, r: nat): seq<Byte>
    requires im.Proper() && im.Filled() && r <= Blocks(im.height)
  {
    if r == 0 then [] else RowsCode(im, format, r - 1) + RowCode(im, format, 4 * (r - 1), Blocks(im.width))
  }

  function Encoded(im: Image, format: Format): seq<Byte>
    requires im.Proper() && im.Filled()
  {
    RowsCode(im, format, Blocks(im.height))
  }

  lemma {:induction false} RowCodeSize(im: Image, format: Format, j: int, c: nat)
    requires im.Proper() && im.Filled() && 0 <= j < im.height && c <= Blocks(im.width) && format.Proper()
    ensures |RowCode(im, format, j, c)| == c * format.BlockSize()
  {
    hide BlockCode, format.Proper, im.Filled;
    if c > 0 {
      RowCodeSize(im, format, j, c - 1);
      BlockCodeSize(im, format, j, 4 * (c - 1));
    }
  }

  lemma {:induction false} RowsCodeSize(im: Image, format: Format, r: nat)
    requires im.Proper() && im.Filled() && r <= Blocks(im.height) && format.Proper()
    ensures |RowsCode(im, format, r)| == r * Blocks(im.width) * format.BlockSize()
  {
    hide RowCode, format.Proper, im.Filled;
    if r > 0 {
      RowsCodeSize(im, format, r - 1);
      RowCodeSize(im, format, 4 * (r - 1), Blocks(im.width));
      OneMore(r - 1, Blocks(im.width), format.BlockSize());
    }
  }

  lemma OneMore(r: int, w: int, b: int)
    ensures (r + 1) * w * b == r * w * b + w * b
  {
    assert (r + 1) * w == r * w + w;
  }

  /** The code of a block comes c blocks into its row. */
  lemma {:induction false} CodeInRow(im: Image, format: Format, j: int, c: nat, n: nat)
    requires im.Proper() && im.Filled() && 0 <= j < im.height && c < n <= Blocks(im.width) && format.Proper()
    ensures var (at, size) := (c * format.BlockSize(), format.BlockSize());
            && 0 <= at <= at + size <= |RowCode(im, format, j, n)|
            && RowCode(im, format, j, n)[at..at + size] == BlockCode(im, format, j, 4 * c)
  {
    hide BlockCode, format.Proper, im.Filled;
    RowCodeSize(im, format, j, n - 1);
    RowCodeSize(im, format, j, n);
    BlockCodeSize(im, format, j, 4 * (n - 1));
    var (size, before) := (format.BlockSize(), RowCode(im, format, j, n - 1));
    var last := BlockCode(im, format, j, 4 * (n - 1));
    assert RowCode(im, format, j, n) == before + last;
    if c < n - 1 {
      CodeInRow(im, format, j, c, n - 1);
      SlicedLeft(before, last, c * size, size);
    } else {
      SlicedRight(before, last);
    }
  }

  lemma {:induction false} RowInRows(im: Image, format: Format, r: nat, n: nat)
    requires im.Proper() && im.Filled() && r < n <= Blocks(im.height) && format.Proper()
    ensures var (at, size) := (r * Blocks(im.width) * format.BlockSize(), Blocks(im.width) * format.BlockSize());
            && 0 <= at <= at + size <= |RowsCode(im, format, n)|
            && RowsCode(im, format, n)[at..at + size] == RowCode(im, format, 4 * r, Blocks(im.width))
  {
    hide RowCode, format.Proper, im.Filled;
    RowsCodeSize(im, format, n - 1);
    RowsCodeSize(im, format, r);
    RowCodeSize(im, format, 4 * r, Blocks(im.width));
    RowCodeSize(im, format, 4 * (n - 1), Blocks(im.width));
    var (w, size) := (Blocks(im.width), format.BlockSize());
    var (before, last) := (RowsCode(im, format, n - 1), RowCode(im, format, 4 * (n - 1), w));
    assert RowsCode(im, format, n) == before + last;
    if r < n - 1 {
      RowInRows(im, format, r, n - 1);
      SlicedLeft(before, last, r * w * size, w * size);
    } else {
      SlicedRight(before, last);
    }
  }

  /** Where a decoder looks for a block, it finds that block's code and no other: the blocks lie row by row, of one
      size, and fill the output. */
  lemma BlocksLieRowByRow(im: Image, format: Format, r: nat, c: nat)
    requires im.Proper() && im.Filled() && r < Blocks(im.height) && c < Blocks(im.width) && format.Proper()
    ensures |Encoded(im, format)| == Blocks(im.height) * Blocks(im.width) * format.BlockSize()
    ensures var at := r * Blocks(im.width) * format.BlockSize() + c * format.BlockSize();
            && 0 <= at <= at + format.BlockSize() <= |Encoded(im, format)|
            && Encoded(im, format)[at..at + format.BlockSize()] == BlockCode(im, format, 4 * r, 4 * c)
  {
    hide RowCode, RowsCode, BlockCode, format.Proper, im.Filled;
    var (size, w) := (format.BlockSize(), Blocks(im.width));
    var (at, off) := (r * w * size, c * size);
    RowsCodeSize(im, format, Blocks(im.height));
    RowInRows(im, format, r, Blocks(im.height));
    CodeInRow(im, format, 4 * r, c, w);
    RowCodeSize(im, format, 4 * r, w);
    Sliced(Encoded(im, format), at, w * size, off, size);
  }

  lemma Sliced(s: seq<Byte>, at: int, n: int, off: int, size: int)
    requires 0 <= at && 0 <= off && 0 <= size && off + size <= n && at + n <= |s|
    ensures s[at..at + n][off..off + size] == s[at + off..at + off + size]
  {
    var (a, b) := (s[at..at + n][off..off + size], s[at + off..at + off + size]);
    assert |a| == |b| == size && forall k :: 0 <= k < size ==> a[k] == b[k];
  }

  lemma SlicedLeft(a: seq<Byte>, b: seq<Byte>, at: int, size: int)
    requires 0 <= at && 0 <= size && at + size <= |a|
    ensures (a + b)[at..at + size] == a[at..at + size]
  {
  }

  lemma SlicedRight(a: seq<Byte>, b: seq<Byte>)
    ensures (a + b)[|a|..|a| + |b|] == b
  {
  }

  // ----- the output, by the pixels of the image

  /** Channel ch of the texel in a row and a column: the image is stored row by row. */
  function Channel(im: Image, row: int, col: int, ch: int): Byte
    requires im.Proper() && im.Filled() && 0 <= row < im.height && 0 <= col < im.width && 0 <= ch < im.channels
  {
    im.TexelIsInside(row, col);
    StartIs(im, row, col);
    im.pixels[(row * im.width + col) * im.channels + ch]
  }

  lemma StartIs(im: Image, row: int, col: int)
    ensures im.Start(row, col) == (row * im.width + col) * im.channels
  {
  }

  /** The last of two or four channels, opaque without one. */
  function AlphaAt(im: Image, row: int, col: int): Byte
    requires im.Proper() && im.Filled() && 0 <= row < im.height && 0 <= col < im.width
  {
    if im.channels == 2 || im.channels == 4 then Channel(im, row, col, im.channels - 1) else 255
  }

  /** Red, green and blue, or three times the one channel of grey. */
  function ColorAt(im: Image, row: int, col: int): (rgb: seq<Byte>)
    requires im.Proper() && im.Filled() && 0 <= row < im.height && 0 <= col < im.width
    ensures |rgb| == 3
  {
    var grey := im.channels < 3;
    [Channel(im, row, col, 0), Channel(im, row, col, if grey then 0 else 1),
     Channel(im, row, col, if grey then 0 else 2)]
  }

  lemma TexelIs(im: Image, row: int, col: int, alpha: bool)
    requires im.Proper() && im.Filled() && 0 <= row < im.height && 0 <= col < im.width
    ensures im.Texel(row, col, alpha)[..3] == ColorAt(im, row, col)
    ensures alpha ==> im.Texel(row, col, alpha)[3] == AlphaAt(im, row, col)
  {
    im.TexelIsInside(row, col);
    StartIs(im, row, col);
  }

  /** Row and column of the t-th texel of the block in block row r and block column c; past the edge of the image the
      first of the block. */
  function RowOf(im: Image, r: int, c: int, t: nat): int {
    if 4 * r + t / 4 < im.height && 4 * c + t % 4 < im.width then 4 * r + t / 4 else 4 * r
  }

  function ColumnOf(im: Image, r: int, c: int, t: nat): int {
    if 4 * r + t / 4 < im.height && 4 * c + t % 4 < im.width then 4 * c + t % 4 else 4 * c
  }

  ghost predicate IsBlock(im: Image, r: int, c: int) {
    0 <= r && 0 <= c && 4 * r < im.height && 4 * c < im.width
  }

  /** The sixteen texels of a block, one after the other. */
  ghost predicate HoldsTexels(im: Image, r: int, c: int, alpha: bool, block: seq<Byte>)
    requires im.Proper() && im.Filled() && IsBlock(im, r, c)
  {
    |block| == 16 * Size(alpha) &&
    forall t: nat :: t < 16 ==>
      var (row, col, at) := (RowOf(im, r, c, t), ColumnOf(im, r, c, t), t * Size(alpha));
      block[at..at + 3] == ColorAt(im, row, col) && (alpha ==> block[at + 3] == AlphaAt(im, row, col))
  }

  lemma {:induction false} TexelOfBlock(im: Image, alpha: bool, j: int, i: int, n: nat, t: nat)
    requires im.Proper() && im.Filled() && 0 <= j < im.height && 0 <= i < im.width && t < n <= 16
    ensures var at := t * Size(alpha);
            && at + Size(alpha) <= n * Size(alpha)
            && BlockUpTo(im, alpha, j, i, n)[at..at + Size(alpha)] == BlockTexel(im, alpha, j, i, t / 4, t % 4)
  {
    hide im.Filled, im.Proper, im.Texel, BlockTexel;
    var (before, last) := (BlockUpTo(im, alpha, j, i, n - 1), BlockTexel(im, alpha, j, i, (n - 1) / 4, (n - 1) % 4));
    assert BlockUpTo(im, alpha, j, i, n) == before + last;
    if t < n - 1 {
      TexelOfBlock(im, alpha, j, i, n - 1, t);
      SlicedLeft(before, last, t * Size(alpha), Size(alpha));
    } else {
      SlicedRight(before, last);
    }
  }

  lemma BlockHoldsTexels(im: Image, r: int, c: int, alpha: bool)
    requires im.Proper() && im.Filled() && IsBlock(im, r, c)
    ensures HoldsTexels(im, r, c, alpha, Block(im, alpha, 4 * r, 4 * c))
  {
    hide im.Filled, im.Proper, im.Texel, AlphaAt, ColorAt, BlockUpTo;
    var block := Block(im, alpha, 4 * r, 4 * c);
    forall t: nat | t < 16
      ensures var (row, col, at) := (RowOf(im, r, c, t), ColumnOf(im, r, c, t), t * Size(alpha));
              block[at..at + 3] == ColorAt(im, row, col) && (alpha ==> block[at + 3] == AlphaAt(im, row, col))
    {
      var (row, col, at) := (RowOf(im, r, c, t), ColumnOf(im, r, c, t), t * Size(alpha));
      TexelOfBlock(im, alpha, 4 * r, 4 * c, 16, t);
      TexelIs(im, row, col, alpha);
      PartsOfTexel(block, at, alpha);
    }
  }

  lemma PartsOfTexel(block: seq<Byte>, at: nat, alpha: bool)
    requires at + Size(alpha) <= |block|
    ensures var texel := block[at..at + Size(alpha)];
            texel[..3] == block[at..at + 3] && (alpha ==> texel[3] == block[at + 3])
  {
  }

  /** The alpha of the texel at row y and column x of a block, as a decoder reads it from the block's first eight bytes:
      between the limits in the first two, and where these differ back exactly if it is one of them, and else within a
      share of 7.9999 of their distance. */
  ghost predicate AlphaReads(im: Image, r: int, c: int, flat: int, code: seq<Byte>, y: nat, x: nat)
    requires im.Proper() && im.Filled() && IsBlock(im, r, c) && |code| == 8
    requires 4 * r + y < im.height && 4 * c + x < im.width && y < 4 && x < 4
  {
    var (a, a0, a1) := (AlphaAt(im, 4 * r + y, 4 * c + x), code[0], code[1]);
    var read := DecodedTexel(code, 4 * y + x);
    && a1 <= a <= a0
    && (a1 < a0 ==>
          && -((a0 - a1) as real) <= (read - a as real) * 7.9999 <= (a0 - a1) as real
          && (a == a0 || a == a1 ==> read == a as real))
    && (a1 == a0 ==> (read == a as real <==> (flat % 8 == 1 ==> a == 255) && (flat % 8 == 2 ==> a == 0)))
  }

  lemma AlphaBlockReads(im: Image, r: int, c: int, flat: int, y: nat, x: nat)
    requires im.Proper() && im.Filled() && IsBlock(im, r, c)
    requires 4 * r + y < im.height && 4 * c + x < im.width && y < 4 && x < 4
    ensures AlphaReads(im, r, c, flat, EncodedAlpha(Block(im, true, 4 * r, 4 * c), flat), y, x)
  {
    hide im.Filled, im.Proper, BlockUpTo, AlphaAt, ColorAt, EncodedAlpha, Highest, Lowest, CodeAt, Word, Decoded,
         CodeOf;
    var block := Block(im, true, 4 * r, 4 * c);
    var alphas := Alphas(block);
    BlockHoldsTexels(im, r, c, true);
    LimitsAreTight(alphas);
    BlockHoldsCodes(block, flat, 4 * y + x);
    var t := 4 * y + x;
    assert t / 4 == y && t % 4 == x && t * Size(true) == 4 * t;
    assert block[t * Size(true) + 3] == AlphaAt(im, RowOf(im, r, c, t), ColumnOf(im, r, c, t));
    assert alphas[4 * y + x] == AlphaAt(im, 4 * r + y, 4 * c + x);
    if Lowest(alphas) < Highest(alphas) {
      BlockDecodesClosely(block, flat, 4 * y + x);
    } else {
      ConstantAlphaSurvivesExactly(alphas[4 * y + x], flat);
    }
  }

  /** Some texel of the block has this alpha. */
  ghost predicate AlphaOccurs(im: Image, r: int, c: int, a: Byte)
    requires im.Proper() && im.Filled() && IsBlock(im, r, c)
  {
    exists t: nat :: t < 16 && AlphaAt(im, RowOf(im, r, c, t), ColumnOf(im, r, c, t)) == a
  }

  lemma LimitsOccur(im: Image, r: int, c: int, flat: int)
    requires im.Proper() && im.Filled() && IsBlock(im, r, c)
    ensures var code := EncodedAlpha(Block(im, true, 4 * r, 4 * c), flat);
            AlphaOccurs(im, r, c, code[0]) && AlphaOccurs(im, r, c, code[1])
  {
    hide im.Filled, im.Proper, BlockUpTo, AlphaAt, ColorAt, EncodedAlpha, Highest, Lowest, CodeAt, Word, CodeOf;
    var block := Block(im, true, 4 * r, 4 * c);
    var alphas := Alphas(block);
    BlockHoldsTexels(im, r, c, true);
    LimitsAreTight(alphas);
    BlockHoldsCodes(block, flat, 0);
    forall t: nat | t < 16
      ensures alphas[t] == AlphaAt(im, RowOf(im, r, c, t), ColumnOf(im, r, c, t))
    {
      assert t * Size(true) == 4 * t;
      assert block[t * Size(true) + 3] == AlphaAt(im, RowOf(im, r, c, t), ColumnOf(im, r, c, t));
    }
  }

  /** The bytes of a block in the output: in DXT5 its alphas and then its colour code, in DXT1 the colour code alone. */
  ghost predicate BlockReads(im: Image, format: Format, r: int, c: int, code: seq<Byte>)
    requires im.Proper() && im.Filled() && IsBlock(im, r, c)
  {
    match format
    case Dxt1(color) =>
      exists block :: HoldsTexels(im, r, c, false, block) && code == color(block)
    case Dxt5(color, flat) =>
      && |code| == 16
      && AlphaOccurs(im, r, c, code[0]) && AlphaOccurs(im, r, c, code[1])
      && (forall y: nat, x: nat :: y < 4 && x < 4 && 4 * r + y < im.height && 4 * c + x < im.width ==>
            AlphaReads(im, r, c, flat, code[..8], y, x))
      && exists block :: HoldsTexels(im, r, c, true, block) && code[8..] == color(block)
  }

  lemma CodeReads(im: Image, format: Format, r: int, c: int)
    requires im.Proper() && im.Filled() && IsBlock(im, r, c) && format.Proper()
    ensures BlockReads(im, format, r, c, BlockCode(im, format, 4 * r, 4 * c))
  {
    hide im.Filled, im.Proper, BlockUpTo, HoldsTexels, AlphaReads, AlphaOccurs, EncodedAlpha;
    BlockHoldsTexels(im, r, c, format.Dxt5?);
    var block := Block(im, format.Dxt5?, 4 * r, 4 * c);
    if format.Dxt5? {
      var (alphas, code) := (EncodedAlpha(block, format.flat), BlockCode(im, format, 4 * r, 4 * c));
      LimitsOccur(im, r, c, format.flat);
      assert code[..8] == alphas && code[8..] == format.color(block);
      forall y: nat, x: nat | y < 4 && x < 4 && 4 * r + y < im.height && 4 * c + x < im.width
        ensures AlphaReads(im, r, c, format.flat, code[..8], y, x)
      {
        AlphaBlockReads(im, r, c, format.flat, y, x);
      }
    }
  }

  /** Every block of the image reads so where a decoder looks for it: the blocks lie row by row. */
  ghost predicate ImageReads(im: Image, format: Format, output: seq<Byte>)
    requires im.Proper() && im.Filled()
  {
    forall r: nat, c: nat :: IsBlock(im, r, c) ==>
      var (at, size) := ((r * Blocks(im.width) + c) * format.BlockSize(), format.BlockSize());
      0 <= at && at + size <= |output| && BlockReads(im, format, r, c, output[at..at + size])
  }

  lemma EncodedReads(im: Image, format: Format)
    requires im.Proper() && im.Filled() && format.Proper()
    ensures ImageReads(im, format, Encoded(im, format))
  {
    hide im.Filled, im.Proper, format.Proper, BlockCode, BlockReads, Encoded, Blocks;
    forall r: nat, c: nat | IsBlock(im, r, c)
      ensures var (at, size) := ((r * Blocks(im.width) + c) * format.BlockSize(), format.BlockSize());
              0 <= at && at + size <= |Encoded(im, format)|
              && BlockReads(im, format, r, c, Encoded(im, format)[at..at + size])
    {
      BlockAhead(im.height, r);
      BlockAhead(im.width, c);
      BlocksLieRowByRow(im, format, r, c);
      CodeReads(im, format, r, c);
      PlaceIs(r, Blocks(im.width), c, format.BlockSize());
    }
  }

  lemma PlaceIs(r: int, w: int, c: int, size: int)
    ensures (r * w + c) * size == r * w * size + c * size
  {
  }

  /** convert_image_to_DXT1 and convert_image_to_DXT5: nothing for sizes that make no sense; otherwise the codes of
      all blocks, in a buffer they fill exactly. */
  method ConvertImage(im: Image, format: Format) returns (compressed: array?<Byte>, outSize: int)
    requires im.Filled() && format.Proper()
    ensures compressed == null <==> im.width < 1 || im.height < 1 || im.channels < 1 || im.channels > 4
    ensures compressed == null ==> outSize == 0
    ensures compressed != null ==>
              outSize == compressed.Length == Blocks(im.width) * Blocks(im.height) * format.BlockSize()
    ensures compressed != null ==> fresh(compressed) && compressed[..] == Encoded(im, format)
    ensures compressed != null ==> ImageReads(im, format, compressed[..])
  {
    hide RowsCode, RowCode, Encoded, format.Proper, im.Filled, Blocks, Wrote, ImageReads;
    outSize := 0;
    if im.width < 1 || im.height < 1 || im.channels < 1 || im.channels > 4 {
      return null, 0;
    }
    ImageFits(im, format);
    outSize := Blocks(im.width) * Blocks(im.height) * format.BlockSize();
    var output := new Byte[outSize];
    compressed := output;
    var index: nat := 0;
    var j, r := 0, 0;
    NothingWritten(output[..]);
    while j < im.height
      invariant j == 4 * r && 0 <= r <= Blocks(im.height)
      invariant Wrote(output[..], index, RowsCode(im, format, r))
      decreases im.height - j
    {
      RowFits(im, format, r);
      index := ConvertRow(im, format, j, output, index, RowsCode(im, format, r));
      j, r := j + 4, r + 1;
    }
    BlocksDone(im.height, r);
    AllWritten(output[..], index, Encoded(im, format));
    EncodedReads(im, format);
  }

  lemma NothingWritten(buffer: seq<Byte>)
    ensures Wrote(buffer, 0, [])
  {
  }

  lemma AllWritten(buffer: seq<Byte>, index: nat, content: seq<Byte>)
    requires Wrote(buffer, index, content) && |buffer| == |content|
    ensures buffer == content
  {
    assert buffer[..index] == buffer;
  }

  lemma BlocksDone(n: int, r: int)
    requires n <= 4 * r && r <= Blocks(n)
    ensures r == Blocks(n)
  {
  }

  lemma ImageFits(im: Image, format: Format)
    requires im.Proper() && im.Filled() && format.Proper()
    ensures |RowsCode(im, format, Blocks(im.height))| == Blocks(im.width) * Blocks(im.height) * format.BlockSize()
    ensures 0 <= Blocks(im.height) && RowsCode(im, format, 0) == []
    ensures Encoded(im, format) == RowsCode(im, format, Blocks(im.height))
  {
    RowsCodeSize(im, format, Blocks(im.height));
    assert Blocks(im.width) * Blocks(im.height) == Blocks(im.height) * Blocks(im.width);
  }

  lemma RowFits(im: Image, format: Format, r: nat)
    requires im.Proper() && im.Filled() && 4 * r < im.height && format.Proper()
    ensures r + 1 <= Blocks(im.height)
    ensures RowsCode(im, format, r + 1) == RowsCode(im, format, r) + RowCode(im, format, 4 * r, Blocks(im.width))
    ensures |RowsCode(im, format, r + 1)| <= |RowsCode(im, format, Blocks(im.height))|
  {
    hide im.Filled, im.Proper, RowCode, RowsCode, Blocks;
    BlockAhead(im.height, r);
    RowsGrow(im, format, r + 1);
    RowsCodeNext(im, format, r);
  }

  lemma RowsCodeNext(im: Image, format: Format, r: nat)
    requires im.Proper() && im.Filled() && 4 * r < im.height && r + 1 <= Blocks(im.height)
    ensures RowsCode(im, format, r + 1) == RowsCode(im, format, r) + RowCode(im, format, 4 * r, Blocks(im.width))
  {
    hide im.Filled, RowCode;
  }

  lemma {:induction false} RowsGrow(im: Image, format: Format, r: nat)
    requires im.Proper() && im.Filled() && r <= Blocks(im.height)
    ensures |RowsCode(im, format, r)| <= |RowsCode(im, format, Blocks(im.height))|
    decreases Blocks(im.height) - r
  {
    hide im.Filled, RowCode;
    if r < Blocks(im.height) {
      RowsGrow(im, format, r + 1);
    }
  }

  lemma {:induction false} RowGrows(im: Image, format: Format, j: int, c: nat)
    requires im.Proper() && im.Filled() && 0 <= j < im.height && c <= Blocks(im.width)
    ensures |RowCode(im, format, j, c)| <= |RowCode(im, format, j, Blocks(im.width))|
    decreases Blocks(im.width) - c
  {
    hide im.Filled, BlockCode;
    if c < Blocks(im.width) {
      RowGrows(im, format, j, c + 1);
    }
  }

  /** The buffer holds the content up to the index. */
  ghost predicate Wrote(buffer: seq<Byte>, index: nat, content: seq<Byte>) {
    index == |content| <= |buffer| && buffer[..index] == content
  }

  method PutCode(buffer: array<Byte>, index: nat, bytes: seq<Byte>, ghost content: seq<Byte>) returns (next: nat)
    requires Wrote(buffer[..], index, content) && |content| + |bytes| <= buffer.Length
    modifies buffer
    ensures Wrote(buffer[..], next, content + bytes)
  {
    assert buffer[..][..index] == buffer[..index];
    next := PutBytes(buffer, index, bytes);
    assert buffer[..][..next] == buffer[..next];
  }

  /** What has been written c blocks into a row. */
  function RowAfter(im: Image, format: Format, j: int, c: nat, before: seq<Byte>): seq<Byte>
    requires im.Proper() && im.Filled() && 0 <= j < im.height && c <= Blocks(im.width)
  {
    before + RowCode(im, format, j, c)
  }

  /** One row of blocks. */
  method ConvertRow(im: Image, format: Format, j: int, compressed: array<Byte>, start: nat, ghost before: seq<Byte>)
    returns (index: nat)
    requires im.Proper() && im.Filled() && 0 <= j < im.height && Wrote(compressed[..], start, before)
    requires |RowAfter(im, format, j, Blocks(im.width), before)| <= compressed.Length
    modifies compressed
    ensures Wrote(compressed[..], index, RowAfter(im, format, j, Blocks(im.width), before))
  {
    hide BlockCode, im.Filled, im.Proper, RowAfter, RowCode, Blocks, Wrote;
    RowStarts(im, format, j, before);
    index := start;
    var i, c := 0, 0;
    while i < im.width
      invariant i == 4 * c && 0 <= c <= Blocks(im.width)
      invariant Wrote(compressed[..], index, RowAfter(im, format, j, c, before))
      decreases im.width - i
    {
      index := ConvertBlock(im, format, j, i, compressed, index, before, c);
      BlockAhead(im.width, c);
      i, c := i + 4, c + 1;
    }
    BlocksDone(im.width, c);
  }

  method ConvertBlock(im: Image, format: Format, j: int, i: int, compressed: array<Byte>, start: nat,
                      ghost before: seq<Byte>, ghost c: nat) returns (index: nat)
    requires im.Proper() && im.Filled() && 0 <= j < im.height && i == 4 * c < im.width && c <= Blocks(im.width)
    requires Wrote(compressed[..], start, RowAfter(im, format, j, c, before))
    requires |RowAfter(im, format, j, Blocks(im.width), before)| <= compressed.Length
    modifies compressed
    ensures c + 1 <= Blocks(im.width) && Wrote(compressed[..], index, RowAfter(im, format, j, c + 1, before))
  {
    hide BlockCode, im.Filled, im.Proper, RowAfter, RowCode, Blocks, Wrote;
    RowGoesOn(im, format, j, c, before);
    var code := EncodeBlock(im, format, j, i);
    index := PutCode(compressed, start, code, RowAfter(im, format, j, c, before));
  }

  lemma RowStarts(im: Image, format: Format, j: int, before: seq<Byte>)
    requires im.Proper() && im.Filled() && 0 <= j < im.height
    ensures 0 <= Blocks(im.width) && RowAfter(im, format, j, 0, before) == before
  {
  }

  lemma RowGoesOn(im: Image, format: Format, j: int, c: nat, before: seq<Byte>)
    requires im.Proper() && im.Filled() && 0 <= j < im.height && 4 * c < im.width
    ensures c + 1 <= Blocks(im.width)
    ensures var (row, code) := (RowAfter(im, format, j, c, before), BlockCode(im, format, j, 4 * c));
            && row + code == RowAfter(im, format, j, c + 1, before)
            && |row| + |code| <= |RowAfter(im, format, j, Blocks(im.width), before)|
  {
    hide im.Filled, im.Proper, BlockCode, RowCode, Blocks;
    BlockAhead(im.width, c);
    RowGrows(im, format, j, c + 1);
    RowCodeNext(im, format, j, c);
  }

  lemma BlockAhead(n: int, c: int)
    requires 0 <= c && 4 * c < n
    ensures c + 1 <= Blocks(n)
  {
  }

  lemma RowCodeNext(im: Image, format: Format, j: int, c: nat)
    requires im.Proper() && im.Filled() && 0 <= j < im.height && 4 * c < im.width && c + 1 <= Blocks(im.width)
    ensures RowCode(im, format, j, c + 1) == RowCode(im, format, j, c) + BlockCode(im, format, j, 4 * c)
  {
    hide im.Filled, BlockCode;
  }

  method EncodeBlock(im: Image, format: Format, j: int, i: int) returns (code: seq<Byte>)
    requires im.Proper() && im.Filled() && 0 <= j < im.height && 0 <= i < im.width
    ensures code == BlockCode(im, format, j, i)
  {
    match format {
      case Dxt1(color) =>
        var ublock := new Byte[48];
        FillBlock(im, false, j, i, ublock);
        code := color(ublock[..]);
      case Dxt5(color, flat) =>
        var ublock := new Byte[64];
        FillBlock(im, true, j, i, ublock);
        var cblock := new Byte[8];
        CompressAlphaBlock(ublock[..], flat, cblock);
        code := cblock[..] + color(ublock[..]);
    }
  }
}

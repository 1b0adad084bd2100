/**
 The normalised bitmap the image importer emits: a fixed 54-byte header, then rows bottom-up, pixels blue first,
 each row padded with zeros to a multiple of four bytes.
 */
module Bmp {
  import opened Bytes
  import Grid
  import opened Wrappers

  const MAX_WIDTH: nat := 4096
  const MAX_HEIGHT: nat := 4096
  const MAX_PIXEL_BYTES: nat := 32 * 1024 * 1024
  const HEADER_BYTES: nat := 54
  const ZEROS_4: seq<byte> := [0, 0, 0, 0]
  const ZEROS_16: seq<byte> := [0, 0, 0, 0, 0, 0, 0, 0, 0, 0, 0, 0, 0, 0, 0, 0]
  const SIGNATURE: seq<byte> := [0x42, 0x4D]

  datatype BmpError = Dimensions | PixelLimit | LengthMismatch

  function Stride(width: nat): nat { (width * 3 + 3) / 4 * 4 }

  predicate Sized(width: nat, height: nat) {
    0 < width <= MAX_WIDTH && 0 < height <= MAX_HEIGHT && width * height * 3 <= MAX_PIXEL_BYTES
  }

  function BmpLength(width: nat, height: nat): nat { HEADER_BYTES + Stride(width) * height }

  function NormalizedBmpLen(width: nat, height: nat): (r: Result<nat, BmpError>)
    ensures r.Ok? <==> Sized(width, height)
    ensures r.Ok? ==> r.value == BmpLength(width, height)
  {
    if width == 0 || height == 0 || width > MAX_WIDTH || height > MAX_HEIGHT then Err(Dimensions)
    else if width * height * 3 > MAX_PIXEL_BYTES then Err(PixelLimit)
    else Ok(HEADER_BYTES + (width * 3 + 3) / 4 * 4 * height)
  }

  /** Every admitted length fits the header's 32-bit fields. */
  lemma LengthFits(width: nat, height: nat)
    requires Sized(width, height)
    ensures HEADER_BYTES < BmpLength(width, height) < Range(4)
    ensures width < 0x8000_0000 && height < 0x8000_0000
  {
    Ranges();
    var row := width * 3 + 3;
    assert Stride(width) <= row;
    assert Stride(width) * height <= row * height == width * height * 3 + 3 * height;
    assert Stride(width) * height > 0;
  }

  // ----- header -----

  function Header(width: nat, height: nat, length: nat): (s: seq<byte>)
    requires length >= HEADER_BYTES
    ensures |s| == HEADER_BYTES
  {
    SIGNATURE + LittleEndian(length, 4) + ZEROS_4 + LittleEndian(54, 4) + LittleEndian(40, 4)
    + LittleEndian(width, 4) + LittleEndian(height, 4) + LittleEndian(1, 2) + LittleEndian(24, 2)
    + LittleEndian(0, 4) + LittleEndian(length - HEADER_BYTES, 4) + ZEROS_16
  }

  function Signed32(n: nat): int { if n < 0x8000_0000 then n else n - 0x1_0000_0000 }

  function U32(s: seq<byte>, at: nat): nat
    requires at + 4 <= |s|
  {
    FromLittleEndian(s[at..at + 4])
  }

  function U16(s: seq<byte>, at: nat): nat
    requires at + 2 <= |s|
  {
    FromLittleEndian(s[at..at + 2])
  }

  /** The receiver's check of a header against announced dimensions and length. */
  predicate HeaderValid(h: seq<byte>, width: nat, height: nat, length: nat)
    requires |h| == HEADER_BYTES <= length
  {
    && h[0..2] == SIGNATURE
    && U32(h, 2) == length
    && h[6..10] == ZEROS_4
    && U32(h, 10) == 54
    && U32(h, 14) == 40
    && Signed32(U32(h, 18)) == width
    && Signed32(U32(h, 22)) == height
    && U16(h, 26) == 1
    && U16(h, 28) == 24
    && U32(h, 30) == 0
    && U32(h, 34) == length - HEADER_BYTES
    && h[38..54] == ZEROS_16
  }

  lemma FieldExact(s: seq<byte>, n: nat)
    requires n < Range(|s|)
    ensures FromLittleEndian(s) == n <==> s == LittleEndian(n, |s|)
  {
    ReadsBack(n, |s|);
    WritesBack(s);
  }

  lemma Sliced(h: seq<byte>, width: nat, height: nat, length: nat)
    requires |h| == HEADER_BYTES <= length
    ensures h == Header(width, height, length) <==>
      && h[0..2] == SIGNATURE && h[2..6] == LittleEndian(length, 4) && h[6..10] == ZEROS_4
      && h[10..14] == LittleEndian(54, 4) && h[14..18] == LittleEndian(40, 4)
      && h[18..22] == LittleEndian(width, 4) && h[22..26] == LittleEndian(height, 4)
      && h[26..28] == LittleEndian(1, 2) && h[28..30] == LittleEndian(24, 2)
      && h[30..34] == LittleEndian(0, 4) && h[34..38] == LittleEndian(length - HEADER_BYTES, 4)
      && h[38..54] == ZEROS_16
  {
    hide LittleEndian;
    assert h == h[0..2] + h[2..6] + h[6..10] + h[10..14] + h[14..18] + h[18..22] + h[22..26] + h[26..28] + h[28..30]
      + h[30..34] + h[34..38] + h[38..54];
  }

  /** The receiver accepts exactly the header the writer emits for the same dimensions and length. */
  lemma HeaderExact(h: seq<byte>, width: nat, height: nat, length: nat)
    requires |h| == HEADER_BYTES <= length < Range(4) && width < 0x8000_0000 && height < 0x8000_0000
    ensures HeaderValid(h, width, height, length) <==> h == Header(width, height, length)
  {
    hide LittleEndian, FromLittleEndian, Header;
    Ranges();
    Sliced(h, width, height, length);
    FieldExact(h[2..6], length);
    FieldExact(h[10..14], 54);
    FieldExact(h[14..18], 40);
    FieldExact(h[18..22], width);
    FieldExact(h[22..26], height);
    FieldExact(h[26..28], 1);
    FieldExact(h[28..30], 24);
    FieldExact(h[30..34], 0);
    FieldExact(h[34..38], length - HEADER_BYTES);
    WritesBack(h[18..22]);
    WritesBack(h[22..26]);
  }

  /** The emitted header byte by byte. */
  lemma HeaderLayout(width: nat, height: nat, length: nat)
    requires length >= 54
    ensures var h := Header(width, height, length);
            && Spells(h, 0, "BM") && Holds(h, 2, 4, length) && Within(h, 6, [0, 0, 0, 0])
            && Holds(h, 10, 4, 54) && Holds(h, 14, 4, 40) && Holds(h, 18, 4, width) && Holds(h, 22, 4, height)
            && Holds(h, 26, 2, 1) && Holds(h, 28, 2, 24) && Holds(h, 30, 4, 0) && Holds(h, 34, 4, length - 54)
            && Within(h, 38, [0, 0, 0, 0, 0, 0, 0, 0, 0, 0, 0, 0, 0, 0, 0, 0])
  {
    hide Header, LittleEndian, Holds;
    var h := Header(width, height, length);
    Sliced(h, width, height, length);
    FieldHolds(h, 2, 4, length);
    FieldHolds(h, 10, 4, 54);
    FieldHolds(h, 14, 4, 40);
    FieldHolds(h, 18, 4, width);
    FieldHolds(h, 22, 4, height);
    FieldHolds(h, 26, 2, 1);
    FieldHolds(h, 28, 2, 24);
    FieldHolds(h, 30, 4, 0);
    FieldHolds(h, 34, 4, length - 54);
    assert h[0] == h[0..2][0] && h[1] == h[0..2][1];
  }

  // ----- pixels -----

  datatype Image = Image(width: nat, height: nat, rgb: seq<byte>) {
    predicate Valid() { |rgb| == width * 3 * height }

    lemma PixelInRange(x: nat, y: nat, c: nat)
      requires Valid() && x < width && y < height && c < 3
      ensures 0 <= (y * width + x) * 3 + c < |rgb|
    {
      Grid.InRange(y, x, width, height);
    }

    /** Channel `c` (0 red, 1 green, 2 blue) of a pixel. */
    function Pixel(x: nat, y: nat, c: nat): byte
      requires Valid() && x < width && y < height && c < 3
    {
      PixelInRange(x, y, c);
      rgb[(y * width + x) * 3 + c]
    }

    function RowByte(y: nat, k: nat): byte
      requires Valid() && y < height && k < Stride(width)
    {
      if k < width * 3 then Pixel(k / 3, y, 2 - k % 3) else 0
    }

    /** A stored row: reversed channels, then zero padding. */
    function Row(y: nat): (s: seq<byte>)
      requires Valid() && y < height
      ensures |s| == Stride(width)
    {
      seq(Stride(width), k requires 0 <= k < Stride(width) => RowByte(y, k))
    }

    /** Rows from the bottom up to row `top`. */
    function Rows(top: nat): (s: seq<byte>)
      requires Valid() && top <= height
      ensures |s| == (height - top) * Stride(width)
      decreases height - top
    {
      if top == height then []
      else
        assert (height - top - 1) * Stride(width) + Stride(width) == (height - top) * Stride(width);
        Rows(top + 1) + Row(top)
    }

    /** The normalised bitmap of the image. */
    function Bitmap(): seq<byte>
      requires Valid()
    {
      HeaderFits(width, height);
      Header(width, height, BmpLength(width, height)) + Rows(0)
    }

    lemma BitmapSize()
      requires Valid()
      ensures |Bitmap()| == BmpLength(width, height)
      ensures Bitmap()[..HEADER_BYTES] == Header(width, height, BmpLength(width, height))
      ensures Bitmap()[HEADER_BYTES..] == Rows(0)
    {
      hide Header, Rows, Stride;
      assert (height - 0) * Stride(width) == Stride(width) * height;
    }
  }

  lemma HeaderFits(width: nat, height: nat)
    ensures BmpLength(width, height) >= HEADER_BYTES
  {
    assert Stride(width) * height >= 0;
  }

  lemma {:induction false} RowsAt(img: Image, top: nat, y: nat, k: nat)
    requires img.Valid() && top <= y < img.height && k < Stride(img.width)
    ensures 0 <= (img.height - 1 - y) * Stride(img.width) + k < |img.Rows(top)|
    ensures img.Rows(top)[(img.height - 1 - y) * Stride(img.width) + k] == img.RowByte(y, k)
    decreases img.height - top
  {
    var stride := Stride(img.width);
    Grid.InRange(img.height - 1 - y, k, stride, img.height - top);
    if top == y {
      assert |img.Rows(top + 1)| == (img.height - 1 - y) * stride;
    } else {
      RowsAt(img, top + 1, y, k);
    }
  }

  function PixelOffset(width: nat, height: nat, x: nat, y: nat, c: nat): int {
    HEADER_BYTES + (height - 1 - y) * Stride(width) + x * 3 + 2 - c
  }

  /** Where each channel of each pixel is stored. */
  lemma PixelAt(img: Image, x: nat, y: nat, c: nat)
    requires img.Valid() && x < img.width && y < img.height && c < 3
    ensures 0 <= PixelOffset(img.width, img.height, x, y, c) < |img.Bitmap()|
    ensures img.Bitmap()[PixelOffset(img.width, img.height, x, y, c)] == img.Pixel(x, y, c)
  {
    var k := x * 3 + 2 - c;
    assert k / 3 == x && k % 3 == 2 - c && k < img.width * 3 <= Stride(img.width);
    img.BitmapSize();
    RowsAt(img, 0, y, k);
    assert PixelOffset(img.width, img.height, x, y, c) == HEADER_BYTES + ((img.height - 1 - y) * Stride(img.width) + k);
  }

  /** The same on the bytes themselves: rows bottom-up, each as long as the next multiple of four, blue before green
      before red. */
  lemma PixelPlace(img: Image, x: nat, y: nat, c: nat) returns (row: nat)
    requires img.Valid() && x < img.width && y < img.height && c < 3
    ensures row % 4 == 0 && img.width * 3 <= row < img.width * 3 + 4
    ensures 0 <= 54 + (img.height - 1 - y) * row + x * 3 + 2 - c < |img.Bitmap()|
    ensures 0 <= (y * img.width + x) * 3 + c < |img.rgb|
    ensures img.Bitmap()[54 + (img.height - 1 - y) * row + x * 3 + 2 - c] == img.rgb[(y * img.width + x) * 3 + c]
  {
    hide Image.Bitmap, Image.Valid;
    PixelAt(img, x, y, c);
    img.PixelInRange(x, y, c);
    row := Stride(img.width);
  }

  // ----- unpacking -----

  lemma OffsetInRange(width: nat, height: nat, x: nat, y: nat, c: nat)
    requires x < width && y < height && c < 3
    ensures HEADER_BYTES <= PixelOffset(width, height, x, y, c) < BmpLength(width, height)
  {
    Grid.InRange(height - 1 - y, x * 3 + 2 - c, Stride(width), height);
  }

  function UnpackByte(bmp: seq<byte>, width: nat, height: nat, y: nat, j: nat): byte
    requires |bmp| == BmpLength(width, height) && y < height && j < width * 3
  {
    OffsetInRange(width, height, j / 3, y, j % 3);
    bmp[PixelOffset(width, height, j / 3, y, j % 3)]
  }

  function UnpackRow(bmp: seq<byte>, width: nat, height: nat, y: nat): (s: seq<byte>)
    requires |bmp| == BmpLength(width, height) && y < height
    ensures |s| == width * 3
  {
    seq(width * 3, j requires 0 <= j < width * 3 => UnpackByte(bmp, width, height, y, j))
  }

  /** The first `n` rows of a bitmap, top-down, as RGB. */
  function UnpackRows(bmp: seq<byte>, width: nat, height: nat, n: nat): (rgb: seq<byte>)
    requires |bmp| == BmpLength(width, height) && n <= height
    ensures |rgb| == width * 3 * n
  {
    if n == 0 then []
    else
      assert width * 3 * (n - 1) + width * 3 == width * 3 * n;
      UnpackRows(bmp, width, height, n - 1) + UnpackRow(bmp, width, height, n - 1)
  }

  function Unpack(bmp: seq<byte>, width: nat, height: nat): (rgb: seq<byte>)
    requires |bmp| == BmpLength(width, height)
    ensures |rgb| == width * 3 * height
  {
    UnpackRows(bmp, width, height, height)
  }

  lemma {:induction false} UnpackAt(bmp: seq<byte>, width: nat, height: nat, n: nat, y: nat, j: nat)
    requires |bmp| == BmpLength(width, height) && y < n <= height && j < width * 3
    ensures 0 <= y * (width * 3) + j < width * 3 * n
    ensures UnpackRows(bmp, width, height, n)[y * (width * 3) + j] == UnpackByte(bmp, width, height, y, j)
  {
    hide BmpLength, UnpackByte;
    Grid.InRange(y, j, width * 3, n);
    if y < n - 1 {
      UnpackAt(bmp, width, height, n - 1, y, j);
    } else {
      assert |UnpackRows(bmp, width, height, n - 1)| == y * (width * 3);
    }
  }

  lemma ByteRecovers(img: Image, y: nat, j: nat)
    requires img.Valid() && y < img.height && j < img.width * 3 && |img.Bitmap()| == BmpLength(img.width, img.height)
    ensures 0 <= y * (img.width * 3) + j < |img.rgb|
    ensures UnpackByte(img.Bitmap(), img.width, img.height, y, j) == img.rgb[y * (img.width * 3) + j]
  {
    hide Image.Bitmap, PixelOffset, BmpLength;
    Grid.InRange(y, j, img.width * 3, img.height);
    PixelAt(img, j / 3, y, j % 3);
    assert (y * img.width + j / 3) * 3 + j % 3 == y * (img.width * 3) + j;
  }

  lemma RowRecovers(img: Image, y: nat)
    requires img.Valid() && y < img.height && |img.Bitmap()| == BmpLength(img.width, img.height)
    ensures 0 <= y * (img.width * 3) <= y * (img.width * 3) + img.width * 3 <= |img.rgb|
    ensures UnpackRow(img.Bitmap(), img.width, img.height, y)
         == img.rgb[y * (img.width * 3)..y * (img.width * 3) + img.width * 3]
  {
    hide Image.Bitmap, UnpackByte, BmpLength;
    assert y * (img.width * 3) + img.width * 3 == (y + 1) * (img.width * 3) <= img.height * (img.width * 3);
    forall j | 0 <= j < img.width * 3
      ensures UnpackByte(img.Bitmap(), img.width, img.height, y, j) == img.rgb[y * (img.width * 3) + j]
    {
      ByteRecovers(img, y, j);
    }
  }

  lemma Joins(s: seq<byte>, a: nat, b: nat)
    requires a <= b <= |s|
    ensures s[..a] + s[a..b] == s[..b]
  {}

  lemma {:induction false} RowsRecover(img: Image, n: nat)
    requires img.Valid() && n <= img.height && |img.Bitmap()| == BmpLength(img.width, img.height)
    ensures 0 <= img.width * 3 * n <= |img.rgb|
    ensures UnpackRows(img.Bitmap(), img.width, img.height, n) == img.rgb[..img.width * 3 * n]
  {
    hide Image.Bitmap, UnpackRow, BmpLength;
    if n > 0 {
      var row := img.width * 3;
      RowsRecover(img, n - 1);
      RowRecovers(img, n - 1);
      assert row * n == (n - 1) * row + row && row * (n - 1) == (n - 1) * row;
      Joins(img.rgb, (n - 1) * row, row * n);
    }
  }

  /** Unpacking the bitmap of an image gives back its pixels. */
  lemma UnpackRecovers(img: Image)
    requires img.Valid()
    ensures |img.Bitmap()| == BmpLength(img.width, img.height)
    ensures Unpack(img.Bitmap(), img.width, img.height) == img.rgb
  {
    hide Image.Bitmap, BmpLength;
    img.BitmapSize();
    RowsRecover(img, img.height);
  }

  /** A bitmap the writer could have emitted: right length, right header, zero padding. */
  ghost predicate Normalized(bmp: seq<byte>, width: nat, height: nat) {
    && |bmp| == BmpLength(width, height) >= HEADER_BYTES
    && bmp[..HEADER_BYTES] == Header(width, height, BmpLength(width, height))
    && forall y: nat, k: nat :: y < height && width * 3 <= k < Stride(width) ==>
        StoredByte(bmp, width, height, y, k) == 0
  }

  function StoredByte(bmp: seq<byte>, width: nat, height: nat, y: nat, k: nat): byte
    requires |bmp| == BmpLength(width, height) && y < height && k < Stride(width)
  {
    Grid.InRange(height - 1 - y, k, Stride(width), height);
    bmp[HEADER_BYTES + ((height - 1 - y) * Stride(width) + k)]
  }

  lemma Stored(bmp: seq<byte>, width: nat, height: nat, i: nat) returns (y: nat, k: nat)
    requires |bmp| == BmpLength(width, height) && HEADER_BYTES + i < |bmp|
    ensures y < height && k < Stride(width) && i == (height - 1 - y) * Stride(width) + k
    ensures bmp[HEADER_BYTES + i] == StoredByte(bmp, width, height, y, k)
  {
    hide Stride;
    Grid.Coordinates(i, Stride(width), height);
    y, k := height - 1 - i / Stride(width), i % Stride(width);
  }

  lemma PixelStored(bmp: seq<byte>, img: Image, y: nat, k: nat)
    requires img.Valid() && |bmp| == BmpLength(img.width, img.height)
    requires img.rgb == Unpack(bmp, img.width, img.height) && y < img.height && k < img.width * 3 <= Stride(img.width)
    ensures StoredByte(bmp, img.width, img.height, y, k) == img.RowByte(y, k)
  {
    hide BmpLength, Stride, UnpackRows;
    var x, c := k / 3, 2 - k % 3;
    var j := x * 3 + c;
    assert j / 3 == x && j % 3 == c;
    UnpackAt(bmp, img.width, img.height, img.height, y, j);
    img.PixelInRange(x, y, c);
    assert (y * img.width + x) * 3 + c == y * (img.width * 3) + j;
  }

  /** Padding that is zero and pixels that were unpacked are the bytes the writer would store. */
  lemma StoredAgree(bmp: seq<byte>, img: Image, y: nat, k: nat)
    requires img.Valid() && Normalized(bmp, img.width, img.height)
    requires img.rgb == Unpack(bmp, img.width, img.height) && y < img.height && k < Stride(img.width)
    ensures StoredByte(bmp, img.width, img.height, y, k) == img.RowByte(y, k)
  {
    hide Header, Unpack, BmpLength;
    if k < img.width * 3 {
      PixelStored(bmp, img, y, k);
    } else {
      assert StoredByte(bmp, img.width, img.height, y, k) == 0;
    }
  }

  lemma BitmapStores(img: Image, y: nat, k: nat)
    requires img.Valid() && |img.Bitmap()| == BmpLength(img.width, img.height) && y < img.height
    requires k < Stride(img.width)
    ensures StoredByte(img.Bitmap(), img.width, img.height, y, k) == img.RowByte(y, k)
  {
    hide Image.Bitmap, Stride, Image.RowByte;
    img.BitmapSize();
    RowsAt(img, 0, y, k);
    Grid.InRange(img.height - 1 - y, k, Stride(img.width), img.height);
    assert img.Bitmap()[HEADER_BYTES..][(img.height - 1 - y) * Stride(img.width) + k] == img.RowByte(y, k);
  }

  /** The writer's bitmaps are exactly the normalised ones, and each determines its pixels. */
  lemma NormalizedIsBitmap(bmp: seq<byte>, width: nat, height: nat)
    requires |bmp| == BmpLength(width, height)
    ensures Normalized(bmp, width, height) <==> bmp == Image(width, height, Unpack(bmp, width, height)).Bitmap()
  {
    hide Header, Unpack, StoredByte, Image.Bitmap, Image.Rows, Stride, BmpLength;
    var img := Image(width, height, Unpack(bmp, width, height));
    var bitmap := img.Bitmap();
    img.BitmapSize();
    HeaderFits(width, height);
    if Normalized(bmp, width, height) {
      forall i | 0 <= i < |bmp| ensures bmp[i] == bitmap[i] {
        if i < HEADER_BYTES {
          assert bmp[i] == bmp[..HEADER_BYTES][i] && bitmap[i] == bitmap[..HEADER_BYTES][i];
        } else {
          SameStored(bmp, img, i);
        }
      }
    } else if bmp == bitmap {
      BitmapIsNormalized(img);
      assert false;
    }
  }

  lemma SameStored(bmp: seq<byte>, img: Image, i: nat)
    requires img.Valid() && Normalized(bmp, img.width, img.height) && img.rgb == Unpack(bmp, img.width, img.height)
    requires |img.Bitmap()| == |bmp| && HEADER_BYTES <= i < |bmp|
    ensures bmp[i] == img.Bitmap()[i]
  {
    hide Unpack, StoredByte, Image.Bitmap, Image.RowByte, Stride, Header;
    var y, k := Stored(bmp, img.width, img.height, i - HEADER_BYTES);
    var y', k' := Stored(img.Bitmap(), img.width, img.height, i - HEADER_BYTES);
    Grid.Injective(img.height - 1 - y, k, img.height - 1 - y', k', Stride(img.width));
    StoredAgree(bmp, img, y, k);
    BitmapStores(img, y, k);
  }

  lemma BitmapIsNormalized(img: Image)
    requires img.Valid()
    ensures Normalized(img.Bitmap(), img.width, img.height)
  {
    hide Header, StoredByte, Image.Bitmap, Image.Rows, BmpLength;
    img.BitmapSize();
    HeaderFits(img.width, img.height);
    forall y: nat, k: nat | y < img.height && img.width * 3 <= k < Stride(img.width)
      ensures StoredByte(img.Bitmap(), img.width, img.height, y, k) == 0
    {
      BitmapStores(img, y, k);
    }
  }

  // ----- writing -----

  /** The buffer starts with `done` and is zero after it. */
  ghost predicate Filled(buffer: array<byte>, done: seq<byte>)
    reads buffer
  {
    && |done| <= buffer.Length && buffer[..|done|] == done
    && forall i :: |done| <= i < buffer.Length ==> buffer[i] == 0
  }

  method PutField(buffer: array<byte>, at: nat, bytes: seq<byte>, ghost done: seq<byte>)
    requires Filled(buffer, done) && |done| == at && at + |bytes| <= buffer.Length
    modifies buffer
    ensures Filled(buffer, done + bytes)
  {
    for i := 0 to |bytes|
      invariant forall k :: 0 <= k < buffer.Length ==>
        buffer[k] == if at <= k < at + i then bytes[k - at] else old(buffer[k])
    {
      buffer[at + i] := bytes[i];
    }
    forall k | 0 <= k < at ensures buffer[k] == done[k] {
      assert old(buffer[..at])[k] == done[k];
    }
  }

  lemma ZerosFollow(buffer: array<byte>, done: seq<byte>, zeros: seq<byte>)
    requires Filled(buffer, done) && |done| + |zeros| <= buffer.Length
    requires forall i :: 0 <= i < |zeros| ==> zeros[i] == 0
    ensures Filled(buffer, done + zeros)
  {}

  lemma FilledWholly(buffer: array<byte>, done: seq<byte>)
    requires Filled(buffer, done) && |done| == buffer.Length
    ensures buffer[..] == done
  {}

  method WriteHeader(width: nat, height: nat, length: nat) returns (s: seq<byte>)
    requires length >= HEADER_BYTES
    ensures s == Header(width, height, length)
  {
    var header := new byte[54](_ => 0);
    assert Filled(header, []);
    hide LittleEndian, Filled;
    assert [] + SIGNATURE == SIGNATURE;
    PutField(header, 0, SIGNATURE, []);
    ghost var h1 := SIGNATURE + LittleEndian(length, 4);
    PutField(header, 2, LittleEndian(length, 4), SIGNATURE);
    ZerosFollow(header, h1, ZEROS_4);
    ghost var h2 := h1 + ZEROS_4 + LittleEndian(54, 4);
    PutField(header, 10, LittleEndian(54, 4), h1 + ZEROS_4);
    ghost var h3 := h2 + LittleEndian(40, 4);
    PutField(header, 14, LittleEndian(40, 4), h2);
    ghost var h4 := h3 + LittleEndian(width, 4);
    PutField(header, 18, LittleEndian(width, 4), h3);
    ghost var h5 := h4 + LittleEndian(height, 4);
    PutField(header, 22, LittleEndian(height, 4), h4);
    ghost var h6 := h5 + LittleEndian(1, 2);
    PutField(header, 26, LittleEndian(1, 2), h5);
    ghost var h7 := h6 + LittleEndian(24, 2);
    PutField(header, 28, LittleEndian(24, 2), h6);
    ZeroField();
    ZerosFollow(header, h7, LittleEndian(0, 4));
    ghost var h8 := h7 + LittleEndian(0, 4) + LittleEndian(length - HEADER_BYTES, 4);
    PutField(header, 34, LittleEndian(length - HEADER_BYTES, 4), h7 + LittleEndian(0, 4));
    ZerosFollow(header, h8, ZEROS_16);
    FilledWholly(header, h8 + ZEROS_16);
    s := header[..];
  }

  lemma ZeroField()
    ensures LittleEndian(0, 4) == ZEROS_4
  {
    assert LittleEndian(0, 1) == [0];
    assert LittleEndian(0, 2) == [0] + LittleEndian(0, 1);
    assert LittleEndian(0, 3) == [0] + LittleEndian(0, 2);
    assert LittleEndian(0, 4) == [0] + LittleEndian(0, 3);
  }

  lemma RowPrefix(img: Image, x: nat, y: nat)
    requires img.Valid() && x < img.width && y < img.height
    ensures x * 3 + 3 <= Stride(img.width)
    ensures img.Row(y)[..x * 3 + 3] == img.Row(y)[..x * 3]
      + [img.Pixel(x, y, 2), img.Pixel(x, y, 1), img.Pixel(x, y, 0)]
  {
    assert (x * 3 + 1) / 3 == x && (x * 3 + 2) / 3 == x;
  }

  lemma RowTail(img: Image, y: nat)
    requires img.Valid() && y < img.height
    ensures img.width * 3 <= Stride(img.width) <= img.width * 3 + 3
    ensures img.Row(y) == img.Row(y)[..img.width * 3] + ZEROS_4[..Stride(img.width) - img.width * 3]
  {}

  /** One stored row appended to the output. */
  method WriteRow(img: Image, y: nat, output: seq<byte>) returns (out: seq<byte>)
    requires img.Valid() && y < img.height
    ensures out == output + img.Row(y)
  {
    hide Image.Row, Stride;
    var rowBytes := img.width * 3;
    var written: seq<byte> := [];
    RowTail(img, y);
    for x := 0 to img.width
      invariant written == img.Row(y)[..x * 3]
    {
      img.PixelInRange(x, y, 0);
      img.PixelInRange(x, y, 2);
      var start := y * rowBytes + x * 3;
      assert start == (y * img.width + x) * 3;
      RowPrefix(img, x, y);
      written := written + [img.rgb[start + 2], img.rgb[start + 1], img.rgb[start]];
    }
    written := written + ZEROS_4[..Stride(img.width) - rowBytes];
    out := output + written;
  }

  /** Succeeds exactly for admitted dimensions and a matching pixel count, and then emits the image's bitmap. */
  method WriteNormalizedBmp(rgb: seq<byte>, width: nat, height: nat) returns (r: Result<seq<byte>, BmpError>)
    ensures r.Ok? <==> Sized(width, height) && |rgb| == width * 3 * height
    ensures r.Ok? ==> r.value == Image(width, height, rgb).Bitmap()
  {
    hide Header, Image.Row, Stride, Sized;
    var length :- NormalizedBmpLen(width, height);
    if |rgb| != width * 3 * height { return Err(LengthMismatch); }
    var img := Image(width, height, rgb);
    HeaderFits(width, height);
    var header := WriteHeader(width, height, length);
    var out := header;
    for row := height downto 0
      invariant out == header + img.Rows(row)
    {
      out := WriteRow(img, row, out);
    }
    return Ok(out);
  }
}

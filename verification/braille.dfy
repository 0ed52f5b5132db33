/**
 * The result view: a thresholded RGBA image read back as lines of Unicode
 * Braille-pattern characters (U+2800..U+28FF), one character for each block
 * of 2 pixels by 4 pixels.
 */
module Braille {

  newtype byte = b: int | 0 <= b < 256

  /**
   * The scaled, thresholded image: `data` holds 4 bytes (red, green, blue,
   * alpha) per pixel, row by row.
   */
  datatype Image = Image(width: nat, height: nat, data: seq<byte>)

  /** The data length matches the declared dimensions. */
  predicate WellFormed(img: Image) {
    |img.data| == img.width * img.height * 4
  }

  /** Where the red byte of pixel (x, y) sits in `data`. */
  function PixelIndex(width: nat, x: nat, y: nat): nat {
    y * (width * 4) + x * 4
  }

  /**
   * The dot value of pixel (x, y): 1 (ink) when its red byte is 0, else 0.
   * A read past the end of `data` yields no byte at all, which the program
   * treats like 0, so it is ink as well.
   */
  function At(img: Image, x: nat, y: nat): (ink: int)
    ensures ink == 0 || ink == 1
  {
    var index := PixelIndex(img.width, x, y);
    if index < |img.data| && img.data[index] != 0 then 0 else 1
  }

  /** Inside a well-formed image, `At` is 1 exactly when the red byte is 0. */
  lemma AtReadsRed(img: Image, x: nat, y: nat)
    requires WellFormed(img) && x < img.width && y < img.height
    ensures PixelIndex(img.width, x, y) < |img.data|
    ensures At(img, x, y) == 1 <==> img.data[PixelIndex(img.width, x, y)] == 0
  {
    var w, h := img.width, img.height;
    assert y * (w * 4) <= (h - 1) * (w * 4) by {
      MulMonotone(y, h - 1, w * 4);
    }
    assert (h - 1) * (w * 4) + x * 4 < h * (w * 4);
    assert h * (w * 4) == w * h * 4;
  }

  lemma MulMonotone(a: nat, b: nat, c: nat)
    requires a <= b
    ensures a * c <= b * c
  {
  }

  /** Images that agree on width, height, data length and every red byte. */
  predicate SameRedChannel(a: Image, b: Image) {
    a.width == b.width && a.height == b.height && |a.data| == |b.data| &&
    forall p :: 0 <= p < |a.data| && p % 4 == 0 ==> a.data[p] == b.data[p]
  }

  /** `At` reads the red byte only: green, blue and alpha make no difference. */
  lemma AtIgnoresGreenBlueAlpha(a: Image, b: Image, x: nat, y: nat)
    requires SameRedChannel(a, b)
    ensures At(a, x, y) == At(b, x, y)
  {
    RedIndexIsMultipleOfFour(a.width, x, y);
  }

  /** Every index `At` reads is that of a red byte. */
  lemma RedIndexIsMultipleOfFour(width: nat, x: nat, y: nat)
    ensures PixelIndex(width, x, y) % 4 == 0
  {
    assert PixelIndex(width, x, y) == 4 * (y * width + x);
  }

  /**
   * Pixel positions are not checked against the width: x == width lands on
   * the red byte of pixel (0, y + 1). With an odd width the right-hand dots
   * of the last cell of a line therefore read the first column of the
   * following row, and only past the last row do they fall off the data.
   */
  lemma AtWrapsToNextRow(img: Image, y: nat)
    ensures At(img, img.width, y) == At(img, 0, y + 1)
  {
    assert PixelIndex(img.width, img.width, y) == PixelIndex(img.width, 0, y + 1);
  }

  /** Column offset (0 or 1) of the dot with weight 2^k inside a cell. */
  const DotColumn: seq<nat> := [0, 0, 0, 1, 1, 1, 0, 1]
  /** Row offset (0..3) of the dot with weight 2^k inside a cell. */
  const DotRow: seq<nat> := [0, 1, 2, 0, 1, 2, 3, 3]

  /**
   * The code point of the cell whose top-left pixel is (i, j): U+2800 plus
   * the weights 1, 2, 4 (left column, rows 0..2), 8, 16, 32 (right column,
   * rows 0..2), 64 and 128 (row 3, left then right) of its ink pixels.
   */
  function CodeAt(img: Image, i: nat, j: nat): (code: int)
    ensures 0x2800 <= code <= 0x28FF
  {
    At(img, i, j) * 1 +
    At(img, i, j + 1) * 2 +
    At(img, i, j + 2) * 4 +
    At(img, i + 1, j) * 8 +
    At(img, i + 1, j + 1) * 16 +
    At(img, i + 1, j + 2) * 32 +
    At(img, i, j + 3) * 64 +
    At(img, i + 1, j + 3) * 128 +
    0x2800
  }

  /** The Braille character of the cell whose top-left pixel is (i, j). */
  function SymbolAt(img: Image, i: nat, j: nat): (symbol: char)
    ensures 0x2800 <= symbol as int <= 0x28FF
  {
    CodeAt(img, i, j) as char
  }

  /** The eight dot values of a cell, in bit order (bit k has weight 2^k). */
  function Block(img: Image, i: nat, j: nat): (dots: seq<int>)
    ensures |dots| == 8 && IsBits(dots)
  {
    seq(8, k requires 0 <= k < 8 => At(img, i + DotColumn[k], j + DotRow[k]))
  }

  predicate IsBits(s: seq<int>) {
    forall k :: 0 <= k < |s| ==> s[k] == 0 || s[k] == 1
  }

  function Pow2(k: nat): (p: nat)
    ensures p >= 1
  {
    if k == 0 then 1 else 2 * Pow2(k - 1)
  }

  /** Bit k of n, counting from the least significant bit. */
  function Bit(n: nat, k: nat): (b: int)
    ensures b == 0 || b == 1
  {
    if k == 0 then n % 2 else Bit(n / 2, k - 1)
  }

  /** The number whose binary digits, least significant first, are `bits`. */
  function Pack(bits: seq<int>): (n: nat)
    requires IsBits(bits)
    ensures n < Pow2(|bits|)
  {
    if bits == [] then 0 else bits[0] + 2 * Pack(bits[1..])
  }

  /** The lowest `k` binary digits of n, least significant first. */
  function Unpack(n: nat, k: nat): (bits: seq<int>)
    ensures |bits| == k && IsBits(bits)
  {
    if k == 0 then [] else [n % 2] + Unpack(n / 2, k - 1)
  }

  lemma {:induction false} UnpackPack(bits: seq<int>)
    requires IsBits(bits)
    ensures Unpack(Pack(bits), |bits|) == bits
  {
    if bits != [] {
      var rest := bits[1..];
      assert IsBits(rest);
      UnpackPack(rest);
      var n := Pack(bits);
      assert n % 2 == bits[0] && n / 2 == Pack(rest);
      assert bits == [bits[0]] + rest;
    }
  }

  lemma {:induction false} PackUnpack(n: nat, k: nat)
    requires n < Pow2(k)
    ensures Pack(Unpack(n, k)) == n
  {
    if k > 0 {
      PackUnpack(n / 2, k - 1);
      assert Unpack(n, k)[1..] == Unpack(n / 2, k - 1);
    }
  }

  lemma {:induction false} UnpackAt(n: nat, m: nat, k: nat)
    requires k < m
    ensures Unpack(n, m)[k] == Bit(n, k)
  {
    if k > 0 {
      UnpackAt(n / 2, m - 1, k - 1);
    }
  }

  /** Pack on eight bits is the weighted sum with weights 1, 2, 4, ..., 128. */
  lemma {:induction false} PackEight(s: seq<int>)
    requires |s| == 8 && IsBits(s)
    ensures Pack(s) == s[0] + 2 * s[1] + 4 * s[2] + 8 * s[3] + 16 * s[4] + 32 * s[5] + 64 * s[6] + 128 * s[7]
  {
    assert s[7..][1..] == [];
    assert Pack(s[7..]) == s[7];
    assert s[6..][1..] == s[7..];
    assert Pack(s[6..]) == s[6] + 2 * Pack(s[7..]);
    assert s[5..][1..] == s[6..];
    assert Pack(s[5..]) == s[5] + 2 * Pack(s[6..]);
    assert s[4..][1..] == s[5..];
    assert Pack(s[4..]) == s[4] + 2 * Pack(s[5..]);
    assert s[3..][1..] == s[4..];
    assert Pack(s[3..]) == s[3] + 2 * Pack(s[4..]);
    assert s[2..][1..] == s[3..];
    assert Pack(s[2..]) == s[2] + 2 * Pack(s[3..]);
    assert s[1..][1..] == s[2..];
    assert Pack(s[1..]) == s[1] + 2 * Pack(s[2..]);
  }

  /** The code point is U+2800 plus the cell's dots read as a binary number. */
  lemma CodeAtPacksBlock(img: Image, i: nat, j: nat)
    ensures CodeAt(img, i, j) == 0x2800 + Pack(Block(img, i, j))
  {
    PackEight(Block(img, i, j));
  }

  /** Decoding: the cell's dots are recovered from its code point. */
  lemma DecodeGlyph(img: Image, i: nat, j: nat)
    ensures Unpack(CodeAt(img, i, j) - 0x2800, 8) == Block(img, i, j)
  {
    CodeAtPacksBlock(img, i, j);
    UnpackPack(Block(img, i, j));
  }

  /**
   * Bit k of the code point's offset from U+2800 is the dot at the k-th fixed
   * position of the cell.
   */
  lemma {:induction false} DotBit(img: Image, i: nat, j: nat, k: nat)
    requires k < 8
    ensures Bit(CodeAt(img, i, j) - 0x2800, k) == At(img, i + DotColumn[k], j + DotRow[k])
  {
    CodeAtPacksBlock(img, i, j);
    BitOfPack(Block(img, i, j), k);
    BlockAt(img, i, j, k);
  }

  lemma BlockAt(img: Image, i: nat, j: nat, k: nat)
    requires k < 8
    ensures Block(img, i, j)[k] == At(img, i + DotColumn[k], j + DotRow[k])
  {
  }

  lemma {:induction false} BitOfPack(bits: seq<int>, k: nat)
    requires IsBits(bits) && k < |bits|
    ensures Bit(Pack(bits), k) == bits[k]
  {
    UnpackPack(bits);
    UnpackAt(Pack(bits), |bits|, k);
  }

  /** Two cells get the same character exactly when their dots agree. */
  lemma GlyphInjective(a: Image, i: nat, j: nat, b: Image, k: nat, l: nat)
    ensures SymbolAt(a, i, j) == SymbolAt(b, k, l) <==> Block(a, i, j) == Block(b, k, l)
  {
    assert SymbolAt(a, i, j) == SymbolAt(b, k, l) <==> CodeAt(a, i, j) == CodeAt(b, k, l);
    CodeAtPacksBlock(a, i, j);
    CodeAtPacksBlock(b, k, l);
    PackInjective(Block(a, i, j), Block(b, k, l));
  }

  /** Every one of the 256 patterns is the character of some dot combination. */
  lemma EveryGlyphReachable(code: int)
    requires 0x2800 <= code <= 0x28FF
    ensures var dots := Unpack(code - 0x2800, 8); IsBits(dots) && 0x2800 + Pack(dots) == code
  {
    PackUnpack(code - 0x2800, 8);
  }

  /** Different bit sequences of one length pack to different numbers. */
  lemma {:induction false} PackInjective(a: seq<int>, b: seq<int>)
    requires IsBits(a) && IsBits(b) && |a| == |b|
    ensures Pack(a) == Pack(b) <==> a == b
  {
    UnpackPack(a);
    UnpackPack(b);
  }

  /** A cell has the character of a dot combination exactly when it has those dots. */
  lemma {:induction false} GlyphOfDots(img: Image, i: nat, j: nat, dots: seq<int>)
    requires |dots| == 8 && IsBits(dots)
    ensures CodeAt(img, i, j) == 0x2800 + Pack(dots) <==> Block(img, i, j) == dots
  {
    CodeAtPacksBlock(img, i, j);
    PackInjective(Block(img, i, j), dots);
  }

  /** Only the top-left dot gives U+2801, and nothing else does. */
  lemma TopLeftDotGlyph(img: Image, i: nat, j: nat)
    ensures CodeAt(img, i, j) == 0x2801 <==> Block(img, i, j) == [1, 0, 0, 0, 0, 0, 0, 0]
  {
    PackOfLiteral([1, 0, 0, 0, 0, 0, 0, 0], 0x01);
    GlyphOfDots(img, i, j, [1, 0, 0, 0, 0, 0, 0, 0]);
  }

  /** Only the bottom-right dot gives U+2880, and nothing else does. */
  lemma BottomRightDotGlyph(img: Image, i: nat, j: nat)
    ensures CodeAt(img, i, j) == 0x2880 <==> Block(img, i, j) == [0, 0, 0, 0, 0, 0, 0, 1]
  {
    PackOfLiteral([0, 0, 0, 0, 0, 0, 0, 1], 0x80);
    GlyphOfDots(img, i, j, [0, 0, 0, 0, 0, 0, 0, 1]);
  }

  /** All eight dots give U+28FF, and nothing else does. */
  lemma FullCellGlyph(img: Image, i: nat, j: nat)
    ensures CodeAt(img, i, j) == 0x28FF <==> Block(img, i, j) == [1, 1, 1, 1, 1, 1, 1, 1]
  {
    PackOfLiteral([1, 1, 1, 1, 1, 1, 1, 1], 0xFF);
    GlyphOfDots(img, i, j, [1, 1, 1, 1, 1, 1, 1, 1]);
  }

  /** No dot gives the blank pattern U+2800, and nothing else does. */
  lemma EmptyCellGlyph(img: Image, i: nat, j: nat)
    ensures CodeAt(img, i, j) == 0x2800 <==> Block(img, i, j) == [0, 0, 0, 0, 0, 0, 0, 0]
  {
    PackOfLiteral([0, 0, 0, 0, 0, 0, 0, 0], 0x00);
    GlyphOfDots(img, i, j, [0, 0, 0, 0, 0, 0, 0, 0]);
  }

  lemma {:induction false} PackOfLiteral(s: seq<int>, n: nat)
    requires |s| == 8 && IsBits(s)
    requires s[0] + 2 * s[1] + 4 * s[2] + 8 * s[3] + 16 * s[4] + 32 * s[5] + 64 * s[6] + 128 * s[7] == n
    ensures Pack(s) == n
  {
    PackEight(s);
  }

  /** The line of characters for the cells whose top row is y. */
  function Line(img: Image, y: nat): string {
    seq((img.width + 1) / 2, c requires 0 <= c < (img.width + 1) / 2 => SymbolAt(img, 2 * c, y))
  }

  /** All lines, for the cell rows starting at y = 0, 4, 8, ... */
  function Grid(img: Image): seq<string> {
    seq((img.height + 3) / 4, r requires 0 <= r < (img.height + 3) / 4 => Line(img, 4 * r))
  }

  /** Lines are determined by their characters. */
  lemma LineFromCharacters(img: Image, y: nat, line: string)
    requires |line| == (img.width + 1) / 2
    requires forall c :: 0 <= c < |line| ==> line[c] == SymbolAt(img, 2 * c, y)
    ensures line == Line(img, y)
  {
  }

  /** The specification is determined by its lines. */
  lemma GridFromLines(img: Image, rows: seq<string>)
    requires |rows| == (img.height + 3) / 4
    requires forall r :: 0 <= r < |rows| ==> rows[r] == Line(img, 4 * r)
    ensures rows == Grid(img)
  {
  }

  /** ceil(height / 4) lines of ceil(width / 2) characters, in row-major order. */
  lemma GridShape(img: Image)
    ensures |Grid(img)| == (img.height + 3) / 4
    ensures forall r :: 0 <= r < |Grid(img)| ==> |Grid(img)[r]| == (img.width + 1) / 2
    ensures forall r, c :: 0 <= r < |Grid(img)| && 0 <= c < |Grid(img)[r]| ==>
      Grid(img)[r][c] == SymbolAt(img, 2 * c, 4 * r)
  {
  }

  /** Stepping x by 2 from 0 until past width - 1 makes ceil(width / 2) steps. */
  lemma ColumnSteps(x: nat, width: nat)
    requires x % 2 == 0 && width <= x < width + 2
    ensures x / 2 == (width + 1) / 2
  {
  }

  /** Stepping y by 4 from 0 until past height - 1 makes ceil(height / 4) steps. */
  lemma RowSteps(y: nat, height: nat)
    requires y % 4 == 0 && height <= y < height + 4
    ensures y / 4 == (height + 3) / 4
  {
  }

  /**
   * The inner loop of the result view: x steps by 2 from 0 while
   * x <= width - 1, and each step appends the character of the cell at (x, y).
   */
  method BrailleLine(img: Image, y: nat) returns (line: string)
    ensures |line| == (img.width + 1) / 2
    ensures forall c :: 0 <= c < |line| ==> line[c] == SymbolAt(img, 2 * c, y)
    ensures line == Line(img, y)
  {
    line := "";
    var x := 0;
    while x <= img.width - 1
      invariant 0 <= x < img.width + 2 && x % 2 == 0
      invariant |line| == x / 2
      invariant forall c :: 0 <= c < |line| ==> line[c] == SymbolAt(img, 2 * c, y)
      decreases img.width - x
    {
      assert x == 2 * |line|;
      line := line + [SymbolAt(img, x, y)];
      x := x + 2;
    }
    ColumnSteps(x, img.width);
    LineFromCharacters(img, y, line);
  }

  /**
   * The outer loop of the result view: y steps by 4 from 0 while
   * y <= height - 1, and each step adds the line of the cells whose top row
   * is y. So there are ceil(height / 4) lines of ceil(width / 2) characters,
   * in row-major order.
   */
  method BrailleLines(img: Image) returns (rows: seq<string>)
    ensures |rows| == (img.height + 3) / 4
    ensures forall r :: 0 <= r < |rows| ==> |rows[r]| == (img.width + 1) / 2
    ensures forall r, c :: 0 <= r < |rows| && 0 <= c < |rows[r]| ==> rows[r][c] == SymbolAt(img, 2 * c, 4 * r)
    ensures rows == Grid(img)
  {
    rows := [];
    var y := 0;
    while y <= img.height - 1
      invariant 0 <= y < img.height + 4 && y % 4 == 0
      invariant |rows| == y / 4
      invariant forall r :: 0 <= r < |rows| ==> rows[r] == Line(img, 4 * r)
      decreases img.height - y
    {
      var line := BrailleLine(img, y);
      rows := rows + [line];
      y := y + 4;
    }
    RowSteps(y, img.height);
    GridFromLines(img, rows);
    GridShape(img);
  }

  /**
   * With a width divisible by 2 and a height divisible by 4 the result has
   * exactly height / 4 lines of width / 2 characters.
   */
  lemma GridOfWholeCells(img: Image)
    requires img.width % 2 == 0 && img.height % 4 == 0
    ensures |Grid(img)| == img.height / 4
    ensures forall r :: 0 <= r < |Grid(img)| ==> |Grid(img)[r]| == img.width / 2
  {
  }

  /**
   * With whole cells, bit k of the character at line r, column c is the dot
   * value of pixel (2c + DotColumn[k], 4r + DotRow[k]), a pixel inside the
   * image.
   */
  lemma {:induction false} GridDotIsAt(img: Image, r: nat, c: nat, k: nat)
    requires img.width % 2 == 0 && img.height % 4 == 0
    requires r < img.height / 4 && c < img.width / 2 && k < 8
    ensures r < |Grid(img)| && c < |Grid(img)[r]|
    ensures 2 * c + DotColumn[k] < img.width && 4 * r + DotRow[k] < img.height
    ensures Bit(Grid(img)[r][c] as int - 0x2800, k) == At(img, 2 * c + DotColumn[k], 4 * r + DotRow[k])
  {
    CellInBounds(img.width, img.height, r, c, k);
    GridCellBit(img, r, c, k);
  }

  /** Bit k of the character at line r, column c, for any image size. */
  lemma {:induction false} GridCellBit(img: Image, r: nat, c: nat, k: nat)
    requires r < (img.height + 3) / 4 && c < (img.width + 1) / 2 && k < 8
    ensures r < |Grid(img)| && c < |Grid(img)[r]|
    ensures GlyphBit(Grid(img)[r][c] as int, k, At(img, 2 * c + DotColumn[k], 4 * r + DotRow[k]))
  {
    GridAt(img, r, c);
    CodeBit(img, 2 * c, 4 * r, k, Grid(img)[r][c] as int);
  }

  /** Bit k of a Braille code point, counted from U+2800, is `dot`. */
  predicate GlyphBit(code: int, k: nat, dot: int) {
    code >= 0x2800 && Bit(code - 0x2800, k) == dot
  }

  /** `DotBit` for a code known to be that of the cell at (i, j). */
  lemma CodeBit(img: Image, i: nat, j: nat, k: nat, code: int)
    requires k < 8 && code == CodeAt(img, i, j)
    ensures GlyphBit(code, k, At(img, i + DotColumn[k], j + DotRow[k]))
  {
    DotBit(img, i, j, k);
  }

  /**
   * In a well-formed image with whole cells every dot of every character is
   * the red byte of a pixel inside the image: bit k of the character at line
   * r, column c is 1 exactly when the red byte of pixel
   * (2c + DotColumn[k], 4r + DotRow[k]) is 0.
   */
  lemma {:induction false} GridDotIsRedByte(img: Image, r: nat, c: nat, k: nat)
    requires WellFormed(img) && img.width % 2 == 0 && img.height % 4 == 0
    requires r < img.height / 4 && c < img.width / 2 && k < 8
    ensures r < |Grid(img)| && c < |Grid(img)[r]|
    ensures var x, y := 2 * c + DotColumn[k], 4 * r + DotRow[k];
      x < img.width && y < img.height && PixelIndex(img.width, x, y) < |img.data| &&
      (Bit(Grid(img)[r][c] as int - 0x2800, k) == 1 <==> img.data[PixelIndex(img.width, x, y)] == 0)
  {
    var x, y := 2 * c + DotColumn[k], 4 * r + DotRow[k];
    GridDotIsAt(img, r, c, k);
    AtReadsRed(img, x, y);
  }

  lemma GridAt(img: Image, r: nat, c: nat)
    requires r < (img.height + 3) / 4 && c < (img.width + 1) / 2
    ensures r < |Grid(img)| && c < |Grid(img)[r]|
    ensures Grid(img)[r][c] as int == CodeAt(img, 2 * c, 4 * r)
  {
  }

  lemma CellInBounds(w: nat, h: nat, r: nat, c: nat, k: nat)
    requires w % 2 == 0 && h % 4 == 0 && r < h / 4 && c < w / 2 && k < 8
    ensures 2 * c + DotColumn[k] < w && 4 * r + DotRow[k] < h
    ensures r < (h + 3) / 4 && c < (w + 1) / 2
  {
  }

  /** A cell's character depends on the red bytes only. */
  lemma CellReadsRedOnly(a: Image, b: Image, i: nat, j: nat)
    requires SameRedChannel(a, b)
    ensures CodeAt(a, i, j) == CodeAt(b, i, j)
  {
    AtIgnoresGreenBlueAlpha(a, b, i, j);
    AtIgnoresGreenBlueAlpha(a, b, i, j + 1);
    AtIgnoresGreenBlueAlpha(a, b, i, j + 2);
    AtIgnoresGreenBlueAlpha(a, b, i + 1, j);
    AtIgnoresGreenBlueAlpha(a, b, i + 1, j + 1);
    AtIgnoresGreenBlueAlpha(a, b, i + 1, j + 2);
    AtIgnoresGreenBlueAlpha(a, b, i, j + 3);
    AtIgnoresGreenBlueAlpha(a, b, i + 1, j + 3);
  }

  /** The result depends on the red bytes only. */
  lemma GridReadsRedOnly(a: Image, b: Image)
    requires SameRedChannel(a, b)
    ensures Grid(a) == Grid(b)
  {
    forall r | 0 <= r < |Grid(a)|
      ensures Grid(a)[r] == Grid(b)[r]
    {
      forall c | 0 <= c < (a.width + 1) / 2
        ensures Line(a, 4 * r)[c] == Line(b, 4 * r)[c]
      {
        CellReadsRedOnly(a, b, 2 * c, 4 * r);
      }
    }
  }
}

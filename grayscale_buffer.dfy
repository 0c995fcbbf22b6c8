/** `glow::GrayscaleBuffer`, the predecessor of `glow::Surface`: the same
    zeroed `width * height` buffer of `uint8_t` hues, but addressed as
    `x * width + y`. That index is the transpose of the row-major layout: it is
    in range for x < height and y < width, not for x < width and y < height. */
module GlowGrayscaleBuffer {
  import opened CInt
  import GlowSurface

  /** The cell a call `Get(x, y)` or `Set(x, y, h)` addresses. */
  function TransposedIndex(width: int, x: int, y: int): int
  {
    x * width + y
  }

  /** The transposed index is in range on the transposed rectangle:
      x < height and y < width. */
  lemma TransposedInBounds(width: nat, height: nat, x: nat, y: nat)
    requires x < height && y < width
    ensures TransposedIndex(width, x, y) < width * height
  {
    GlowSurface.RowMajorInBounds(width, height, y, x);
  }

  /** On a 2 x 1 buffer the cell (1, 0), which has x < width and y < height,
      is addressed at index 2: one past the end of its two cells. */
  lemma TransposedIndexEscapes()
    ensures var width, height, x, y := 2, 1, 1, 0;
      x < width && y < height && TransposedIndex(width, x, y) >= width * height
  {
  }

  class GrayscaleBuffer {
    const width: u32
    const height: u32
    /** `width * height` computed in `uint32_t`. */
    const area: u32
    const buffer: array<u8>

    ghost predicate Valid()
    {
      buffer.Length == area && area == ToU32(width * height)
    }

    /** The dimensions and a zeroed buffer of `area` cells. */
    constructor (width: u32, height: u32)
      ensures this.width == width && this.height == height
      ensures area == ToU32(width * height)
      ensures width * height < 0x1_0000_0000 ==> area == width * height
      ensures Valid() && fresh(buffer)
      ensures forall i :: 0 <= i < buffer.Length ==> buffer[i] == 0
    {
      this.width := width;
      this.height := height;
      var n := ToU32(width * height);
      area := n;
      buffer := new u8[n](_ => 0);
    }

    function GetArea(): (n: u32)
      requires Valid()
      ensures n == buffer.Length
      ensures width * height < 0x1_0000_0000 ==> n == width * height
    {
      area
    }

    /** `Get(x, y)`: the hue at index `x * width + y`. */
    function Get(x: u32, y: u32): (hue: u32)
      reads buffer
      requires Valid() && TransposedIndex(width, x, y) < area
      ensures hue < 0x100
    {
      buffer[TransposedIndex(width, x, y)]
    }

    /** `Set(x, y, hue)`: the `uint8_t` cell keeps the low 8 bits of `hue`;
        no other cell changes. */
    method Set(x: u32, y: u32, hue: u32)
      requires Valid() && TransposedIndex(width, x, y) < area
      modifies buffer
      ensures Get(x, y) == hue % 0x100
      ensures forall i :: 0 <= i < buffer.Length && i != TransposedIndex(width, x, y) ==>
        buffer[i] == old(buffer[i])
    {
      buffer[TransposedIndex(width, x, y)] := ToU8(hue);
    }
  }
}

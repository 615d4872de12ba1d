/**
 * Colours: a symbolic colour (palette index or explicit triple), its
 * resolution against a 256-entry palette, and the default palette
 * (16 base colours, a 6x6x6 cube and 24 greys).
 */
module Colors {
  import opened Primitives

  datatype Rgb = Rgb(r: u8, g: u8, b: u8)

  datatype Color =
    | Index(index: u8)   // a colour of the palette
    | Direct(rgb: Rgb)   // an explicit RGB triple (`Color::Rgb`)

  type Palette = p: seq<Rgb> | |p| == 256 witness seq(256, _ => Rgb(0, 0, 0))

  const DEFAULT_FOREGROUND: Color := Index(15)
  const DEFAULT_BACKGROUND: Color := Index(0)
  const DEFAULT_CURSOR: Color := DEFAULT_FOREGROUND

  /** `Color::into_rgb`: an index looks the palette up, a triple stands for itself. */
  function IntoRgb(color: Color, palette: Palette): (rgb: Rgb)
    ensures color.Index? ==> rgb == palette[color.index]
    ensures color.Direct? ==> rgb == color.rgb
  {
    match color
    case Index(i) => palette[i]
    case Direct(rgb) => rgb
  }

  /** `rgb_from_u32`: the three low bytes of `bits`, most significant first. */
  function RgbFromU32(bits: u32): (c: Rgb)
    ensures c.r * 0x10000 + c.g * 0x100 + c.b == bits % 0x100_0000
  {
    ByteSplit(bits);
    Rgb((bits / 0x10000) % 0x100, (bits / 0x100) % 0x100, bits % 0x100)
  }

  lemma {:induction false} ByteSplit(bits: nat)
    ensures ((bits / 0x10000) % 0x100) * 0x10000 + ((bits / 0x100) % 0x100) * 0x100 + bits % 0x100 == bits % 0x100_0000
  {
    var q1, b := bits / 0x100, bits % 0x100;
    var q2, g := q1 / 0x100, q1 % 0x100;
    var q3, r := q2 / 0x100, q2 % 0x100;
    assert bits == q1 * 0x100 + b;
    assert q1 == q2 * 0x100 + g;
    assert q2 == q3 * 0x100 + r;
    assert bits == q3 * 0x100_0000 + (r * 0x10000 + g * 0x100 + b);
    assert bits / 0x10000 == q2 by {
      assert bits == q2 * 0x10000 + (g * 0x100 + b);
    }
    assert bits % 0x100_0000 == r * 0x10000 + g * 0x100 + b;
  }

  /** The sixteen base colours, in palette order. */
  const BASE16: seq<u32> := [
    0x282828, 0xcc241d, 0x98871a, 0xd79921, 0x458588, 0xb16286, 0x689d6a, 0xa89984,
    0x928374, 0xfb4934, 0xb8bb26, 0xfabd2f, 0x83a598, 0xd3869b, 0x8ec07c, 0xebdbb2
  ]

  /** Entry `16 + 36r + 6g + b` of the colour cube. */
  function Cube(r: nat, g: nat, b: nat): (c: Rgb)
    requires r < 6 && g < 6 && b < 6
  {
    Rgb(255 * r / 6, 255 * g / 6, 255 * b / 6)
  }

  /** Entry `232 + i` of the grey ramp. */
  function Grey(i: nat): (c: Rgb)
    requires i < 24
  {
    var grey := 255 * i / 24;
    Rgb(grey, grey, grey)
  }

  /** The default palette, entry by entry. */
  function DefaultEntry(i: nat): Rgb
    requires i < 256
  {
    if i < 16 then RgbFromU32(BASE16[i])
    else if i < 232 then
      var n := i - 16;
      Cube(n / 36, (n / 6) % 6, n % 6)
    else Grey(i - 232)
  }

  function DefaultPalette(): Palette {
    seq(256, i requires 0 <= i < 256 => DefaultEntry(i))
  }

  /** The palette index of cube coordinates `(r, g, b)`. */
  function CubeSlot(r: nat, g: nat, b: nat): nat {
    16 + 36 * r + 6 * g + b
  }

  /** Cube coordinates name palette indices 16..231 and can be read back from them. */
  lemma {:induction false} CubeIndex(r: nat, g: nat, b: nat)
    requires r < 6 && g < 6 && b < 6
    ensures 16 <= CubeSlot(r, g, b) < 232
    ensures var n := CubeSlot(r, g, b) - 16; n / 36 == r && (n / 6) % 6 == g && n % 6 == b
  {
    var n := 36 * r + 6 * g + b;
    assert n == (6 * r + g) * 6 + b;
    assert n / 6 == 6 * r + g;
    assert n / 36 == r;
  }

  /** Every cube entry of the default palette is `255 * coordinate / 6`, per channel. */
  lemma {:induction false} DefaultCube(r: nat, g: nat, b: nat)
    requires r < 6 && g < 6 && b < 6
    ensures DefaultPalette()[CubeSlot(r, g, b)] == Rgb(255 * r / 6, 255 * g / 6, 255 * b / 6)
  {
    CubeIndex(r, g, b);
  }

  /** Every index from 16 to 231 is the cube slot of exactly one coordinate triple. */
  lemma {:induction false} CubeCoversOnce(i: nat)
    requires 16 <= i < 232
    ensures exists r: nat, g: nat, b: nat :: r < 6 && g < 6 && b < 6 && i == CubeSlot(r, g, b)
    ensures forall r: nat, g: nat, b: nat, r': nat, g': nat, b': nat ::
      (r < 6 && g < 6 && b < 6 && r' < 6 && g' < 6 && b' < 6 &&
       i == CubeSlot(r, g, b) && i == CubeSlot(r', g', b')) ==> r == r' && g == g' && b == b'
  {
    var n := i - 16;
    var r, g, b := n / 36, (n / 6) % 6, n % 6;
    assert i == CubeSlot(r, g, b);
    forall r: nat, g: nat, b: nat, r': nat, g': nat, b': nat |
      r < 6 && g < 6 && b < 6 && r' < 6 && g' < 6 && b' < 6 &&
      i == CubeSlot(r, g, b) && i == CubeSlot(r', g', b')
      ensures r == r' && g == g' && b == b'
    {
      CubeIndex(r, g, b);
      CubeIndex(r', g', b');
    }
  }

  /** The last 24 entries of the default palette are greys rising in steps of `255 / 24`. */
  lemma {:induction false} DefaultGreys(i: nat)
    requires i < 24
    ensures var c := DefaultPalette()[232 + i]; c.r == c.g == c.b == 255 * i / 24
    ensures i + 1 < 24 ==> DefaultPalette()[232 + i].r < DefaultPalette()[233 + i].r
  {
  }

  /** The defaults resolve to the base colours 15 (light) and 0 (dark); the cursor uses the foreground. */
  lemma {:induction false} DefaultColorsResolve()
    ensures IntoRgb(DEFAULT_FOREGROUND, DefaultPalette()) == Rgb(0xeb, 0xdb, 0xb2)
    ensures IntoRgb(DEFAULT_BACKGROUND, DefaultPalette()) == Rgb(0x28, 0x28, 0x28)
    ensures IntoRgb(DEFAULT_CURSOR, DefaultPalette()) == IntoRgb(DEFAULT_FOREGROUND, DefaultPalette())
  {
  }

  /**
   * The `DEFAULT_PALETTE` constant as the source computes it: the base
   * colours, then three nested loops over the cube, then a loop over the greys,
   * all writing into a local array.
   */
  method BuildDefaultPalette() returns (colors: seq<Rgb>)
    ensures colors == DefaultPalette()
  {
    var a := new Rgb[256](_ => Rgb(0, 0, 0));
    var k := 0;
    while k < 16
      invariant 0 <= k <= 16
      invariant forall j | 0 <= j < k :: a[j] == DefaultEntry(j)
    {
      a[k] := RgbFromU32(BASE16[k]);
      k := k + 1;
    }
    var r := 0;
    while r < 6
      invariant 0 <= r <= 6
      invariant forall j | 0 <= j < CubeSlot(r, 0, 0) :: a[j] == DefaultEntry(j)
    {
      var g := 0;
      while g < 6
        invariant 0 <= g <= 6
        invariant forall j | 0 <= j < CubeSlot(r, g, 0) :: a[j] == DefaultEntry(j)
      {
        var b := 0;
        while b < 6
          invariant 0 <= b <= 6
          invariant forall j | 0 <= j < CubeSlot(r, g, b) :: a[j] == DefaultEntry(j)
        {
          CubeIndex(r, g, b);
          a[CubeSlot(r, g, b)] := Cube(r, g, b);
          b := b + 1;
        }
        g := g + 1;
      }
      r := r + 1;
    }
    var i := 0;
    while i < 24
      invariant 0 <= i <= 24
      invariant forall j | 0 <= j < 232 + i :: a[j] == DefaultEntry(j)
    {
      a[232 + i] := Grey(i);
      i := i + 1;
    }
    colors := a[..];
  }
}

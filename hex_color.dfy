/**
 * The colour strings the converter stores in a sprite: `transparent`, or
 * `#rrggbb` in lower-case hex. The sampler writes them (`toHex`) and the
 * background classifier reads them back with `slice` and `parseInt(_, 16)`.
 * This module shows that classifying the strings is the same as classifying
 * the cells they encode.
 */
module HexColor {
  import opened PixelTypes
  import opened Background

  datatype Option<T> = None | Some(value: T)

  /** The sentinel string for a transparent cell. */
  const TransparentName := "transparent"

  /** Digits used by `Number.prototype.toString(16)`. */
  const Digits := "0123456789abcdef"

  /** A byte as two lower-case hex digits, zero padded (`x.toString(16).padStart(2, '0')`). */
  function ByteHex(b: Byte): (s: string)
    ensures |s| == 2
  {
    [Digits[b / 16], Digits[b % 16]]
  }

  /** The string stored for a cell (`toHex`). */
  function ToHex(c: Cell): (s: string)
    ensures c == Transparent <==> s == TransparentName
    ensures c != Transparent ==> |s| == 7 && s[0] == '#'
  {
    match c
    case Transparent => TransparentName
    case Opaque(r, g, b) => "#" + ByteHex(r) + ByteHex(g) + ByteHex(b)
  }

  /** Value of one hex digit (either case), or None. */
  function DigitValue(ch: char): (v: Option<nat>)
    ensures v.Some? ==> v.value < 16
  {
    if '0' <= ch <= '9' then Some(ch as int - '0' as int)
    else if 'a' <= ch <= 'f' then Some(ch as int - 'a' as int + 10)
    else if 'A' <= ch <= 'F' then Some(ch as int - 'A' as int + 10)
    else None
  }

  /** Continue a hex number whose digits so far are worth `acc`, stopping at the first non-digit. */
  function HexPrefixValue(s: string, acc: nat): nat
  {
    if s == [] || DigitValue(s[0]).None? then acc
    else HexPrefixValue(s[1..], acc * 16 + DigitValue(s[0]).value)
  }

  /** `parseInt(s, 16)`: the value of the leading hex digits, None (NaN) when there are none. */
  function ParseHex(s: string): Option<nat>
  {
    if s == [] || DigitValue(s[0]).None? then None
    else Some(HexPrefixValue(s[1..], DigitValue(s[0]).value))
  }

  /** `s.slice(a, b)` for `0 <= a <= b`: both ends clamped to the string's length. */
  function Slice(s: string, a: nat, b: nat): (r: string)
    requires a <= b
    ensures |r| <= b - a
  {
    if b <= |s| then s[a..b] else if a <= |s| then s[a..] else []
  }

  /** `v > threshold` where None stands for NaN, which compares false. */
  predicate Above(v: Option<nat>, threshold: int)
  {
    v.Some? && v.value > threshold
  }

  /** The callback `removeBackground` maps over the colour strings. */
  function ClassifyHex(color: string, threshold: int): string
  {
    if color == TransparentName then color
    else if Above(ParseHex(Slice(color, 1, 3)), threshold)
         && Above(ParseHex(Slice(color, 3, 5)), threshold)
         && Above(ParseHex(Slice(color, 5, 7)), threshold)
    then TransparentName
    else color
  }

  /** The string form of a sprite's cells. */
  function ToHexAll(cells: seq<Cell>): (r: seq<string>)
    ensures |r| == |cells|
    ensures forall i :: 0 <= i < |cells| ==> r[i] == ToHex(cells[i])
  {
    if cells == [] then [] else [ToHex(cells[0])] + ToHexAll(cells[1..])
  }

  /** `removeBackground` on the string form: `pixels.map(...)`. */
  function ClassifyHexAll(colors: seq<string>, threshold: int): (r: seq<string>)
    ensures |r| == |colors|
    ensures forall i :: 0 <= i < |colors| ==> r[i] == ClassifyHex(colors[i], threshold)
  {
    if colors == [] then [] else [ClassifyHex(colors[0], threshold)] + ClassifyHexAll(colors[1..], threshold)
  }

  lemma DigitRoundTrip(k: int)
    requires 0 <= k < 16
    ensures DigitValue(Digits[k]) == Some(k)
  {
  }

  /** Two hex digits written by `ByteHex` parse back to the byte. */
  lemma ByteHexRoundTrip(b: Byte)
    ensures ParseHex(ByteHex(b)) == Some(b)
  {
    var s := ByteHex(b);
    DigitRoundTrip(b / 16);
    DigitRoundTrip(b % 16);
    assert s[1..] == [Digits[b % 16]] && s[1..][1..] == [];
    assert HexPrefixValue(s[1..][1..], (b / 16) * 16 + b % 16) == b;
    assert HexPrefixValue(s[1..], b / 16) == b;
  }

  /** Slicing `#rrggbb` at 1-3, 3-5 and 5-7 and parsing each slice gives back the three channels. */
  lemma ToHexChannels(r: Byte, g: Byte, b: Byte)
    ensures ParseHex(Slice(ToHex(Opaque(r, g, b)), 1, 3)) == Some(r)
    ensures ParseHex(Slice(ToHex(Opaque(r, g, b)), 3, 5)) == Some(g)
    ensures ParseHex(Slice(ToHex(Opaque(r, g, b)), 5, 7)) == Some(b)
  {
    var s := ToHex(Opaque(r, g, b));
    assert s[1..3] == ByteHex(r);
    assert s[3..5] == ByteHex(g);
    assert s[5..7] == ByteHex(b);
    ByteHexRoundTrip(r);
    ByteHexRoundTrip(g);
    ByteHexRoundTrip(b);
  }

  /** Distinct cells get distinct strings, so comparing strings is comparing cells. */
  lemma ToHexInjective(c1: Cell, c2: Cell)
    ensures ToHex(c1) == ToHex(c2) ==> c1 == c2
  {
    if ToHex(c1) == ToHex(c2) && c1.Opaque? && c2.Opaque? {
      ToHexChannels(c1.r, c1.g, c1.b);
      ToHexChannels(c2.r, c2.g, c2.b);
    }
  }

  /** Classifying the string of a cell gives the string of the classified cell. */
  lemma ClassifyHexAgrees(c: Cell, threshold: int)
    ensures ClassifyHex(ToHex(c), threshold) == ToHex(ClassifyCell(c, threshold))
  {
    if c.Opaque? {
      ToHexChannels(c.r, c.g, c.b);
    }
  }

  /**
   * `removeBackground` on the colour strings of a sprite yields exactly the
   * colour strings of the cell-level `RemoveBackground`.
   */
  lemma RemoveBackgroundHexAgrees(pd: PixelData, threshold: int)
    ensures ClassifyHexAll(ToHexAll(pd.pixels), threshold) == ToHexAll(RemoveBackground(pd, threshold).pixels)
  {
    var lhs := ClassifyHexAll(ToHexAll(pd.pixels), threshold);
    var rhs := ToHexAll(RemoveBackground(pd, threshold).pixels);
    forall i | 0 <= i < |pd.pixels|
      ensures lhs[i] == rhs[i]
    {
      ClassifyHexAgrees(pd.pixels[i], threshold);
    }
  }
}

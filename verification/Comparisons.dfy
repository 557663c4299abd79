/** Comparing sign-and-magnitude patterns as the two 16-bit types do, against the order of their values. */
module Comparisons {
  import opened Words
  import Magnitudes
  import opened Formats
  import opened Conversions

  predicate OppositeZeros(x: Word16, y: Word16) {
    x % 0x8000 == 0 && y % 0x8000 == 0 && x != y
  }

  /** The pattern with its sign bit inverted. */
  function Toggled(x: Word16): Word16 { (x + 0x8000) % 0x1_0000 }

  lemma ToggledTwice(x: Word16)
    ensures Toggled(Toggled(x)) == x && Toggled(x) % 0x8000 == x % 0x8000
  {
  }

  lemma WordParts(f: IeeeFormat, x: Word16)
    requires f.signBit == 0x8000
    ensures IsEncoding(f, x) && Sign(f, x) == x / 0x8000 && Pattern(f, x) == x % 0x8000
    ensures Toggled(x) == Flip(f, x)
  {
  }

  /** Both operators read the key off the bits. */
  lemma BitsAgainstKeys(f: IeeeFormat, x: Word16, y: Word16)
    requires f.signBit == 0x8000
    ensures (if (x >= 0x8000) != (y >= 0x8000) then x >= 0x8000 && !(x % 0x8000 == 0 && y % 0x8000 == 0)
             else x != y && ((x < y) != (x >= 0x8000)))
            <==> Key(f, x) < Key(f, y)
    ensures Key(f, x) == Key(f, y) <==> x == y || OppositeZeros(x, y)
  {
  }

  /** Value with its sign changed, and without its sign. */
  function Negated(x: Extended): Extended {
    match x
    case NegativeInfinity => PositiveInfinity
    case PositiveInfinity => NegativeInfinity
    case Finite(units) => Finite(-units)
    case NaN => NaN
  }

  function Absolute(i: int): nat { if i < 0 then -i else i }

  function AbsoluteValue(x: Extended): Extended {
    match x
    case NegativeInfinity => PositiveInfinity
    case PositiveInfinity => PositiveInfinity
    case Finite(units) => Finite(Absolute(units))
    case NaN => NaN
  }

  lemma ValueOfFlip(f: IeeeFormat, b: nat)
    requires IsEncoding(f, b)
    ensures IsEncoding(f, Flip(f, b)) && Value(f, Flip(f, b)) == Negated(Value(f, b))
  {
  }

  lemma ValueOfPattern(f: IeeeFormat, b: nat)
    requires IsEncoding(f, b)
    ensures Value(f, Pattern(f, b)) == AbsoluteValue(Value(f, b))
  {
  }

  /** The distance between two finite values of one sign is the distance of their magnitudes. */
  lemma DistanceOfValues(f: IeeeFormat, a: nat, g: IeeeFormat, b: nat)
    requires IsFinite(f, a) && IsFinite(g, b) && Sign(f, a) == Sign(g, b)
    ensures Value(f, a).Finite? && Value(g, b).Finite?
    ensures Absolute(Value(f, a).units - Value(g, b).units)
         == Magnitudes.Distance(Units(f, Pattern(f, a)), Units(g, Pattern(g, b)))
    ensures Absolute(Value(f, a).units) == Units(f, Pattern(f, a))
  {
  }
}

/**
 * dlsc_bv: a vector of ELEMENTS fields of BITS bits each, kept unpacked as an
 * array of 64-bit integers (signed or unsigned) and packed into a
 * WIDTH = ELEMENTS*BITS bit vector on demand. Bit vectors are natural numbers
 * below 2^WIDTH; element i occupies bits [i*BITS+BITS-1 : i*BITS]. The
 * specification functions take the field radix p = 2^BITS.
 */
module DlscBv {
  import opened Bits

  const INT64_LIMIT: nat := 0x8000_0000_0000_0000

  /** The values a 64-bit element type holds. */
  predicate InElementType(x: int, signed: bool)
  {
    if signed then -(INT64_LIMIT as int) <= x < INT64_LIMIT else 0 <= x < UINT64_LIMIT
  }

  /** p^n: a vector of n fields of radix p holds values below p^n. */
  function Power(p: nat, n: nat): (r: nat)
    requires p >= 1
    ensures r >= 1
  {
    if n == 0 then 1 else p * Power(p, n - 1)
  }

  /** A field radix 2^BITS with BITS >= 1 is even and at least 2. */
  predicate IsRadix(p: nat)
  {
    p >= 2 && p % 2 == 0
  }

  /** The low bits of x below the radix, which is what assigning x to a bit range keeps. */
  function Low(x: int, p: nat): (r: nat)
    requires p >= 1
    ensures r < p
  {
    x % p
  }

  /**
   * SignExtend on one freshly sliced field x < 2^BITS: when bit BITS-1 is
   * set, OR-ing in the complement of the mask sets every higher bit (the value
   * becomes x - 2^BITS); otherwise AND-ing with the mask keeps x.
   */
  function SignExtended(x: nat, p: nat): (r: int)
    requires IsRadix(p) && x < p
    ensures -(p / 2) <= r < p / 2
    ensures Low(r, p) == x
  {
    var half := p / 2;
    DivModUnique(x, half, if x >= half then 1 else 0, if x >= half then x - half else x);
    if x / half % 2 == 1 then
      IntModUnique(x - p, p, -1, x);
      x - p
    else
      DivModUnique(x, p, 0, x);
      x
  }

  /** An element as assignment leaves it: the field, sign extended when the element type is signed. */
  function Element(f: nat, p: nat, signed: bool): int
    requires IsRadix(p) && f < p
  {
    if signed then SignExtended(f, p) else f
  }

  /** The n fields of a vector, lowest first. */
  function Fields(v: nat, n: nat, p: nat): (s: seq<nat>)
    requires p >= 1
    ensures |s| == n
    ensures forall i :: 0 <= i < n ==> s[i] < p
    decreases n
  {
    if n == 0 then [] else [v % p] + Fields(v / p, n - 1, p)
  }

  /** SignExtend on every element, for a signed element type; nothing for an unsigned one. */
  function Extended(s: seq<nat>, p: nat, signed: bool): (r: seq<int>)
    requires IsRadix(p) && forall i :: 0 <= i < |s| ==> s[i] < p
    ensures |r| == |s|
  {
    seq(|s|, k requires 0 <= k < |s| => Element(s[k], p, signed))
  }

  /** The elements assignment unpacks from a vector. */
  function Unpack(v: nat, n: nat, p: nat, signed: bool): (s: seq<int>)
    requires IsRadix(p)
    ensures |s| == n
  {
    Extended(Fields(v, n, p), p, signed)
  }

  /** The vector the cast packs from the elements: element i's low bits at field i. */
  function Pack(s: seq<int>, p: nat): (v: nat)
    requires p >= 1
    ensures v < Power(p, |s|)
  {
    if |s| == 0 then 0
    else
      var rest := Pack(s[1..], p);
      PackBound(Low(s[0], p), rest, Power(p, |s| - 1), p);
      Low(s[0], p) + p * rest
  }

  /** An element value the unpacking gives back unchanged. */
  predicate Representable(x: int, p: nat, signed: bool)
  {
    if signed then -(p / 2) <= x < p / 2 else 0 <= x < p
  }

  // ---------------------------------------------------------------------------
  // Arithmetic helpers.

  /** 2^63 and 2^64, the limits of the 64-bit element types. */
  lemma Pow2Limits()
    ensures Pow2(63) == INT64_LIMIT && Pow2(64) == UINT64_LIMIT
  {
    assert Pow2(4) == 16;
    Pow2Add(4, 4);
    assert Pow2(8) == 0x100;
    Pow2Add(8, 8);
    assert Pow2(16) == 0x1_0000;
    Pow2Add(16, 16);
    assert Pow2(32) == 0x1_0000_0000;
    Pow2Add(32, 32);
    assert Pow2(31) == 0x8000_0000;
    Pow2Add(31, 32);
  }

  /** A WIDTH = n*bits bit vector is a vector of n fields of radix 2^bits. */
  lemma {:induction false} Pow2Width(n: nat, bits: nat)
    ensures Pow2(n * bits) == Power(Pow2(bits), n)
  {
    if n == 0 {
      assert n * bits == 0;
    } else {
      var k := (n - 1) * bits;
      assert k + bits == n * bits;
      Pow2Width(n - 1, bits);
      Pow2Add(bits, k);
    }
  }

  /** 2^bits is a field radix for every bits >= 1, and half of it is 2^(bits-1). */
  lemma Pow2Radix(bits: nat)
    requires bits >= 1
    ensures IsRadix(Pow2(bits)) && Pow2(bits) / 2 == Pow2(bits - 1)
  {
  }

  /** Euclidean division on integers is determined by quotient and in-range remainder. */
  lemma IntModUnique(a: int, d: nat, q: int, r: nat)
    requires d > 0 && a == q * d + r && r < d
    ensures a % d == r
  {
    var q', r' := a / d, a % d;
    assert a == q' * d + r';
    assert (q - q') * d == r' - r;
    if q - q' >= 1 {
      MulMonotone(1, q - q', d);
    } else if q' - q >= 1 {
      MulMonotone(1, q' - q, d);
    }
  }

  /** p * (a + l*q) regrouped so that the factor p joins q. */
  lemma Distribute(p: int, a: int, l: int, q: int)
    ensures p * (a + l * q) == p * a + l * (p * q)
  {
  }

  /** A low digit below the radix plus the radix times a number below q stays below the radix times q. */
  lemma PackBound(low: nat, rest: nat, q: nat, p: nat)
    requires low < p && rest < q
    ensures low + p * rest < p * q
  {
    MulMonotone(rest + 1, q, p);
  }

  /** Euclidean division of a natural number by a positive radix. */
  /** Taking the low field of the rest moves it from the fields still to come to those taken. */
  lemma FieldsStep(taken: seq<int>, rest: nat, n: nat, p: nat, all: seq<int>)
    requires p >= 1 && n >= 1 && taken + Fields(rest, n, p) == all
    ensures (taken + [rest % p]) + Fields(rest / p, n - 1, p) == all
  {
    assert Fields(rest, n, p) == [rest % p] + Fields(rest / p, n - 1, p);
  }

  lemma DivStep(v: nat, p: nat)
    requires p >= 1
    ensures v / p >= 0 && v == p * (v / p) + v % p
  {
  }

  /** Dropping the low field of a vector n fields wide leaves one n-1 fields wide. */
  lemma DivWidth(v: nat, n: nat, p: nat)
    requires n >= 1 && p >= 1 && v < Power(p, n)
    ensures v / p < Power(p, n - 1)
  {
    assert v == p * (v / p) + v % p;
    if v / p >= Power(p, n - 1) {
      MulMonotone(Power(p, n - 1), v / p, p);
    }
  }

  /** Two values in the signed range of a field are equal when their low bits are. */
  lemma LowDetermines(x: int, y: int, p: nat)
    requires IsRadix(p)
    requires Representable(x, p, true) && Representable(y, p, true)
    requires Low(x, p) == Low(y, p)
    ensures x == y
  {
    var qx, qy := x / p, y / p;
    assert x == qx * p + Low(x, p) && y == qy * p + Low(y, p);
    assert x - y == (qx - qy) * p;
    if qx - qy >= 1 {
      MulMonotone(1, qx - qy, p);
    } else if qy - qx >= 1 {
      MulMonotone(1, qy - qx, p);
    }
  }

  // ---------------------------------------------------------------------------
  // The two directions of the packing.

  /** The lowest field of a vector unpacks to the first element; the rest unpack from the vector shifted down one field. */
  lemma UnpackStep(v: nat, n: nat, p: nat, signed: bool, q: nat)
    requires IsRadix(p) && n >= 1 && q == v / p
    ensures Unpack(v, n, p, signed) == [Element(v % p, p, signed)] + Unpack(q, n - 1, p, signed)
  {
    var f := Fields(v, n, p);
    assert f[1..] == Fields(q, n - 1, p);
  }

  /** Packing the fields of a vector n fields wide gives the vector back. */
  lemma {:induction false} PackFields(v: nat, n: nat, p: nat)
    requires p >= 1 && v < Power(p, n)
    ensures Pack(Fields(v, n, p), p) == v
    decreases n
  {
    if n > 0 {
      DivStep(v, p);
      var f := Fields(v, n, p);
      DivWidth(v, n, p);
      PackFields(v / p, n - 1, p);
      assert f[1..] == Fields(v / p, n - 1, p);
      DivModUnique(v % p, p, 0, v % p);
    }
  }

  /** Sign extension leaves the low bits of every element, so the packed vector is unchanged. */
  lemma {:induction false} PackExtended(s: seq<nat>, p: nat, signed: bool)
    requires IsRadix(p) && forall i :: 0 <= i < |s| ==> s[i] < p
    ensures Pack(Extended(s, p, signed), p) == Pack(s, p)
  {
    if |s| > 0 {
      var e := Extended(s, p, signed);
      PackExtended(s[1..], p, signed);
      assert e[1..] == Extended(s[1..], p, signed);
      DivModUnique(s[0], p, 0, s[0]);
    }
  }

  /** vector -> elements -> vector is the identity on WIDTH-bit vectors. */
  lemma PackUnpack(v: nat, n: nat, p: nat, signed: bool)
    requires IsRadix(p) && v < Power(p, n)
    ensures Pack(Unpack(v, n, p, signed), p) == v
  {
    PackFields(v, n, p);
    PackExtended(Fields(v, n, p), p, signed);
  }

  /** elements -> vector -> elements is the identity on elements that fit their field. */
  lemma {:induction false} UnpackPack(s: seq<int>, p: nat, signed: bool)
    requires IsRadix(p)
    requires forall i :: 0 <= i < |s| ==> Representable(s[i], p, signed)
    ensures Unpack(Pack(s, p), |s|, p, signed) == s
  {
    if |s| > 0 {
      var v, rest := Pack(s, p), Pack(s[1..], p);
      DivModUnique(v, p, rest, Low(s[0], p));
      UnpackStep(v, |s|, p, signed, rest);
      UnpackPack(s[1..], p, signed);
      var e := Element(v % p, p, signed);
      if signed {
        LowDetermines(e, s[0], p);
      } else {
        DivModUnique(s[0], p, 0, s[0]);
      }
      assert s == [s[0]] + s[1..];
    }
  }

  /** Appending an element writes its low bits just above the packed vector. */
  lemma {:induction false} PackSnoc(s: seq<int>, x: int, p: nat)
    requires p >= 1
    ensures Pack(s + [x], p) == Pack(s, p) + Low(x, p) * Power(p, |s|)
  {
    if |s| > 0 {
      assert (s + [x])[1..] == s[1..] + [x];
      PackSnoc(s[1..], x, p);
      var a, l, q := Pack(s[1..], p), Low(x, p), Power(p, |s| - 1);
      assert Pack(s + [x], p) == Low(s[0], p) + p * (a + l * q);
      Distribute(p, a, l, q);
    }
  }

  // ---------------------------------------------------------------------------
  // The object.

  /** A dlsc_bv<ELEMENTS, BITS, T> whose element type T is a signed or unsigned 64-bit integer. */
  class Bv {
    const elements: nat
    const bits: nat
    const signed: bool
    /** 2^BITS, the radix of one field. */
    const radix: nat
    const values: array<int>

    ghost predicate Valid()
      reads this, values
    {
      && values.Length == elements
      && 1 <= bits <= 64
      && (signed ==> bits <= 63)
      && radix == Pow2(bits) && IsRadix(radix)
      && forall i :: 0 <= i < elements ==> InElementType(values[i], signed)
    }

    /** The default constructor: every element 0. */
    constructor (n: nat, b: nat, isSigned: bool)
      requires 1 <= b <= 64 && (isSigned ==> b <= 63)
      ensures Valid() && fresh(values)
      ensures elements == n && bits == b && signed == isSigned
      ensures values[..] == seq(n, _ => 0)
    {
      Pow2Radix(b);
      elements, bits, signed, radix := n, b, isSigned, Pow2(b);
      values := new int[n](_ => 0);
    }

    /** The copy constructor: the same elements in a new array. */
    constructor Copy(other: Bv)
      requires other.Valid()
      ensures Valid() && fresh(values)
      ensures elements == other.elements && bits == other.bits && signed == other.signed
      ensures values[..] == other.values[..]
    {
      elements, bits, signed, radix := other.elements, other.bits, other.signed, other.radix;
      var a := new int[other.elements](i requires 0 <= i < other.elements reads other.values => other.values[i]);
      values := a;
    }

    /** Construction from a WIDTH-bit vector. */
    constructor FromVector(n: nat, b: nat, isSigned: bool, v: nat)
      requires 1 <= b <= 64 && (isSigned ==> b <= 63) && v < Pow2(n * b)
      ensures Valid() && fresh(values)
      ensures elements == n && bits == b && signed == isSigned
      ensures values[..] == Unpack(v, n, radix, isSigned)
    {
      Pow2Radix(b);
      elements, bits, signed, radix := n, b, isSigned, Pow2(b);
      values := new int[n](_ => 0);
      new;
      AssignVector(v);
    }

    /** Construction from a uint64: its low WIDTH bits. */
    constructor FromUint64(n: nat, b: nat, isSigned: bool, x: nat)
      requires 1 <= b <= 64 && (isSigned ==> b <= 63) && x < UINT64_LIMIT
      ensures Valid() && fresh(values)
      ensures elements == n && bits == b && signed == isSigned
      ensures values[..] == Unpack(x % Pow2(n * b), n, radix, isSigned)
    {
      Pow2Radix(b);
      elements, bits, signed, radix := n, b, isSigned, Pow2(b);
      values := new int[n](_ => 0);
      new;
      AssignUint64(x);
    }

    /** Every field value (below the radix) is a value of the element type. */
    lemma FieldFits()
      requires Valid()
      ensures forall x :: 0 <= x < radix ==> InElementType(x, signed)
      ensures forall x :: 0 <= x < radix ==> InElementType(Element(x, radix, signed), signed)
    {
      Pow2Limits();
      if signed {
        Pow2Monotone(bits, 63);
      } else {
        Pow2Monotone(bits, 64);
      }
    }

    /** Assignment from another vector of the same shape copies its elements. */
    method Assign(other: Bv)
      requires Valid() && other.Valid()
      requires other.elements == elements && other.bits == bits && other.signed == signed
      modifies values
      ensures Valid()
      ensures values[..] == old(other.values[..])
    {
      var src := other.values[..];
      var i := 0;
      while i < elements
        invariant 0 <= i <= elements
        invariant values[..i] == src[..i]
        invariant forall k :: 0 <= k < elements ==> InElementType(values[k], signed)
      {
        values[i] := src[i];
        i := i + 1;
      }
      assert values[..] == values[..elements];
    }

    /**
     * Assignment from a WIDTH-bit vector: slice out each field, then sign
     * extend.
     */
    method AssignVector(v: nat)
      requires Valid() && v < Pow2(elements * bits)
      modifies values
      ensures Valid()
      ensures values[..] == Unpack(v, elements, radix, signed)
    {
      Slice(v);
      ghost var fields := values[..];
      SignExtend();
      assert values[..] == Extended(fields, radix, signed);
    }

    /**
     * The slicing half of assignment from a vector: element i receives bits
     * [i*BITS+BITS-1 : i*BITS]. `rest` holds the vector shifted right past the
     * fields already taken, so its low bits are field i.
     */
    method Slice(v: nat)
      requires Valid()
      modifies values
      ensures Valid()
      ensures values[..] == Fields(v, elements, radix)
    {
      FieldFits();
      var rest: nat := v;
      var i := 0;
      while i < elements
        invariant 0 <= i <= elements
        invariant values[..i] + Fields(rest, elements - i, radix) == Fields(v, elements, radix)
        invariant forall k :: 0 <= k < elements ==> InElementType(values[k], signed)
      {
        DivStep(rest, radix);
        var field, higher := rest % radix, rest / radix;
        FieldsStep(values[..i], rest, elements - i, radix, Fields(v, elements, radix));
        ghost var taken := values[..i];
        values[i] := field;
        assert values[..i + 1] == taken + [field];
        rest := higher;
        i := i + 1;
      }
      assert values[..] == values[..elements];
    }

    /** Assignment from a uint64: the vector it converts to keeps its low WIDTH bits. */
    method AssignUint64(x: nat)
      requires Valid() && x < UINT64_LIMIT
      modifies values
      ensures Valid()
      ensures values[..] == Unpack(x % Pow2(elements * bits), elements, radix, signed)
    {
      AssignVector(x % Pow2(elements * bits));
    }

    /** SignExtend: for a signed element type, copy bit BITS-1 of every element into the higher bits. */
    method SignExtend()
      requires Valid()
      requires forall k :: 0 <= k < elements ==> 0 <= values[k] < radix
      modifies values
      ensures Valid()
      ensures forall k :: 0 <= k < elements ==> values[k] == Element(old(values[k]), radix, signed)
    {
      if !signed {
        return;
      }
      FieldFits();
      var i := 0;
      while i < elements
        invariant 0 <= i <= elements
        invariant forall k :: 0 <= k < i ==> values[k] == Element(old(values[k]), radix, signed)
        invariant forall k :: i <= k < elements ==> values[k] == old(values[k])
        invariant forall k :: 0 <= k < elements ==> InElementType(values[k], signed)
      {
        var x := values[i];
        DivModUnique(x, radix, 0, x);
        if x / (radix / 2) % 2 == 1 {
          values[i] := x % radix - radix;
        } else {
          values[i] := x % radix;
        }
        assert values[i] == Element(x, radix, signed);
        i := i + 1;
      }
    }

    /** The cast to a WIDTH-bit vector: each element's low BITS bits written into its range. */
    method ToVector() returns (v: nat)
      requires Valid()
      ensures v == Pack(values[..], radix)
    {
      v := 0;
      var i := 0;
      while i < elements
        invariant 0 <= i <= elements
        invariant v == Pack(values[..i], radix)
      {
        assert values[..i + 1] == values[..i] + [values[i]];
        PackSnoc(values[..i], values[i], radix);
        v := v + Low(values[i], radix) * Power(radix, i);
        i := i + 1;
      }
      assert values[..] == values[..elements];
    }

    /** The cast to uint64: the low 64 bits of the packed vector. */
    method ToUint64() returns (x: nat)
      requires Valid()
      ensures x < UINT64_LIMIT
      ensures x == Pack(values[..], radix) % UINT64_LIMIT
    {
      var v := ToVector();
      x := v % UINT64_LIMIT;
    }

    /** Element access (read). */
    function Get(n: nat): (x: int)
      requires Valid() && n < elements
      reads this, values
      ensures InElementType(x, signed)
    {
      values[n]
    }

    /** Element access (write through the returned reference). */
    method Set(n: nat, x: int)
      requires Valid() && n < elements && InElementType(x, signed)
      modifies values
      ensures Valid()
      ensures values[..] == old(values[..])[n := x]
    {
      values[n] := x;
    }
  }

  /** The vector a dlsc_bv is built from comes back from the cast. */
  method RoundTrip(n: nat, b: nat, isSigned: bool, v: nat) returns (w: nat)
    requires 1 <= b <= 64 && (isSigned ==> b <= 63) && v < Pow2(n * b)
    ensures w == v
  {
    var bv := new Bv.FromVector(n, b, isSigned, v);
    w := bv.ToVector();
    Pow2Width(n, b);
    PackUnpack(v, n, Pow2(b), isSigned);
  }
}

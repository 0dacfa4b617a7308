/** UCOSIII/uC-LIB/lib_mem.h: copying data values of any size between octet orders. */
module OctetOrder {

  type Octet = n: nat | n < 256

  /** The value of octets of which the first is the most significant. */
  function BigValue(s: seq<Octet>): nat {
    if s == [] then 0 else 256 * BigValue(s[..|s| - 1]) + s[|s| - 1]
  }

  /** The value of octets of which the first is the least significant. */
  function LittleValue(s: seq<Octet>): nat {
    if s == [] then 0 else s[0] + 256 * LittleValue(s[1..])
  }

  lemma OctetsInOrder()
    ensures BigValue([0x12, 0x34, 0x56, 0x78]) == 0x1234_5678 && LittleValue([0x12, 0x34, 0x56, 0x78]) == 0x7856_3412
  {
    GetInt32uIsValue([0x12, 0x34, 0x56, 0x78]);
  }

  function Reversed(s: seq<Octet>): (t: seq<Octet>)
    ensures |t| == |s| && forall k :: 0 <= k < |s| ==> t[k] == s[|s| - 1 - k]
  {
    if s == [] then [] else [s[|s| - 1]] + Reversed(s[..|s| - 1])
  }

  /** Reversing the octets turns one order into the other. */
  lemma {:induction false} ReversedValue(s: seq<Octet>)
    ensures LittleValue(Reversed(s)) == BigValue(s)
  {
    if s != [] {
      ReversedValue(s[..|s| - 1]);
      assert Reversed(s)[1..] == Reversed(s[..|s| - 1]);
    }
  }

  lemma ReversedTwice(s: seq<Octet>)
    ensures Reversed(Reversed(s)) == s
  {
  }

  /** The octets that the copy stores. */
  function Converted(bigHost: bool, bigVal: bool, s: seq<Octet>): seq<Octet> {
    if bigHost == bigVal then s else Reversed(s)
  }

  /** MEM_VAL_COPY_GET_INTU_BIG and _LITTLE on hosts of both orders, and their identical
      MEM_VAL_COPY_SET counterparts. The value in the order of the source becomes the same value in
      the order of the host. */
  method CopyGetIntU(bigHost: bool, bigVal: bool, mem: array<Octet>, dest: nat, src: nat, valSize: nat)
    requires dest + valSize <= mem.Length && src + valSize <= mem.Length
    requires dest + valSize <= src || src + valSize <= dest
    modifies mem
    ensures mem[dest..dest + valSize] == Converted(bigHost, bigVal, old(mem[src..src + valSize]))
    ensures OnlyChanged(old(mem[..]), mem[..], dest, dest + valSize)
    ensures var d, s := mem[dest..dest + valSize], old(mem[src..src + valSize]);
            (if bigHost then BigValue(d) else LittleValue(d)) == if bigVal then BigValue(s) else LittleValue(s)
  {
    ghost var was := mem[src..src + valSize];
    if bigHost == bigVal {
      CopyStraight(mem, dest, src, valSize);
    } else {
      CopyReversed(mem, dest, src, valSize);
    }
    ConvertedValue(bigHost, bigVal, was);
  }

  ghost predicate OnlyChanged(m: seq<Octet>, r: seq<Octet>, lo: nat, hi: nat) {
    |r| == |m| && forall k {:trigger r[k]} :: 0 <= k < |m| && !(lo <= k < hi) ==> r[k] == m[k]
  }

  method CopyStraight(mem: array<Octet>, dest: nat, src: nat, valSize: nat)
    requires dest + valSize <= mem.Length && src + valSize <= mem.Length
    requires dest + valSize <= src || src + valSize <= dest
    modifies mem
    ensures mem[dest..dest + valSize] == old(mem[src..src + valSize])
    ensures OnlyChanged(old(mem[..]), mem[..], dest, dest + valSize)
  {
    ghost var m := mem[..];
    for i := 0 to valSize
      invariant OnlyChanged(m, mem[..], dest, dest + i)
      invariant mem[dest..dest + i] == m[src..src + i]
    {
      assert mem[..][src + i] == m[src + i];
      mem[dest + i] := mem[src + i];
      assert mem[dest..dest + i + 1] == mem[dest..dest + i] + [m[src + i]];
    }
  }

  method CopyReversed(mem: array<Octet>, dest: nat, src: nat, valSize: nat)
    requires dest + valSize <= mem.Length && src + valSize <= mem.Length
    requires dest + valSize <= src || src + valSize <= dest
    modifies mem
    ensures mem[dest..dest + valSize] == Reversed(old(mem[src..src + valSize]))
    ensures OnlyChanged(old(mem[..]), mem[..], dest, dest + valSize)
  {
    ghost var m := mem[..];
    ghost var rev := Reversed(m[src..src + valSize]);
    var j := valSize - 1;
    for i := 0 to valSize
      invariant j == valSize - 1 - i
      invariant OnlyChanged(m, mem[..], dest, dest + i)
      invariant mem[dest..dest + i] == rev[..i]
    {
      assert mem[..][src + j] == m[src + j] == rev[i];
      mem[dest + i] := mem[src + j];
      assert mem[dest..dest + i + 1] == mem[dest..dest + i] + [rev[i]];
      j := j - 1;
    }
  }

  lemma ConvertedValue(bigHost: bool, bigVal: bool, s: seq<Octet>)
    ensures var d := Converted(bigHost, bigVal, s);
            (if bigHost then BigValue(d) else LittleValue(d)) == if bigVal then BigValue(s) else LittleValue(s)
  {
    if bigHost != bigVal {
      ReversedValue(s);
      ReversedValue(Reversed(s));
      ReversedTwice(s);
    }
  }

  /** Copying there and back restores the octets. */
  lemma ConvertedTwice(bigHost: bool, bigVal: bool, s: seq<Octet>)
    ensures Converted(bigHost, bigVal, Converted(bigHost, bigVal, s)) == s
  {
    ReversedTwice(s);
  }

  // ---------------------------------------------------------------- fixed widths

  /** The octet of val that counts multiples of p. */
  function OctetAt(val: nat, p: nat): Octet
    requires p > 0
  {
    var shifted: nat := val / p;
    shifted % 256
  }

  /** MEM_VAL_SET_INT32U_BIG. */
  function Int32uBig(val: nat): seq<Octet>
    requires val < 0x1_0000_0000
  {
    [OctetAt(val, 0x100_0000), OctetAt(val, 0x1_0000), OctetAt(val, 0x100), OctetAt(val, 1)]
  }

  /** MEM_VAL_SET_INT32U_LITTLE. */
  function Int32uLittle(val: nat): seq<Octet>
    requires val < 0x1_0000_0000
  {
    [OctetAt(val, 1), OctetAt(val, 0x100), OctetAt(val, 0x1_0000), OctetAt(val, 0x100_0000)]
  }

  /** MEM_VAL_GET_INT32U_BIG. */
  function GetInt32uBig(s: seq<Octet>): nat
    requires |s| == 4
  {
    var a: nat, b: nat, c: nat, d: nat := s[0], s[1], s[2], s[3];
    a * 0x100_0000 + b * 0x1_0000 + c * 0x100 + d
  }

  /** MEM_VAL_GET_INT32U_LITTLE. */
  function GetInt32uLittle(s: seq<Octet>): nat
    requires |s| == 4
  {
    var a: nat, b: nat, c: nat, d: nat := s[0], s[1], s[2], s[3];
    a + b * 0x100 + c * 0x1_0000 + d * 0x100_0000
  }

  /** The 32-bit forms encode and decode the values that the any-size forms copy. */
  lemma Int32uRoundTrip(val: nat)
    requires val < 0x1_0000_0000
    ensures GetInt32uBig(Int32uBig(val)) == val && GetInt32uLittle(Int32uLittle(val)) == val
  {
    FourDigits(val);
  }

  lemma FourDigits(val: nat)
    requires val < 0x1_0000_0000
    ensures val == val / 0x100_0000 % 256 * 0x100_0000 + val / 0x1_0000 % 256 * 0x1_0000
                   + val / 0x100 % 256 * 0x100 + val / 1 % 256
  {
    var a := val / 0x100;
    var b := a / 0x100;
    assert val / 0x1_0000 == b && val / 0x100_0000 == b / 0x100;
    assert val == 0x100 * a + val % 0x100 && a == 0x100 * b + a % 0x100 && b == 0x100 * (b / 0x100) + b % 0x100;
  }

  lemma GetInt32uIsValue(s: seq<Octet>)
    requires |s| == 4
    ensures GetInt32uBig(s) == BigValue(s) && GetInt32uLittle(s) == LittleValue(s)
  {
    var a, b, c := s[..3], s[..2], s[..1];
    assert a[..2] == b && b[..1] == c && c[..0] == [];
    assert BigValue(c) == 256 * BigValue(c[..0]) + s[0];
    assert BigValue(b) == 256 * BigValue(c) + s[1] && BigValue(a) == 256 * BigValue(b) + s[2];
    var x, y, z := s[1..], s[2..], s[3..];
    assert x[1..] == y && y[1..] == z && z[1..] == [];
    assert LittleValue(z) == s[3] + 256 * LittleValue(z[1..]);
    assert LittleValue(y) == s[2] + 256 * LittleValue(z) && LittleValue(x) == s[1] + 256 * LittleValue(y);
  }
}

/** Object representations as byte arrays in the native byte order, with memcpy and memset. */
module Memory {
  type Byte = x: nat | x < 0x100

  datatype Endian = Little | Big

  /** The n bytes of x in memory order. */
  function Bytes(x: nat, n: nat, native: Endian): (s: seq<Byte>)
    ensures |s| == n
  {
    if n == 0 then []
    else if native == Little then [x % 0x100] + Bytes(x / 0x100, n - 1, native)
    else Bytes(x / 0x100, n - 1, native) + [x % 0x100]
  }

  /** The number that a run of bytes stands for. */
  function Number(s: seq<Byte>, native: Endian): nat {
    if s == [] then 0
    else if native == Little then s[0] + 0x100 * Number(s[1..], native)
    else s[|s| - 1] + 0x100 * Number(s[..|s| - 1], native)
  }

  function Capacity(n: nat): nat {
    if n == 0 then 1 else 0x100 * Capacity(n - 1)
  }

  /** Reading back what was stored. */
  lemma {:induction false} NumberOfBytes(x: nat, n: nat, native: Endian)
    requires x < Capacity(n)
    ensures Number(Bytes(x, n, native), native) == x
    decreases n
  {
    if n == 0 {
    } else {
      NumberOfBytes(x / 0x100, n - 1, native);
      var s := Bytes(x, n, native);
      if native == Little {
        assert s[1..] == Bytes(x / 0x100, n - 1, native);
      } else {
        assert s[..n - 1] == Bytes(x / 0x100, n - 1, native);
      }
    }
  }

  /** The more significant half of a four-byte object sits at offset 2 or at offset 0. */
  lemma UpperHalfBytes(x: nat, native: Endian)
    ensures var s := Bytes(x, 4, native);
            (if native == Little then s[2..4] else s[0..2]) == Bytes(x / 0x1_0000, 2, native)
    ensures var s := Bytes(x, 4, native);
            (if native == Little then s[0..2] else s[2..4]) == Bytes(x, 2, native)
  {
  }

  /** A new object holding a value. */
  method Store(x: nat, n: nat, native: Endian) returns (cells: array<Byte>)
    ensures fresh(cells) && cells[..] == Bytes(x, n, native)
  {
    var s := Bytes(x, n, native);
    cells := new Byte[n](i requires 0 <= i < n => s[i]);
  }

  method MemCopy(dst: array<Byte>, to: nat, src: array<Byte>, from: nat, n: nat)
    requires dst != src && to + n <= dst.Length && from + n <= src.Length
    modifies dst
    ensures dst[..] == old(dst[..to]) + src[from..from + n] + old(dst[to + n..])
  {
    forall i | 0 <= i < n {
      dst[to + i] := src[from + i];
    }
  }

  method MemSet(dst: array<Byte>, to: nat, value: Byte, n: nat)
    requires to + n <= dst.Length
    modifies dst
    ensures dst[..] == old(dst[..to]) + seq(n, _ => value) + old(dst[to + n..])
  {
    forall i | 0 <= i < n {
      dst[to + i] := value;
    }
  }
}

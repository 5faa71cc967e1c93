/** Machine words and packet bytes as the strings of their bits, the top bit first. */
module Words {
  type Word = w: seq<bool> | |w| == 32 witness Zeros(32)
  type Byte = b: seq<bool> | |b| == 8 witness Zeros(8)

  function Zeros(n: nat): (r: seq<bool>)
    ensures |r| == n && forall i | 0 <= i < n :: !r[i]
  {
    if n == 0 then [] else Zeros(n - 1) + [false]
  }

  const ONE: Word := Zeros(31) + [true]

  function And(a: Word, b: Word): Word {
    seq(32, i requires 0 <= i < 32 => a[i] && b[i])
  }

  function Or(a: Word, b: Word): Word {
    seq(32, i requires 0 <= i < 32 => a[i] || b[i])
  }

  function Not(a: Word): Word {
    seq(32, i requires 0 <= i < 32 => !a[i])
  }

  function Shl(w: Word, n: nat): Word
    requires n <= 32
  {
    w[n..] + Zeros(n)
  }

  function Shr(w: Word, n: nat): Word
    requires n <= 32
  {
    Zeros(n) + w[..32 - n]
  }

  /** Addition of one, with carry and wrap-around. */
  function Inc(w: seq<bool>): (r: seq<bool>)
    ensures |r| == |w|
  {
    if w == [] then [] else if w[|w| - 1] then Inc(w[..|w| - 1]) + [false] else w[..|w| - 1] + [true]
  }

  /** Host to network byte order and back, on a little-endian processor. */
  function Swap(w: Word): Word {
    w[24..] + w[16..24] + w[8..16] + w[..8]
  }

  function Join(b0: seq<bool>, b1: seq<bool>, b2: seq<bool>, b3: seq<bool>): seq<bool> {
    b0 + b1 + b2 + b3
  }

  /** Four bytes as a little-endian processor loads them. */
  function Load(p: seq<Byte>, at: nat): Word
    requires at + 4 <= |p|
  {
    Join(p[at + 3], p[at + 2], p[at + 1], p[at])
  }

  /** The same four bytes after the processor stored `w` there. */
  function Store(p: seq<Byte>, at: nat, w: Word): (r: seq<Byte>)
    requires at + 4 <= |p|
    ensures |r| == |p|
  {
    p[..at] + [w[24..], w[16..24], w[8..16], w[..8]] + p[at + 4..]
  }

  /** Bit `q` of a packet, in the order it goes on the wire. */
  predicate PacketBit(p: seq<Byte>, q: nat)
    requires q < 8 * |p|
  {
    p[q / 8][q % 8]
  }

  lemma SwapBit(w: Word, i: nat)
    requires i < 32
    ensures Swap(w)[i] == w[24 - i / 8 * 8 + i % 8]
  {
  }

  lemma SwapTwice(w: Word)
    ensures Swap(Swap(w)) == w
  {
    forall i | 0 <= i < 32
      ensures Swap(Swap(w))[i] == w[i]
    {
      SwapBit(w, i);
      SwapBit(Swap(w), i);
    }
  }

  /** The byte swap commutes with the bitwise operators. */
  lemma SwapCommutes(a: Word, b: Word)
    ensures Swap(And(a, b)) == And(Swap(a), Swap(b))
    ensures Swap(Or(a, b)) == Or(Swap(a), Swap(b))
    ensures Swap(Not(a)) == Not(Swap(a))
  {
    forall i | 0 <= i < 32
      ensures Swap(And(a, b))[i] == And(Swap(a), Swap(b))[i]
      ensures Swap(Or(a, b))[i] == Or(Swap(a), Swap(b))[i]
      ensures Swap(Not(a))[i] == Not(Swap(a))[i]
    {
      SwapBit(a, i);
      SwapBit(b, i);
      SwapBit(And(a, b), i);
      SwapBit(Or(a, b), i);
      SwapBit(Not(a), i);
    }
  }

  /** A loaded word, swapped, has the packet's bits in wire order. */
  lemma LoadBits(p: seq<Byte>, at: nat, i: nat)
    requires at + 4 <= |p| && i < 32
    ensures Swap(Load(p, at))[i] == PacketBit(p, 8 * at + i)
  {
    assert Swap(Load(p, at)) == Join(p[at], p[at + 1], p[at + 2], p[at + 3]);
    assert (8 * at + i) / 8 == at + i / 8 && (8 * at + i) % 8 == i % 8;
  }

  /** Storing a word changes its 32 bits of the packet and no others. */
  lemma StoreBits(p: seq<Byte>, at: nat, w: Word, q: nat)
    requires at + 4 <= |p| && q < 8 * |p|
    ensures PacketBit(Store(p, at, w), q) ==
            if 8 * at <= q < 8 * at + 32 then Swap(w)[q - 8 * at] else PacketBit(p, q)
  {
    if 8 * at <= q < 8 * at + 32 {
      var i := q - 8 * at;
      assert q / 8 == at + i / 8 && q % 8 == i % 8;
    }
  }

  /** A packet is determined by its bits. */
  lemma SamePacket(p: seq<Byte>, r: seq<Byte>)
    requires |p| == |r| && forall q | 0 <= q < 8 * |p| :: PacketBit(p, q) == PacketBit(r, q)
    ensures p == r
  {
    forall j | 0 <= j < |p|
      ensures p[j] == r[j]
    {
      forall i | 0 <= i < 8
        ensures p[j][i] == r[j][i]
      {
        assert PacketBit(p, 8 * j + i) == PacketBit(r, 8 * j + i);
      }
    }
  }
}

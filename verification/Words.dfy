/** Bytes, 32-bit words and the flat memory that code, trampolines and hook pointers live in. */
module Words {
  const TWO32: int := 0x1_0000_0000

  type Byte = b: int | 0 <= b < 256
  type Word = w: int | 0 <= w < TWO32

  type Memory = seq<Byte>

  datatype Option<+T> = None | Some(value: T)

  // Address and displacement arithmetic is modulo 2^32.
  function Wrap(x: int): Word { x % TWO32 }

  function Signed8(b: Byte): int { if b < 0x80 then b else b - 0x100 }

  function Signed16(h: int): int
    requires 0 <= h < 0x10000
  {
    if h < 0x8000 then h else h - 0x10000
  }

  function Signed32(w: Word): int { if w < 0x8000_0000 then w else w - TWO32 }

  // Two's complement: the number of that many bits that is the same modulo a power of two.
  lemma {:induction false} SignedAre(b: Byte, h: int, w: Word)
    requires 0 <= h < 0x1_0000
    ensures -0x80 <= Signed8(b) < 0x80 && (Signed8(b) - b) % 0x100 == 0
    ensures -0x8000 <= Signed16(h) < 0x8000 && (Signed16(h) - h) % 0x1_0000 == 0
    ensures -0x8000_0000 <= Signed32(w) < 0x8000_0000 && (Signed32(w) - w) % 0x1_0000_0000 == 0
  {
  }

  // Little-endian reads.
  function U16At(m: Memory, a: nat): int
    requires a + 2 <= |m|
  {
    m[a] as int + 0x100 * m[a + 1] as int
  }

  function U32At(m: Memory, a: nat): Word
    requires a + 4 <= |m|
  {
    m[a] as int + 0x100 * m[a + 1] as int + 0x1_0000 * m[a + 2] as int + 0x100_0000 * m[a + 3] as int
  }

  // Little-endian bytes of a 16-bit and a 32-bit value.
  function ByteOf(x: nat, k: nat): Byte
  {
    (if k == 0 then x else if k == 1 then x / 0x100 else if k == 2 then x / 0x100 / 0x100 else x / 0x100 / 0x100 / 0x100) % 0x100
  }

  function Le16(h: int): (s: seq<Byte>)
    requires 0 <= h < 0x10000
    ensures |s| == 2
  {
    seq(2, k requires 0 <= k < 2 => ByteOf(h, k))
  }

  function Le32(w: Word): (s: seq<Byte>)
    ensures |s| == 4
  {
    seq(4, k requires 0 <= k < 4 => ByteOf(w, k))
  }

  lemma {:induction false} Le32RoundTrip(w: Word)
    ensures U32At(Le32(w), 0) == w
  {
  }

  lemma {:induction false} Le16RoundTrip(h: int)
    requires 0 <= h < 0x10000
    ensures U16At(Le16(h), 0) == h
  {
  }

  // The memory with the bytes s stored at a.
  function Written(m: Memory, a: nat, s: seq<Byte>): (r: Memory)
    requires a + |s| <= |m|
    ensures |r| == |m|
  {
    seq(|m|, k requires 0 <= k < |m| => if a <= k < a + |s| then s[k - a] else m[k])
  }

  lemma {:induction false} WrittenTwice(m: Memory, a: nat, s: seq<Byte>, t: seq<Byte>)
    requires a + |s| + |t| <= |m|
    ensures Written(Written(m, a, s), a + |s|, t) == Written(m, a, s + t)
  {
  }

  // The bytes s stand at a.
  ghost predicate Holds(m: Memory, a: nat, s: seq<Byte>)
  {
    a + |s| <= |m| && forall k :: 0 <= k < |s| ==> m[a + k] == s[k]
  }

  lemma {:induction false} HoldsBoth(m: Memory, a: nat, s: seq<Byte>, t: seq<Byte>)
    ensures Holds(m, a, s + t) <==> Holds(m, a, s) && Holds(m, a + |s|, t)
  {
    var e := s + t;
    assert forall k :: 0 <= k < |s| ==> s[k] == e[k];
    if Holds(m, a, e) {
      forall k | 0 <= k < |t|
        ensures m[a + |s| + k] == t[k]
      {
        assert e[|s| + k] == t[k];
      }
    }
  }

  lemma {:induction false} WrittenHolds(m: Memory, a: nat, s: seq<Byte>)
    requires a + |s| <= |m|
    ensures Holds(Written(m, a, s), a, s)
  {
  }

  // A write elsewhere leaves s standing.
  lemma {:induction false} HoldsAfterWrite(m: Memory, a: nat, s: seq<Byte>, b: nat, t: seq<Byte>)
    requires Holds(m, a, s) && b + |t| <= |m| && (a + |s| <= b || b + |t| <= a)
    ensures Holds(Written(m, b, t), a, s)
  {
  }

  lemma {:induction false} Holds32(m: Memory, a: nat, w: Word)
    requires Holds(m, a, Le32(w))
    ensures U32At(m, a) == w
  {
    var s := Le32(w);
    assert m[a] == s[0] && m[a + 1] == s[1] && m[a + 2] == s[2] && m[a + 3] == s[3];
    Le32RoundTrip(w);
  }

  // The process's memory. Code, trampolines and hook pointers are all in it.
  class AddressSpace {
    var bytes: Memory

    method Store(a: nat, s: seq<Byte>)
      requires a + |s| <= |bytes|
      modifies this
      ensures bytes == Written(old(bytes), a, s)
    {
      bytes := Written(bytes, a, s);
    }
  }

  // A byte shifted and reduced is still the same displacement modulo 2^32.
  lemma {:induction false} SignedWraps(x: int)
    ensures Wrap(Signed32(Wrap(x))) == Wrap(x)
    ensures -0x8000_0000 <= x < 0x8000_0000 ==> Signed32(Wrap(x)) == x
  {
  }

  lemma {:induction false} WrapMultiple(x: int, k: int)
    ensures Wrap(x + TWO32 * k) == Wrap(x)
  {
    assert x + TWO32 * k == TWO32 * (x / TWO32 + k) + x % TWO32;
  }

  lemma {:induction false} WrapAdd(x: int, y: int)
    ensures Wrap(Wrap(x) + y) == Wrap(x + y)
    ensures Wrap(x + Signed32(Wrap(y))) == Wrap(x + y)
  {
    var k, j := x / TWO32, y / TWO32;
    assert Wrap(x) + y == x + y + TWO32 * -k;
    WrapMultiple(x + y, -k);
    WrapMultiple(x + y, -j);
    WrapMultiple(x + y, -j - 1);
  }

  // Truncating to fewer bits than 32 does not see the wrap-around.
  lemma {:induction false} WrapMod8(x: int)
    ensures Wrap(x) % 0x100 == x % 0x100
  {
    assert x == 0x100 * (0x100_0000 * (x / TWO32)) + Wrap(x);
  }

  lemma {:induction false} WrapMod16(x: int)
    ensures Wrap(x) % 0x1_0000 == x % 0x1_0000
  {
    assert x == 0x1_0000 * (0x1_0000 * (x / TWO32)) + Wrap(x);
  }

  lemma {:induction false} SignedMod8(x: int)
    ensures Signed32(Wrap(x)) % 0x100 == x % 0x100
  {
    WrapMod8(x);
    var w: int := Wrap(x);
    assert (w - 0x100 * 0x100_0000) % 0x100 == w % 0x100;
  }

  lemma {:induction false} SignedMod16(x: int)
    ensures Signed32(Wrap(x)) % 0x1_0000 == x % 0x1_0000
  {
    WrapMod16(x);
    var w: int := Wrap(x);
    assert (w - 0x1_0000 * 0x1_0000) % 0x1_0000 == w % 0x1_0000;
  }
}

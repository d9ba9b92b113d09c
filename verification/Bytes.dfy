/** Fixed-width words, big-endian fields of a packet, and optional values. */
module Bytes {
  datatype Option<T> = None | Some(value: T)

  type byte = n: int | 0 <= n < 0x100
  type u16 = n: int | 0 <= n < 0x1_0000
  type u32 = n: int | 0 <= n < 0x1_0000_0000
  type u64 = n: int | 0 <= n < 0x1_0000_0000_0000_0000

  type Mac = s: seq<byte> | |s| == 6 witness [0, 0, 0, 0, 0, 0]

  const U32_SIZE: nat := 0x1_0000_0000
  const U64_SIZE: nat := 0x1_0000_0000_0000_0000

  /** What a 64-bit counter shows after counting to `n`. */
  function Wrap64(n: nat): u64 {
    n % U64_SIZE
  }

  /** Reducing a 64-bit counter early does not change what it counts to. */
  lemma AddMod(x: nat, d: nat)
    ensures (x % U64_SIZE + d) % U64_SIZE == (x + d) % U64_SIZE
  {
  }

  /** The big-endian 16-bit field at offset `o`. */
  function Be16(f: seq<byte>, o: nat): u16
    requires o + 2 <= |f|
  {
    (f[o] as int) * 0x100 + f[o + 1]
  }

  /** The big-endian 32-bit field at offset `o`. */
  function Be32(f: seq<byte>, o: nat): u32
    requires o + 4 <= |f|
  {
    (Be16(f, o) as int) * 0x1_0000 + Be16(f, o + 2)
  }

  function Enc16(v: u16): (s: seq<byte>)
    ensures |s| == 2 && Be16(s, 0) == v
  {
    [v / 0x100, v % 0x100]
  }

  function Enc32(v: u32): (s: seq<byte>)
    ensures |s| == 4 && Be32(s, 0) == v
  {
    Enc16(v / 0x1_0000) + Enc16(v % 0x1_0000)
  }

  /** `f` with the bytes from offset `o` on overwritten by `s`. */
  function Patch(f: seq<byte>, o: nat, s: seq<byte>): (r: seq<byte>)
    requires o + |s| <= |f|
    ensures |r| == |f|
    ensures forall i :: 0 <= i < |f| ==> r[i] == if o <= i < o + |s| then s[i - o] else f[i]
  {
    f[..o] + s + f[o + |s|..]
  }

  /** Writes a big-endian 16-bit field. */
  function Put16(f: seq<byte>, o: nat, v: u16): (r: seq<byte>)
    requires o + 2 <= |f|
    ensures |r| == |f| && Be16(r, o) == v
    ensures forall i :: 0 <= i < |f| && !(o <= i < o + 2) ==> r[i] == f[i]
  {
    Patch(f, o, Enc16(v))
  }

  /** Writes a big-endian 32-bit field. */
  function Put32(f: seq<byte>, o: nat, v: u32): (r: seq<byte>)
    requires o + 4 <= |f|
    ensures |r| == |f| && Be32(r, o) == v
    ensures forall i :: 0 <= i < |f| && !(o <= i < o + 4) ==> r[i] == f[i]
  {
    Be32Patched(f, o, v);
    Patch(f, o, Enc32(v))
  }

  lemma Be32Patched(f: seq<byte>, o: nat, v: u32)
    requires o + 4 <= |f|
    ensures Be32(Patch(f, o, Enc32(v)), o) == v
  {
    var p, e := Patch(f, o, Enc32(v)), Enc32(v);
    assert p[o] == e[0] && p[o + 1] == e[1] && p[o + 2] == e[2] && p[o + 3] == e[3];
  }

  /** A field occupies exactly its bytes: reading then writing changes nothing. */
  lemma Be16Bytes(f: seq<byte>, o: nat)
    requires o + 2 <= |f|
    ensures Enc16(Be16(f, o)) == f[o..o + 2]
  {
  }

  lemma SplitWords(hi: u16, lo: u16)
    ensures (hi * 0x1_0000 + lo) / 0x1_0000 == hi && (hi * 0x1_0000 + lo) % 0x1_0000 == lo
  {
  }

  lemma Be32Bytes(f: seq<byte>, o: nat)
    requires o + 4 <= |f|
    ensures Enc32(Be32(f, o)) == f[o..o + 4]
  {
    Be16Bytes(f, o);
    Be16Bytes(f, o + 2);
    SplitWords(Be16(f, o), Be16(f, o + 2));
    assert f[o..o + 4] == f[o..o + 2] + f[o + 2..o + 4];
  }
}

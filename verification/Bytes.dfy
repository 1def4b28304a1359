/** Little-endian integers inside byte strings, as the kernel reads and writes them through casts. */
module Bytes {

  type byte = x: int | 0 <= x < 256

  datatype Option<+T> = None | Some(value: T)

  const U16 := 0x1_0000
  const U32 := 0x1_0000_0000

  function Get16(s: seq<byte>, o: nat): (v: nat)
    requires o + 2 <= |s|
    ensures v < U16
  {
    s[o] as int + 0x100 * (s[o + 1] as int)
  }

  function Get32(s: seq<byte>, o: nat): (v: nat)
    requires o + 4 <= |s|
    ensures v < U32
  {
    s[o] as int + 0x100 * (s[o + 1] as int) + 0x1_0000 * (s[o + 2] as int) + 0x100_0000 * (s[o + 3] as int)
  }

  function Enc16(v: nat): (r: seq<byte>)
    requires v < U16
    ensures |r| == 2
    ensures Get16(r, 0) == v
  {
    [v % 0x100, v / 0x100]
  }

  lemma FourBytes(v: nat)
    requires v < U32
    ensures v == v % 0x100 + 0x100 * (v / 0x100 % 0x100)
                 + 0x1_0000 * (v / 0x1_0000 % 0x100) + 0x100_0000 * (v / 0x100_0000)
    ensures v / 0x100_0000 < 0x100
  {
    var p, q := v / 0x100, v / 0x1_0000;
    assert v == v % 0x100 + 0x100 * p;
    assert q == p / 0x100 && p == p % 0x100 + 0x100 * q;
    assert v / 0x100_0000 == q / 0x100 && q == q % 0x100 + 0x100 * (q / 0x100);
  }

  function Enc32(v: nat): (r: seq<byte>)
    requires v < U32
    ensures |r| == 4
    ensures Get32(r, 0) == v
  {
    FourBytes(v);
    [v % 0x100, v / 0x100 % 0x100, v / 0x1_0000 % 0x100, v / 0x100_0000]
  }

  /** The bytes of s with the little-endian word v stored at offset o. */
  function Put32(s: seq<byte>, o: nat, v: nat): (r: seq<byte>)
    requires o + 4 <= |s|
    requires v < U32
    ensures |r| == |s|
  {
    s[..o] + Enc32(v) + s[o + 4..]
  }

  /** The store through a cast pointer. */
  method StoreWord(a: array<byte>, o: nat, v: nat)
    requires o + 4 <= a.Length && v < U32
    modifies a
    ensures a[..] == Put32(old(a[..]), o, v)
  {
    var e := Enc32(v);
    a[o], a[o + 1], a[o + 2], a[o + 3] := e[0], e[1], e[2], e[3];
  }

  lemma Get32Of(s: seq<byte>, t: seq<byte>, o: nat)
    requires o + 4 <= |s| && |t| == 4
    requires s[o..o + 4] == t
    ensures Get32(s, o) == Get32(t, 0)
  {
    var u := s[o..o + 4];
    assert u[0] == s[o] && u[1] == s[o + 1] && u[2] == s[o + 2] && u[3] == s[o + 3];
  }

  lemma Get16Of(s: seq<byte>, t: seq<byte>, o: nat)
    requires o + 2 <= |s| && |t| == 2
    requires s[o..o + 2] == t
    ensures Get16(s, o) == Get16(t, 0)
  {
    var u := s[o..o + 2];
    assert u[0] == s[o] && u[1] == s[o + 1];
  }

  /** A stored word reads back, and every word that does not overlap it keeps its value. */
  lemma Put32Get32(s: seq<byte>, o: nat, v: nat, p: nat)
    requires o + 4 <= |s| && v < U32 && p + 4 <= |s|
    requires p == o || p + 4 <= o || o + 4 <= p
    ensures Get32(Put32(s, o, v), p) == if p == o then v else Get32(s, p)
  {
    var r := Put32(s, o, v);
    if p == o {
      assert r[o..o + 4] == Enc32(v);
      Get32Of(r, Enc32(v), o);
    } else {
      assert r[p] == s[p] && r[p + 1] == s[p + 1] && r[p + 2] == s[p + 2] && r[p + 3] == s[p + 3];
    }
  }
}

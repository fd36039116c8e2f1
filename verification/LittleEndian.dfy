/** Little-endian integers (src/format.rs, "Byte order helpers"). */
module LittleEndian {
  import opened Prelude

  function Pow256(w: nat): nat {
    if w == 0 then 1 else 256 * Pow256(w - 1)
  }

  lemma Widths()
    ensures Pow256(2) == U16 && Pow256(4) == U32 && Pow256(8) == U64
  {
    assert Pow256(4) == 256 * 256 * Pow256(2);
    assert Pow256(6) == 256 * 256 * Pow256(4);
    assert Pow256(8) == 256 * 256 * Pow256(6);
  }

  /** The low `w` bytes of `n`, least significant first. */
  function Le(w: nat, n: nat): (s: Bytes)
    ensures |s| == w
  {
    if w == 0 then [] else [n % 256] + Le(w - 1, n / 256)
  }

  function FromLe(s: Bytes): (n: nat)
    ensures n < Pow256(|s|)
  {
    if s == [] then 0 else s[0] + 256 * FromLe(s[1..])
  }

  lemma {:induction false} LeRoundTrip(w: nat, n: nat)
    requires n < Pow256(w)
    ensures FromLe(Le(w, n)) == n
  {
    if w > 0 {
      LeRoundTrip(w - 1, n / 256);
      assert Le(w, n)[1..] == Le(w - 1, n / 256);
    }
  }

  function ReadU16(s: Bytes): u16
    requires |s| >= 2
  {
    Widths();
    FromLe(s[..2])
  }

  function ReadU32(s: Bytes): u32
    requires |s| >= 4
  {
    Widths();
    FromLe(s[..4])
  }

  function ReadU64(s: Bytes): u64
    requires |s| >= 8
  {
    Widths();
    FromLe(s[..8])
  }

  // --- The same digit by digit ---

  /** The number in the two, four or eight bytes from i on, least significant first. */
  function Number2(s: Bytes, i: nat): int
    requires i + 2 <= |s|
  {
    var low: int, high: int := s[i], s[i + 1];
    low + 0x100 * high
  }

  function Number4(s: Bytes, i: nat): int
    requires i + 4 <= |s|
  {
    Number2(s, i) + 0x1_0000 * Number2(s, i + 2)
  }

  function Number8(s: Bytes, i: nat): int
    requires i + 8 <= |s|
  {
    Number4(s, i) + 0x1_0000_0000 * Number4(s, i + 4)
  }

  /** The byte order, on the bytes themselves. */
  lemma ReadsDigits(s: Bytes, i: nat)
    ensures i + 2 <= |s| ==> ReadU16(s[i..]) == Number2(s, i)
    ensures i + 4 <= |s| ==> ReadU32(s[i..]) == Number4(s, i)
    ensures i + 8 <= |s| ==> ReadU64(s[i..]) == Number8(s, i)
  {
    hide Number2, Number4;
    if i + 2 <= |s| { assert s[i..][..2] == s[i..i + 2]; TwoDigits(s, i); }
    if i + 4 <= |s| { assert s[i..][..4] == s[i..i + 4]; FourDigits(s, i); }
    if i + 8 <= |s| { assert s[i..][..8] == s[i..i + 8]; EightDigits(s, i); }
  }

  lemma TwoDigits(s: Bytes, i: nat)
    requires i + 2 <= |s|
    ensures FromLe(s[i..i + 2]) == Number2(s, i)
  {
    FromLeSplit([s[i]], [s[i + 1]]);
    assert s[i..i + 2] == [s[i]] + [s[i + 1]];
    assert FromLe([s[i]]) == s[i] && FromLe([s[i + 1]]) == s[i + 1];
  }

  lemma FourDigits(s: Bytes, i: nat)
    requires i + 4 <= |s|
    ensures FromLe(s[i..i + 4]) == Number4(s, i)
  {
    hide FromLe, Number2;
    TwoDigits(s, i);
    TwoDigits(s, i + 2);
    Widths();
    FromLeSplit(s[i..i + 2], s[i + 2..i + 4]);
    assert s[i..i + 4] == s[i..i + 2] + s[i + 2..i + 4];
  }

  lemma EightDigits(s: Bytes, i: nat)
    requires i + 8 <= |s|
    ensures FromLe(s[i..i + 8]) == Number8(s, i)
  {
    hide FromLe, Number4;
    FourDigits(s, i);
    FourDigits(s, i + 4);
    Widths();
    FromLeSplit(s[i..i + 4], s[i + 4..i + 8]);
    assert s[i..i + 8] == s[i..i + 4] + s[i + 4..i + 8];
  }

  lemma {:induction false} FromLeSplit(a: Bytes, b: Bytes)
    ensures FromLe(a + b) == FromLe(a) + Pow256(|a|) * FromLe(b)
  {
    if a == [] {
      assert a + b == b;
    } else {
      FromLeSplit(a[1..], b);
      FromLeFront(a, b);
      Distribute(FromLe(a[1..]), Pow256(|a| - 1), FromLe(b));
    }
  }

  lemma FromLeFront(a: Bytes, b: Bytes)
    requires a != []
    ensures FromLe(a + b) == a[0] + 256 * FromLe(a[1..] + b) && FromLe(a) == a[0] + 256 * FromLe(a[1..])
  {
    assert (a + b)[1..] == a[1..] + b;
  }

  lemma Distribute(x: nat, p: nat, f: nat)
    ensures 256 * (x + p * f) == 256 * x + 256 * p * f
  {
  }

  function LeU16(n: u16): (s: Bytes)
    ensures |s| == 2
  {
    Le(2, n)
  }

  function LeU32(n: u32): (s: Bytes)
    ensures |s| == 4
  {
    Le(4, n)
  }

  function LeU64(n: u64): (s: Bytes)
    ensures |s| == 8
  {
    Le(8, n)
  }

  lemma ReadLeU16(n: u16, rest: Bytes)
    ensures ReadU16(LeU16(n) + rest) == n
  {
    Widths();
    LeRoundTrip(2, n);
    assert (LeU16(n) + rest)[..2] == Le(2, n);
  }

  lemma ReadLeU32(n: u32, rest: Bytes)
    ensures ReadU32(LeU32(n) + rest) == n
  {
    Widths();
    LeRoundTrip(4, n);
    assert (LeU32(n) + rest)[..4] == Le(4, n);
  }

  lemma ReadLeU64(n: u64, rest: Bytes)
    ensures ReadU64(LeU64(n) + rest) == n
  {
    Widths();
    LeRoundTrip(8, n);
    assert (LeU64(n) + rest)[..8] == Le(8, n);
  }

  // --- Writing into a byte buffer ---

  /** `s` with `bytes` laid over it from `off`. */
  function Overlay(s: Bytes, off: nat, bytes: Bytes): (r: Bytes)
    requires off + |bytes| <= |s|
    ensures |r| == |s|
    ensures r[off..off + |bytes|] == bytes
    ensures r[..off] == s[..off] && r[off + |bytes|..] == s[off + |bytes|..]
  {
    s[..off] + bytes + s[off + |bytes|..]
  }

  lemma OverlayTwice(s: Bytes, off: nat, a: Bytes, b: Bytes)
    requires off + |a| + |b| <= |s|
    ensures Overlay(Overlay(s, off, a), off + |a|, b) == Overlay(s, off, a + b)
    ensures Overlay(s, off, a + b)[..off + |a| + |b|] == s[..off] + a + b
  {
    var t := Overlay(s, off, a);
    assert t[..off + |a|] == s[..off] + a;
    assert t[off + |a| + |b|..] == s[off + |a| + |b|..];
    assert s[..off] + a + b == s[..off] + (a + b);
  }

  /** Filling a buffer from the front. */
  lemma OverlayNext(head: Bytes, rest: Bytes, bytes: Bytes)
    requires |bytes| <= |rest|
    ensures Overlay(head + rest, |head|, bytes) == head + bytes + rest[|bytes|..]
  {
    assert (head + rest)[..|head|] == head;
    assert (head + rest)[|head| + |bytes|..] == rest[|bytes|..];
  }

  lemma OverlayStart(s: Bytes, bytes: Bytes)
    requires |bytes| <= |s|
    ensures Overlay(s, 0, bytes) == bytes + s[|bytes|..]
  {
  }

  method CopyInto(buf: array<byte>, off: nat, bytes: Bytes)
    requires off + |bytes| <= buf.Length
    modifies buf
    ensures buf[..] == Overlay(old(buf[..]), off, bytes)
  {
    ghost var was := buf[..];
    for i := 0 to |bytes|
      invariant buf[..off] == was[..off]
      invariant buf[off..off + i] == bytes[..i]
      invariant buf[off + i..] == was[off + i..]
    {
      buf[off + i] := bytes[i];
      assert buf[off..off + i + 1] == buf[off..off + i] + [bytes[i]];
      assert bytes[..i + 1] == bytes[..i] + [bytes[i]];
    }
    assert buf[..] == buf[..off] + buf[off..off + |bytes|] + buf[off + |bytes|..];
  }
}

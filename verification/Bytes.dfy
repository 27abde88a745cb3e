/** Bytes, little-endian integers and in-place buffer writes shared by every codec. */
module Bytes {

  type byte = b: int | 0 <= b < 256

  datatype Option<+T> = None | Some(value: T)

  const U16: nat := 0x1_0000
  const U32: nat := 0x1_0000_0000
  const U64: nat := 0x1_0000_0000_0000_0000

  function Min(a: int, b: int): int { if a <= b then a else b }

  function Max(a: int, b: int): int { if a <= b then b else a }

  /** 256 to the power w: how many values w bytes can hold. */
  function Span(w: nat): (n: nat)
    ensures n >= 1
  {
    if w == 0 then 1 else 256 * Span(w - 1)
  }

  lemma SpanValues()
    ensures Span(2) == U16 && Span(4) == U32 && Span(8) == U64
  {
    assert Span(2) == 256 * Span(1) == 65536;
    assert Span(4) == 256 * Span(3) && Span(3) == 256 * Span(2);
    assert Span(8) == 256 * Span(7) && Span(7) == 256 * Span(6);
    assert Span(6) == 256 * Span(5) && Span(5) == 256 * Span(4);
  }

  /** The w low-order bytes of n, least significant first. */
  function LE(n: nat, w: nat): (r: seq<byte>)
    ensures |r| == w
  {
    if w == 0 then [] else [n % 256] + LE(n / 256, w - 1)
  }

  function FromLE(s: seq<byte>): nat
  {
    if s == [] then 0 else s[0] + 256 * FromLE(s[1..])
  }

  lemma {:induction false} LERoundTrip(n: nat, w: nat)
    requires n < Span(w)
    ensures FromLE(LE(n, w)) == n
  {
    if w > 0 {
      LERoundTrip(n / 256, w - 1);
      assert LE(n, w)[1..] == LE(n / 256, w - 1);
    }
  }

  lemma {:induction false} FromLERoundTrip(s: seq<byte>)
    ensures FromLE(s) < Span(|s|)
    ensures LE(FromLE(s), |s|) == s
  {
    if s != [] {
      FromLERoundTrip(s[1..]);
      assert s == [s[0]] + s[1..];
    }
  }

  lemma U16RoundTrip(n: nat)
    requires n < U16
    ensures FromLE(LE(n, 2)) == n
  {
    SpanValues();
    LERoundTrip(n, 2);
  }

  lemma U32RoundTrip(n: nat)
    requires n < U32
    ensures FromLE(LE(n, 4)) == n
  {
    SpanValues();
    LERoundTrip(n, 4);
  }

  lemma U64RoundTrip(n: nat)
    requires n < U64
    ensures FromLE(LE(n, 8)) == n
  {
    SpanValues();
    LERoundTrip(n, 8);
  }

  lemma FromLEBounds(s: seq<byte>)
    ensures |s| == 2 ==> FromLE(s) < U16
    ensures |s| == 4 ==> FromLE(s) < U32
    ensures |s| == 8 ==> FromLE(s) < U64
    ensures LE(FromLE(s), |s|) == s
  {
    SpanValues();
    FromLERoundTrip(s);
  }

  function Concat(pieces: seq<seq<byte>>): seq<byte>
  {
    if pieces == [] then [] else pieces[0] + Concat(pieces[1..])
  }

  lemma {:induction false} ConcatAppend(a: seq<seq<byte>>, b: seq<seq<byte>>)
    ensures Concat(a + b) == Concat(a) + Concat(b)
  {
    if a == [] {
      assert a + b == b;
    } else {
      assert (a + b)[1..] == a[1..] + b;
      ConcatAppend(a[1..], b);
    }
  }

  lemma ConcatSnoc(a: seq<seq<byte>>, x: seq<byte>)
    ensures Concat(a + [x]) == Concat(a) + x
  {
    ConcatAppend(a, [x]);
    assert Concat([x]) == x + Concat([]) == x;
  }

  /** Go's `copy(b[off:], src)` for a source that fits. */
  method CopyInto(b: array<byte>, off: nat, src: seq<byte>)
    requires off + |src| <= b.Length
    modifies b
    ensures b[..off + |src|] == old(b[..off]) + src
    ensures b[off + |src|..] == old(b[off + |src|..])
  {
    for i := 0 to |src|
      invariant forall k :: 0 <= k < off ==> b[k] == old(b[k])
      invariant forall k :: 0 <= k < i ==> b[off + k] == src[k]
      invariant forall k :: off + i <= k < b.Length ==> b[k] == old(b[k])
    {
      b[off + i] := src[i];
    }
  }

  /** binary.LittleEndian.PutUint16/32/64 into b[off:off+w]. */
  method PutLE(b: array<byte>, off: nat, n: nat, w: nat)
    requires off + w <= b.Length
    modifies b
    ensures b[..off + w] == old(b[..off]) + LE(n, w)
    ensures b[off + w..] == old(b[off + w..])
  {
    CopyInto(b, off, LE(n, w));
  }

  /** Go's `copy(buf, buf[from:to])`, source and target overlapping. */
  method SlideDown(buf: array<byte>, from: nat, to: nat)
    requires from <= to <= buf.Length
    modifies buf
    ensures buf[..to - from] == old(buf[from..to])
  {
    for i := 0 to to - from
      invariant forall k :: 0 <= k < i ==> buf[k] == old(buf[from + k])
      invariant forall k :: i <= k < buf.Length ==> buf[k] == old(buf[k])
    {
      buf[i] := buf[from + i];
    }
  }
}

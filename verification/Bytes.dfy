/** Byte type shared by the modules that work on raw memory, and the copy primitive they use. */
module Bytes {
  type byte = x: int | 0 <= x < 256

  /** How many values an unsigned 32-bit number has. */
  const U32_RANGE: nat := 0x1_0000_0000

  function Min(a: nat, b: nat): nat {
    if a < b then a else b
  }

  /** A buffer whose cells from position at on have been overwritten by src. */
  ghost function Overlay<T>(cells: seq<T>, at: nat, src: seq<T>): (r: seq<T>)
    requires at + |src| <= |cells|
    ensures |r| == |cells|
  {
    seq(|cells|, i requires 0 <= i < |cells| => if at <= i < at + |src| then src[i - at] else cells[i])
  }

  /** Two copies one after the other leave their concatenation. */
  lemma OverlayTwice<T>(cells: seq<T>, at: nat, a: seq<T>, b: seq<T>)
    requires at + |a| + |b| <= |cells|
    ensures Overlay(Overlay(cells, at, a), at + |a|, b) == Overlay(cells, at, a + b)
    ensures Overlay(cells, at, a + b)[at..at + |a| + |b|] == a + b
  {
  }

  /** mem_copy of a block to position at of a buffer; nothing outside the block changes. */
  method MemCopy<T>(dst: array<T>, at: nat, src: seq<T>)
    requires at + |src| <= dst.Length
    modifies dst
    ensures dst[..] == Overlay(old(dst[..]), at, src)
  {
    forall i | 0 <= i < |src| {
      dst[at + i] := src[i];
    }
  }

  /** Several pieces one behind the other. */
  function Concat<T>(pieces: seq<seq<T>>): seq<T> {
    if pieces == [] then [] else pieces[0] + Concat(pieces[1..])
  }

  lemma {:induction false} ConcatParts<T>(a: seq<seq<T>>, b: seq<seq<T>>)
    ensures Concat(a + b) == Concat(a) + Concat(b)
  {
    if a == [] {
      assert a + b == b;
    } else {
      assert (a + b)[1..] == a[1..] + b;
      ConcatParts(a[1..], b);
    }
  }

  lemma ConcatAppend<T>(a: seq<seq<T>>, b: seq<T>)
    ensures Concat(a + [b]) == Concat(a) + b
  {
    ConcatParts(a, [b]);
  }
}

/** memmove of lab8/libs/string.c on one memory of bytes. */
module Memory {
  import opened Bytes

  /** The memory after copying n bytes from s to d: the destination is the old source, the rest is as before. */
  ghost predicate Moved(before: seq<byte>, after: seq<byte>, d: nat, s: nat, n: nat)
    requires s + n <= |before| && d + n <= |before|
  {
    && |after| == |before|
    && after[d..d + n] == before[s..s + n]
    && after[..d] == before[..d]
    && after[d + n..] == before[d + n..]
  }

  /** Position i of that memory. */
  ghost function MovedByte(before: seq<byte>, d: nat, s: nat, n: nat, i: nat): byte
    requires s + n <= |before| && i < |before|
  {
    if d <= i < d + n then before[i - d + s] else before[i]
  }

  lemma MovedPointwise(before: seq<byte>, after: seq<byte>, d: nat, s: nat, n: nat)
    requires s + n <= |before| && d + n <= |before| && |after| == |before|
    requires forall i: nat | i < |before| :: after[i] == MovedByte(before, d, s, n, i)
    ensures Moved(before, after, d, s, n)
  {
    forall i | d <= i < d + n ensures after[i] == before[i - d + s] {
      assert after[i] == MovedByte(before, d, s, n, i);
    }
    assert after[d..d + n] == before[s..s + n];
    assert after[..d] == before[..d];
    assert after[d + n..] == before[d + n..];
  }

  /** The copy from the end, for a source below an overlapping destination. */
  method CopyDown(mem: array<byte>, dst: nat, src: nat, len: nat)
    requires src < dst && dst + len <= mem.Length
    modifies mem
    ensures forall i: nat | i < mem.Length :: mem[i] == MovedByte(old(mem[..]), dst, src, len, i)
  {
    ghost var was := mem[..];
    var s, d, n := src + len, dst + len, len;
    while n > 0
      invariant 0 <= n <= len && s == src + n && d == dst + n
      invariant forall i: nat | i < mem.Length :: mem[i] == if i < d then was[i] else MovedByte(was, dst, src, len, i)
    {
      n, s, d := n - 1, s - 1, d - 1;
      mem[d] := mem[s];
    }
  }

  /** The copy from the start. */
  method CopyUp(mem: array<byte>, dst: nat, src: nat, len: nat)
    requires src + len <= mem.Length && dst + len <= mem.Length
    modifies mem
    ensures mem[..] == CopiedUp(old(mem[..]), dst, src, len)
  {
    ghost var was := mem[..];
    var s, d, n := src, dst, len;
    while n > 0
      invariant 0 <= n <= len && s == src + len - n && d == dst + len - n
      invariant CopiedUp(mem[..], d, s, n) == CopiedUp(was, dst, src, len)
    {
      ghost var m := mem[..];
      mem[d] := mem[s];
      assert mem[..] == m[d := m[s]];
      n, s, d := n - 1, s + 1, d + 1;
    }
  }

  /** memmove, for any two ranges of the memory. */
  method Memmove(mem: array<byte>, dst: nat, src: nat, n: nat) returns (r: nat)
    requires src + n <= mem.Length && dst + n <= mem.Length
    modifies mem
    ensures r == dst && Moved(old(mem[..]), mem[..], dst, src, n)
  {
    if src < dst && src + n > dst {
      CopyDown(mem, dst, src, n);
      MovedPointwise(old(mem[..]), mem[..], dst, src, n);
    } else {
      CopyUp(mem, dst, src, n);
      ForwardIsRight(mem.Length, dst, src, n);
    }
    r := dst;
  }

  // ---------- why the direction matters ----------

  /** The memory after the forward loop, wherever the ranges lie. */
  function CopiedUp(m: seq<byte>, d: nat, s: nat, n: nat): (r: seq<byte>)
    requires s + n <= |m| && d + n <= |m|
    ensures |r| == |m|
    decreases n
  {
    if n == 0 then m else CopiedUp(m[d := m[s]], d + 1, s + 1, n - 1)
  }

  lemma {:induction false} CopiedUpElsewhere(m: seq<byte>, d: nat, s: nat, n: nat, i: nat)
    requires s + n <= |m| && d + n <= |m| && i < |m| && !(d <= i < d + n)
    ensures CopiedUp(m, d, s, n)[i] == m[i]
    decreases n
  {
    if n != 0 {
      CopiedUpElsewhere(m[d := m[s]], d + 1, s + 1, n - 1, i);
    }
  }

  /** For ranges that do not overlap to the wrong side it is the move. */
  lemma {:induction false} CopiedUpMoves(m: seq<byte>, d: nat, s: nat, n: nat, i: nat)
    requires s + n <= |m| && d + n <= |m| && i < |m| && !(s < d < s + n)
    ensures CopiedUp(m, d, s, n)[i] == MovedByte(m, d, s, n, i)
    decreases n
  {
    if n != 0 {
      var m1 := m[d := m[s]];
      if i == d {
        CopiedUpElsewhere(m1, d + 1, s + 1, n - 1, d);
      } else {
        CopiedUpMoves(m1, d + 1, s + 1, n - 1, i);
      }
    }
  }

  /** With the destination above the source, the loop reads back what it has written. */
  lemma {:induction false} CopiedUpRepeats(m: seq<byte>, d: nat, s: nat, n: nat, i: nat)
    requires s < d && d + n <= |m| && i < n
    ensures CopiedUp(m, d, s, n)[d + i] == CopiedUp(m, d, s, n)[s + i]
    decreases n
  {
    var m1 := m[d := m[s]];
    if i == 0 {
      CopiedUpElsewhere(m1, d + 1, s + 1, n - 1, d);
      CopiedUpElsewhere(m1, d + 1, s + 1, n - 1, s);
    } else {
      CopiedUpRepeats(m1, d + 1, s + 1, n - 1, i - 1);
    }
  }

  /** A memory on which it goes wrong. */
  lemma CopiedUpFails(len: nat, d: nat, s: nat, n: nat)
    requires s < d < s + n && d + n <= len
    ensures var m: seq<byte> := seq(len, i => if i == s then 1 else 0); !Moved(m, CopiedUp(m, d, s, n), d, s, n)
  {
    var m: seq<byte> := seq(len, i => if i == s then 1 else 0);
    var r := CopiedUp(m, d, s, n);
    CopiedUpElsewhere(m, d, s, n, s);
    CopiedUpRepeats(m, d, s, n, 0);
    CopiedUpRepeats(m, d, s, n, d - s);
    assert r[d + (d - s)] == 1 && m[s + (d - s)] == 0;
    assert r[d..d + n][d - s] == 1 && m[s..s + n][d - s] == 0;
  }

  /** The forward loop is right for every memory exactly if memmove would take it. */
  lemma ForwardIsRight(len: nat, d: nat, s: nat, n: nat)
    requires s + n <= len && d + n <= len
    ensures (forall m: seq<byte> | |m| == len :: Moved(m, CopiedUp(m, d, s, n), d, s, n)) <==> !(s < d && s + n > d)
  {
    if s < d && s + n > d {
      CopiedUpFails(len, d, s, n);
    } else {
      forall m: seq<byte> | |m| == len
        ensures Moved(m, CopiedUp(m, d, s, n), d, s, n)
      {
        forall i: nat | i < len
          ensures CopiedUp(m, d, s, n)[i] == MovedByte(m, d, s, n, i)
        {
          CopiedUpMoves(m, d, s, n, i);
        }
        MovedPointwise(m, CopiedUp(m, d, s, n), d, s, n);
      }
    }
  }
}

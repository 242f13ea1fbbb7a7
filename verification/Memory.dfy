/** The kernel's block memory operations, which work on whole doublewords where the destination is
    aligned. Memory is one array, and an address is an index into it. */
module Memory {

  /** Outside of the `n` places at `dst` nothing changed. */
  ghost predicate Framed<T(!new)>(was: seq<T>, now: seq<T>, dst: nat, n: nat) {
    |now| == |was| && forall k :: 0 <= k < |was| && !(dst <= k < dst + n) ==> now[k] == was[k]
  }

  /** The byte in all four places of a doubleword. */
  function Spread(c: bv32): bv32 {
    var b := c & 0xFF;
    (b << 24) | (b << 16) | (b << 8) | b
  }

  /** Byte `i` of a doubleword, the least significant first. */
  function ByteOf(dword: bv32, i: nat): bv8
    requires i < 4
  {
    if i == 0 then (dword & 0xFF) as bv8
    else if i == 1 then ((dword >> 8) & 0xFF) as bv8
    else if i == 2 then ((dword >> 16) & 0xFF) as bv8
    else ((dword >> 24) & 0xFF) as bv8
  }

  lemma SpreadBytes(c: bv32, i: nat)
    requires i < 4
    ensures ByteOf(Spread(c), i) == (c & 0xFF) as bv8
  {
    assert (Spread(c) >> 8) & 0xFF == c & 0xFF;
    assert (Spread(c) >> 16) & 0xFF == c & 0xFF;
    assert (Spread(c) >> 24) & 0xFF == c & 0xFF;
    assert Spread(c) & 0xFF == c & 0xFF;
  }

  /** Stores a doubleword. */
  method StoreDword(mem: array<bv8>, at: nat, dword: bv32)
    requires at + 4 <= mem.Length
    modifies mem
    ensures forall k :: 0 <= k < mem.Length && !(at <= k < at + 4) ==> mem[k] == old(mem[k])
    ensures mem[at] == ByteOf(dword, 0) && mem[at + 1] == ByteOf(dword, 1)
    ensures mem[at + 2] == ByteOf(dword, 2) && mem[at + 3] == ByteOf(dword, 3)
  {
    mem[at] := ByteOf(dword, 0);
    mem[at + 1] := ByteOf(dword, 1);
    mem[at + 2] := ByteOf(dword, 2);
    mem[at + 3] := ByteOf(dword, 3);
  }

  method Memset(mem: array<bv8>, s: nat, c: bv32, n: nat)
    requires s + n <= mem.Length
    modifies mem
    ensures forall k :: s <= k < s + n ==> mem[k] == (c & 0xFF) as bv8
    ensures Framed(old(mem[..]), mem[..], s, n)
  {
    ghost var byte := (c & 0xFF) as bv8;
    var eax, edi: nat, ecx: nat := Spread(c), s, n;
    SpreadBytes(c, 0);
    hide Spread, ByteOf;
    while ecx != 0 && edi % 4 != 0
      invariant s <= edi && edi + ecx == s + n
      invariant forall k :: 0 <= k < mem.Length ==> mem[k] == if s <= k < edi then byte else old(mem[k])
    {
      mem[edi] := ByteOf(eax, 0);
      edi, ecx := edi + 1, ecx - 1;
    }
    if ecx != 0 {
      var edx: nat := ecx % 4;
      ecx := ecx / 4;
      while ecx != 0
        invariant s <= edi && edi + 4 * ecx + edx == s + n
        invariant forall k :: 0 <= k < mem.Length ==> mem[k] == if s <= k < edi then byte else old(mem[k])
      {
        SpreadBytes(c, 1);
        SpreadBytes(c, 2);
        SpreadBytes(c, 3);
        StoreDword(mem, edi, eax);
        edi, ecx := edi + 4, ecx - 1;
      }
      while edx != 0
        invariant s <= edi && edi + edx == s + n
        invariant forall k :: 0 <= k < mem.Length ==> mem[k] == if s <= k < edi then byte else old(mem[k])
      {
        mem[edi] := ByteOf(eax, 0);
        edi, edx := edi + 1, edx - 1;
      }
    }
  }

  /** What copying has achieved when the first `i` places are done: the destination has them, and
      nothing else changed, so that the rest of the source is still there. */
  ghost predicate Copied<T(!new)>(was: seq<T>, now: seq<T>, dst: nat, src: nat, i: nat)
    requires dst + i <= |was| && src + i <= |was|
  {
    Framed(was, now, dst, i) && now[dst..dst + i] == was[src..src + i]
  }

  /** Right for disjoint places, and for any move down. */
  method Memcpy<T(!new)>(mem: array<T>, dst: nat, src: nat, n: nat)
    requires dst + n <= mem.Length && src + n <= mem.Length
    requires dst <= src || src + n <= dst
    modifies mem
    ensures Copied(old(mem[..]), mem[..], dst, src, n)
  {
    hide Copied;
    ghost var was := mem[..];
    NothingCopied(was, dst, src);
    var edi: nat, esi: nat, ecx: nat := dst, src, n;
    ghost var i: nat := 0;
    while ecx != 0 && edi % 4 != 0
      invariant edi == dst + i && esi == src + i && i + ecx == n && mem.Length == |was|
      invariant Copied(was, mem[..], dst, src, i)
    {
      MoveCells(mem, edi, esi, 1, was, dst, src, i);
      edi, esi, ecx, i := edi + 1, esi + 1, ecx - 1, i + 1;
    }
    if ecx != 0 {
      CopyAligned(mem, edi, esi, ecx, was, dst, src, i);
    }
  }

  /** Whole doublewords, and then the bytes that are left. */
  method CopyAligned<T(!new)>(mem: array<T>, edi0: nat, esi0: nat, left: nat, ghost was: seq<T>, ghost dst: nat,
      ghost src: nat, ghost i0: nat)
    requires edi0 == dst + i0 && esi0 == src + i0 && edi0 + left <= mem.Length == |was| && esi0 + left <= mem.Length
    requires dst <= src || esi0 + left <= dst
    requires Copied(was, mem[..], dst, src, i0)
    modifies mem
    ensures Copied(was, mem[..], dst, src, i0 + left)
  {
    hide Copied;
    var edi, esi, ecx, edx: nat := edi0, esi0, left / 4, left % 4;
    ghost var i := i0;
    while ecx != 0
      invariant 0 <= ecx && edi == dst + i && esi == src + i && i + 4 * ecx + edx == i0 + left
      invariant Copied(was, mem[..], dst, src, i)
    {
      MoveCells(mem, edi, esi, 4, was, dst, src, i);
      edi, esi, ecx, i := edi + 4, esi + 4, ecx - 1, i + 4;
    }
    while edx != 0
      invariant edi == dst + i && esi == src + i && i + edx == i0 + left
      invariant Copied(was, mem[..], dst, src, i)
    {
      MoveCells(mem, edi, esi, 1, was, dst, src, i);
      edi, esi, edx, i := edi + 1, esi + 1, edx - 1, i + 1;
    }
  }

  lemma NothingCopied<T(!new)>(was: seq<T>, dst: nat, src: nat)
    requires dst <= |was| && src <= |was|
    ensures Copied(was, was, dst, src, 0)
  {
  }

  /** One byte or one doubleword: it is loaded whole before any of it is stored. */
  method MoveCells<T(!new)>(mem: array<T>, edi: nat, esi: nat, width: nat, ghost was: seq<T>, ghost dst: nat,
      ghost src: nat, ghost i: nat)
    requires edi == dst + i && esi == src + i && edi + width <= mem.Length == |was| && esi + width <= mem.Length
    requires dst <= src || esi + width <= dst
    requires Copied(was, mem[..], dst, src, i)
    modifies mem
    ensures Copied(was, mem[..], dst, src, i + width)
  {
    ghost var before := mem[..];
    forall k | 0 <= k < width {
      mem[edi + k] := mem[esi + k];
    }
    CopyFurther(was, before, mem[..], dst, src, i, width);
  }

  lemma CopyFurther<T(!new)>(was: seq<T>, before: seq<T>, now: seq<T>, dst: nat, src: nat, i: nat, width: nat)
    requires dst + i + width <= |was| == |before| == |now| && src + i + width <= |was|
    requires dst <= src || src + i + width <= dst
    requires Copied(was, before, dst, src, i)
    requires Framed(before, now, dst + i, width)
    requires forall k :: dst + i <= k < dst + i + width ==> now[k] == before[k - dst + src]
    ensures Copied(was, now, dst, src, i + width)
  {
    var a, b := now[dst..dst + i + width], was[src..src + i + width];
    forall k | 0 <= k < i + width ensures a[k] == b[k] {
      if k < i {
        assert before[dst..dst + i][k] == was[src..src + i][k];
        assert now[dst + k] == before[dst + k];
      } else {
        assert now[dst + k] == before[src + k] == was[src + k];
      }
    }
  }

  /** Byte by byte, upwards if the source is not below the destination, and downwards if it is. */
  method Memmove<T(!new)>(mem: array<T>, dst: nat, src: nat, n: nat)
    requires dst + n <= mem.Length && src + n <= mem.Length
    modifies mem
    ensures Copied(old(mem[..]), mem[..], dst, src, n)
  {
    if src >= dst {
      MoveUpwards(mem, dst, src, n);
    } else {
      MoveDownwards(mem, dst, src, n);
    }
  }

  method MoveUpwards<T(!new)>(mem: array<T>, dst: nat, src: nat, n: nat)
    requires dst <= src && src + n <= mem.Length
    modifies mem
    ensures Copied(old(mem[..]), mem[..], dst, src, n)
  {
    hide Copied;
    ghost var was := mem[..];
    NothingCopied(was, dst, src);
    for i := 0 to n
      invariant Copied(was, mem[..], dst, src, i)
    {
      MoveCells(mem, dst + i, src + i, 1, was, dst, src, i);
    }
  }

  method MoveDownwards<T(!new)>(mem: array<T>, dst: nat, src: nat, n: nat)
    requires src <= dst && dst + n <= mem.Length
    modifies mem
    ensures Copied(old(mem[..]), mem[..], dst, src, n)
  {
    ghost var was := mem[..];
    var i: nat := n;
    while i > 0
      invariant i <= n
      invariant Framed(was, mem[..], dst + i, n - i)
      invariant forall k :: dst + i <= k < dst + n ==> mem[k] == was[k - dst + src]
    {
      i := i - 1;
      assert mem[src + i] == was[src + i];
      mem[dst + i] := mem[src + i];
    }
  }
}

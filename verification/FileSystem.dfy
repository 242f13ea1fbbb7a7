/** Reading a file: the blocks its index node names, in order, cut to its length. */
module FileSystem {
  import opened Arith

  const BLOCK: nat := 4096

  datatype Inode = Inode(length: nat, blocks: seq<nat>)

  /** What is in memory: the number of index nodes, the nodes with whatever is read as one behind them, and
      the data blocks. */
  datatype Image = Image(inodes: nat, nodes: seq<Inode>, data: seq<seq<char>>)

  // ---------- The content of a file ----------

  predicate HasBlock(img: Image, b: nat) {
    b < |img.data| && |img.data[b]| == BLOCK
  }

  predicate AllThere(img: Image, blocks: seq<nat>) {
    forall k :: 0 <= k < |blocks| ==> HasBlock(img, blocks[k])
  }

  predicate WellFormed(img: Image, node: Inode) {
    AllThere(img, node.blocks) && node.length <= BLOCK * |node.blocks|
  }

  /** The blocks one after the other. */
  function Joined(img: Image, blocks: seq<nat>): (bytes: seq<char>)
    requires AllThere(img, blocks)
    ensures |bytes| == BLOCK * |blocks|
  {
    if blocks == [] then [] else Joined(img, blocks[..|blocks| - 1]) + img.data[blocks[|blocks| - 1]]
  }

  function Content(img: Image, node: Inode): (bytes: seq<char>)
    requires WellFormed(img, node)
    ensures |bytes| == node.length
  {
    Joined(img, node.blocks)[..node.length]
  }

  lemma {:induction false} JoinedAt(img: Image, blocks: seq<nat>, k: nat, j: nat)
    requires AllThere(img, blocks)
    requires k < |blocks| && j < BLOCK
    ensures BLOCK * k + j < BLOCK * |blocks| && Joined(img, blocks)[BLOCK * k + j] == img.data[blocks[k]][j]
  {
    if k < |blocks| - 1 {
      JoinedAt(img, blocks[..|blocks| - 1], k, j);
    }
  }

  lemma ContentAt(img: Image, node: Inode, k: nat, j: nat)
    requires WellFormed(img, node) && j < BLOCK && BLOCK * k + j < node.length
    ensures k < |node.blocks| && Content(img, node)[BLOCK * k + j] == img.data[node.blocks[k]][j]
  {
    JoinedAt(img, node.blocks, k, j);
  }

  // ---------- One read ----------

  /** How much a read of `n` bytes at position `pos` of a file of `length` bytes returns: a read that
      runs over the end returns nothing, unless it is the first. */
  function ReadCount(length: nat, pos: nat, n: nat): nat {
    if pos > length then 0
    else if pos == 0 && n > length then length
    else if pos + n <= length then n
    else 0
  }

  /** The number in the node's list, whatever it is beyond the blocks of the file. */
  function BlockNumber(node: Inode, k: nat): nat {
    if k < |node.blocks| then node.blocks[k] else 0
  }

  /** A byte of a block; what stands in memory around the image is not known. */
  function ByteOf(img: Image, b: nat, j: nat): char {
    if b < |img.data| && j < |img.data[b]| then img.data[b][j] else '\0'
  }

  /** An entry of the table of open files. */
  class OpenFile {
    const inode: nat
    var filePosition: nat

    constructor (inode: nat)
      ensures this.inode == inode && filePosition == 0
    {
      this.inode := inode;
      filePosition := 0;
    }

    /** The test of the number lets the number of index nodes itself pass. */
    ghost predicate Reads(img: Image) {
      inode <= img.inodes ==> inode < |img.nodes| && WellFormed(img, img.nodes[inode])
    }

    /** The byte behind the file can be copied too, but no byte further on. */
    method ReadData(img: Image, offset: nat, buf: array<char>, at: nat, length: nat) returns (ret: int)
      requires Reads(img) && offset == filePosition && at + length <= buf.Length
      modifies this, buf
      ensures inode > img.inodes ==> ret == -1 && filePosition == old(filePosition) && buf[..] == old(buf[..])
      ensures inode <= img.inodes ==>
                var bytes, pos := Content(img, img.nodes[inode]), old(filePosition);
                && ret == ReadCount(|bytes|, pos, length) && filePosition == pos + ret
                && (ret > 0 ==> pos + ret <= |bytes| && buf[at..at + ret] == bytes[pos..pos + ret])
                && forall k :: 0 <= k < buf.Length && !(at <= k < at + length && k - at <= |bytes| - pos) ==>
                    buf[k] == old(buf[k])
    {
      if inode > img.inodes {
        return -1;
      }
      var node := img.nodes[inode];
      var pointer := BlockNumber(node, offset / BLOCK);
      var num := node.length;
      if num == 0 {
        return 0;
      }
      if filePosition > num {
        return 0;
      }
      ghost var bytes, pos := Content(img, node), filePosition;
      hide Content, WellFormed;
      var i, j, loop := 0, offset % BLOCK, offset / BLOCK;
      while length != i
        invariant filePosition == pos && 0 <= i <= length && pos + i <= num
        invariant 0 <= j < BLOCK && 0 <= loop && pos + i == BLOCK * loop + j && pointer == BlockNumber(node, loop)
        invariant forall k :: 0 <= k < buf.Length ==>
          buf[k] == if at <= k < at + i then bytes[pos + k - at] else old(buf[k])
        decreases length - i
      {
        if i == num {
          buf[at + i] := ByteOf(img, pointer, j);
          filePosition := filePosition + i;
          return i;
        }
        if filePosition + i >= num {
          return 0;
        }
        CopiedByte(img, node, loop, j);
        buf[at + i] := ByteOf(img, pointer, j);
        i := i + 1;
        j := j + 1;
        if j % BLOCK == 0 {
          j := 0;
          loop := loop + 1;
          pointer := BlockNumber(node, loop);
        }
      }
      filePosition := filePosition + i;
      return i;
    }

    method FileRead(img: Image, buf: array<char>, at: nat, nbytes: nat) returns (ret: int)
      requires Reads(img) && at + nbytes <= buf.Length
      modifies this, buf
      ensures inode > img.inodes ==> ret == -1 && filePosition == old(filePosition) && buf[..] == old(buf[..])
      ensures inode <= img.inodes ==>
                var bytes, pos := Content(img, img.nodes[inode]), old(filePosition);
                && ret == ReadCount(|bytes|, pos, nbytes) && filePosition == pos + ret
                && (ret > 0 ==> pos + ret <= |bytes| && buf[at..at + ret] == bytes[pos..pos + ret])
      ensures forall k :: 0 <= k < buf.Length && !(at <= k < at + nbytes) ==> buf[k] == old(buf[k])
    {
      ret := ReadData(img, filePosition, buf, at, nbytes);
    }
  }

  lemma CopiedByte(img: Image, node: Inode, loop: nat, j: nat)
    requires WellFormed(img, node) && j < BLOCK && BLOCK * loop + j < node.length
    ensures ByteOf(img, BlockNumber(node, loop), j) == Content(img, node)[BLOCK * loop + j]
  {
    ContentAt(img, node, loop, j);
  }

  /** A read at position `pos` returns what is left, up to what was asked for, exactly when it is the first
      or does not run over the end; so reading byte by byte always works. */
  lemma ReadsWhatIsLeft(length: nat, pos: nat, n: nat)
    requires pos <= length
    ensures ReadCount(length, pos, n) == (if n <= length - pos then n else length - pos)
       <==> pos == 0 || pos + n <= length || pos == length
    ensures n <= 1 ==> pos + n <= length || pos == length
    ensures pos != 0 && pos + n > length ==> ReadCount(length, pos, n) == 0
  {
  }

  // ---------- Runs of reads ----------

  function PositionAfter(length: nat, pos: nat, requests: seq<nat>): (r: nat)
    requires pos <= length
    ensures pos <= r <= length
  {
    if requests == [] then pos
    else
      var before := PositionAfter(length, pos, requests[..|requests| - 1]);
      before + ReadCount(length, before, requests[|requests| - 1])
  }

  /** Everything that the reads return. */
  function ReturnedBytes(bytes: seq<char>, pos: nat, requests: seq<nat>): seq<char>
    requires pos <= |bytes|
  {
    if requests == [] then []
    else
      var at := PositionAfter(|bytes|, pos, requests[..|requests| - 1]);
      ReturnedBytes(bytes, pos, requests[..|requests| - 1])
        + bytes[at..at + ReadCount(|bytes|, at, requests[|requests| - 1])]
  }

  /** Whatever sizes are asked for, the pieces join to a prefix of the file, and the position is how much
      was returned. */
  lemma {:induction false} ReadsArePrefix(bytes: seq<char>, pos: nat, requests: seq<nat>)
    requires pos <= |bytes|
    ensures ReturnedBytes(bytes, pos, requests) == bytes[pos..PositionAfter(|bytes|, pos, requests)]
  {
    if requests != [] {
      var before := requests[..|requests| - 1];
      ReadsArePrefix(bytes, pos, before);
      var at, n := PositionAfter(|bytes|, pos, before), requests[|requests| - 1];
      assert bytes[pos..at] + bytes[at..at + ReadCount(|bytes|, at, n)] == bytes[pos..at + ReadCount(|bytes|, at, n)];
    }
  }

  /** `m` requests of the same size. */
  function Same(n: nat, m: nat): (requests: seq<nat>)
    ensures |requests| == m && forall i :: 0 <= i < m ==> requests[i] == n
  {
    seq(m, _ => n)
  }

  lemma ReadOnceMore(length: nat, n: nat, m: nat)
    ensures PositionAfter(length, 0, Same(n, m + 1))
         == var at := PositionAfter(length, 0, Same(n, m)); at + ReadCount(length, at, n)
  {
    assert Same(n, m + 1)[..m] == Same(n, m);
  }

  /** All that can be had in pieces of `n` bytes. */
  function Obtainable(length: nat, n: nat): nat
    requires 0 < n
  {
    if n >= length then length else n * (length / n)
  }

  lemma {:induction false} PositionOfSame(length: nat, n: nat, m: nat)
    requires 0 < n
    ensures PositionAfter(length, 0, Same(n, m))
         == if m == 0 then 0 else if n >= length then length else n * (if m <= length / n then m else length / n)
  {
    if m != 0 {
      PositionOfSame(length, n, m - 1);
      ReadOnceMore(length, n, m - 1);
      QuotientBounds(length, n, m);
    }
  }

  lemma QuotientBounds(length: nat, n: nat, m: nat)
    requires 0 < n
    ensures n * (length / n) <= length < n * (length / n) + n
    ensures 0 < m <= length / n ==> n * m <= length && n * (m - 1) + n == n * m
  {
    var q := length / n;
    assert length == q * n + length % n;
    if 0 < m <= q {
      assert n * q == n * m + n * (q - m) && n * (q - m) >= 0;
    }
  }

  lemma MultiplesApart(n: nat, m: nat, q: nat)
    requires 0 < n && m < q
    ensures n * m < n * q
  {
    assert n * q == n * m + n * (q - m);
    MultipleOutside(q - m, n);
  }

  lemma ReadsOn(length: nat, n: nat, m: nat)
    requires 0 < n < length && m < length / n
    ensures ReadCount(length, n * m, n) == n && n * m < n * (length / n)
  {
    QuotientBounds(length, n, m + 1);
    MultiplesApart(n, m, length / n);
  }

  lemma ReadsNoMore(length: nat, n: nat)
    requires 0 < n < length
    ensures ReadCount(length, n * (length / n), n) == 0
  {
    QuotientBounds(length, n, 0);
  }

  /** Reading on in pieces of one size until a read returns 0 obtains this much, and then every read
      returns 0. */
  lemma FixedSizeReads(length: nat, n: nat, m: nat)
    requires 0 < n
    ensures var at := PositionAfter(length, 0, Same(n, m));
            at <= Obtainable(length, n) && (ReadCount(length, at, n) == 0 <==> at == Obtainable(length, n))
  {
    hide PositionAfter;
    PositionOfSame(length, n, m);
    if n < length {
      hide ReadCount;
      if m < length / n {
        ReadsOn(length, n, m);
        if m == 0 {
          assert n * m == 0;
        }
      } else {
        ReadsNoMore(length, n);
        QuotientBounds(length, n, 1);
      }
    }
  }

  /** The last piece of a file is lost unless the size divides the length, or one read takes it all. */
  lemma WholeFileObtained(length: nat, n: nat)
    requires 0 < n
    ensures Obtainable(length, n) == length <==> n >= length || length % n == 0
  {
    assert length == n * (length / n) + length % n;
  }

  // ---------- A program that copies a file to the terminal ----------

  const CAT_BYTES: nat := 1024

  /** For example the last byte of a file of 1025 is never copied: the second read asks for more than is left,
      and returns nothing. */
  lemma CatLosesAByte(bytes: seq<char>)
    requires |bytes| == 1025
    ensures bytes[..Obtainable(|bytes|, CAT_BYTES)] != bytes && ReadCount(|bytes|, CAT_BYTES, CAT_BYTES) == 0
  {
    assert |bytes[..Obtainable(|bytes|, CAT_BYTES)]| == 1024;
  }

  method Cat(img: Image, file: OpenFile) returns (ret: int, output: seq<char>)
    requires file.Reads(img) && file.filePosition == 0
    modifies file
    ensures file.inode > img.inodes ==> ret == 3 && output == []
    ensures file.inode <= img.inodes ==>
              var bytes := Content(img, img.nodes[file.inode]);
              ret == 0 && output == bytes[..Obtainable(|bytes|, CAT_BYTES)]
  {
    var buf := new char[CAT_BYTES];
    output := [];
    ghost var bytes := if file.inode <= img.inodes then Content(img, img.nodes[file.inode]) else [];
    hide Content, WellFormed, ReadCount, Obtainable, PositionAfter;
    ghost var m := 0;
    PositionOfSame(|bytes|, CAT_BYTES, 0);
    while true
      invariant file.filePosition == PositionAfter(|bytes|, 0, Same(CAT_BYTES, m))
      invariant output == bytes[..file.filePosition]
      decreases |bytes| - file.filePosition
    {
      FixedSizeReads(|bytes|, CAT_BYTES, m);
      var cnt := file.FileRead(img, buf, 0, CAT_BYTES);
      if cnt == 0 {
        break;
      }
      if cnt == -1 {
        return 3, output;
      }
      ReadOnceMore(|bytes|, CAT_BYTES, m);
      m := m + 1;
      output := output + buf[..cnt];
    }
    return 0, output;
  }
}

/** The byte buffer made of linked blocks. */
module UltraBuf {
  import opened BlockList
  import opened Common
  import opened Positions

  const EAGAIN: nat := 11

  /** The unread bytes of the blocks, in order. */
  ghost function Bytes(blocks: seq<Block>): seq<bv8>
    requires forall i :: 0 <= i < |blocks| ==> blocks[i].begin <= blocks[i].end <= blocks[i].buf.Length
    reads blocks`begin, blocks`end, Buffers(blocks)
  {
    if blocks == [] then []
    else blocks[0].buf[blocks[0].begin..blocks[0].end] + Bytes(blocks[1..])
  }

  function Least(a: nat, b: nat): nat {
    if a < b then a else b
  }

  lemma PrefixOf(a: seq<bv8>, b: seq<bv8>, c: seq<bv8>, n: nat)
    requires n <= |b|
    ensures a + b[..n] <= a + (b + c)
  {
    assert a + (b + c) == a + b[..n] + (b[n..] + c);
  }

  /** What remains of a free list of the given length when n blocks are needed. */
  function Left(free: nat, n: int): int {
    if n < free then free - n else 0
  }

  /** A push of at most one block fills at most one block, and is rejected when none may be added. */
  lemma CapKept(size: nat, end: nat, n: nat, count: nat, cap: nat)
    requires end < size && n <= size && 0 < count <= cap
    requires !(cap != 0 && count == cap && end + n >= size)
    ensures count + (end + n) / size <= cap
  {
    if end + n < size {
      ModOfSum(size, 0, end + n);
    } else {
      ModOfSum(size, 1, end + n - size);
    }
  }

  lemma BytesOfFirst(blocks: seq<Block>)
    requires blocks != []
    requires forall i :: 0 <= i < |blocks| ==> blocks[i].begin <= blocks[i].end <= blocks[i].buf.Length
    ensures Bytes(blocks) == blocks[0].buf[blocks[0].begin..blocks[0].end] + Bytes(blocks[1..])
  {
  }

  lemma BytesOfNone(blocks: seq<Block>)
    requires forall i :: 0 <= i < |blocks| ==> blocks[i].begin <= blocks[i].end <= blocks[i].buf.Length
    ensures blocks == [] ==> Bytes(blocks) == []
  {
  }

  lemma BytesOfEmpty(b: Block)
    requires b.begin == b.end <= b.buf.Length
    ensures Bytes([b]) == []
  {
    assert [b][1..] == [];
  }

  lemma BytesSnoc(blocks: seq<Block>)
    requires blocks != [] && blocks[|blocks| - 1].begin == blocks[|blocks| - 1].end
    requires forall i :: 0 <= i < |blocks| ==> blocks[i].begin <= blocks[i].end <= blocks[i].buf.Length
    ensures Bytes(blocks) == Bytes(blocks[..|blocks| - 1])
  {
    BytesSplit(blocks);
  }

  /** The last block contributes the last bytes. */
  lemma {:induction false} BytesSplit(blocks: seq<Block>)
    requires blocks != []
    requires forall i :: 0 <= i < |blocks| ==> blocks[i].begin <= blocks[i].end <= blocks[i].buf.Length
    ensures var n := |blocks| - 1;
            Bytes(blocks) == Bytes(blocks[..n]) + blocks[n].buf[blocks[n].begin..blocks[n].end]
  {
    if |blocks| <= 1 {
    } else {
      BytesSplit(blocks[1..]);
      var n := |blocks| - 1;
      assert blocks[..n][1..] == blocks[1..][..n - 1];
    }
  }

  class UltraBuf {
    const blockSize: nat
    const maxBlockNo: nat
    var head: Block
    var tail: Block
    var emptyHead: Block?
    var usedBlockCnt: nat
    var emptyBlockCnt: nat
    var contentSize: nat

    ghost var used: seq<Block>
    ghost var free: seq<Block>
    ghost var repr: set<object>

    /** Inner blocks are full, and only the head may be partly read. */
    ghost predicate Filled(u: seq<Block>)
      reads u`begin, u`end
    {
      && (forall i :: 0 <= i < |u| ==> u[i].begin <= u[i].end <= blockSize)
      && (forall i :: 0 <= i < |u| - 1 ==> u[i].end == blockSize)
      && (forall i :: 1 <= i < |u| ==> u[i].begin == 0)
    }

    ghost predicate Shape()
      reads this`head, this`tail, this`emptyHead, this`usedBlockCnt, this`emptyBlockCnt, this`used, this`free, this`repr, repr
    {
      && blockSize > 0
      && |used| == usedBlockCnt > 0 && |free| == emptyBlockCnt
      && this !in repr && Owned(repr, used, free, blockSize)
      && Segment(used, head, null) && Segment(free, emptyHead, null)
      && tail == used[|used| - 1] && tail.end < blockSize
      && Filled(used)
    }

    ghost function Content(): seq<bv8>
      requires Shape()
      reads this`head, this`tail, this`emptyHead, this`usedBlockCnt, this`emptyBlockCnt, this`used, this`free, this`repr, repr
    {
      Bytes(used)
    }

    ghost predicate Valid()
      reads this, repr
    {
      Shape() && contentSize == |Content()|
    }

    constructor (blockSize: nat, maxBlockNo: nat)
      requires blockSize > 0
      ensures Valid() && fresh(repr)
      ensures this.blockSize == blockSize && this.maxBlockNo == maxBlockNo
      ensures Content() == [] && usedBlockCnt == 1 && emptyBlockCnt == 0 && tail.end == 0
    {
      this.blockSize := blockSize;
      this.maxBlockNo := maxBlockNo;
      var b := new Block(blockSize);
      head := b;
      tail := b;
      emptyHead := null;
      usedBlockCnt := 1;
      emptyBlockCnt := 0;
      contentSize := 0;
      used := [b];
      free := [];
      repr := {b, b.buf};
      new;
      hide Shape, Bytes;
      OneEmptyBlock();
    }

    lemma OneEmptyBlock()
      requires blockSize > 0 && used == [head] && tail == head && head.next == null && head.begin == head.end == 0
      requires free == [] && emptyHead == null && usedBlockCnt == 1 && emptyBlockCnt == 0
      requires repr == {head, head.buf} && this !in repr && head.buf.Length == blockSize
      ensures Shape() && Content() == []
    {
      hide Bytes;
      BytesOfEmpty(head);
    }

    method FillTail(chunk: seq<bv8>)
      requires used != [] && tail == used[|used| - 1] && tail.end + |chunk| <= blockSize
      requires forall i :: 0 <= i < |used| - 1 ==> used[i] != tail
      requires tail !in used[..|used| - 1] && tail.buf !in Buffers(used[..|used| - 1])
      requires Filled(used) && forall i :: 0 <= i < |used| ==> used[i].buf.Length == blockSize
      modifies tail`end, tail.buf
      ensures tail.end == old(tail.end) + |chunk|
      ensures Filled(used)
      ensures Bytes(used) == old(Bytes(used)) + chunk
    {
      hide Bytes, Buffers;
      AppendToTail(chunk);
    }

    method AppendToTail(chunk: seq<bv8>)
      requires used != [] && tail == used[|used| - 1] && tail.end + |chunk| <= tail.buf.Length
      requires tail !in used[..|used| - 1] && tail.buf !in Buffers(used[..|used| - 1])
      requires forall i :: 0 <= i < |used| ==> used[i].begin <= used[i].end <= used[i].buf.Length
      modifies tail`end, tail.buf
      ensures tail.end == old(tail.end) + |chunk|
      ensures forall i :: 0 <= i < |used| ==> used[i].begin <= used[i].end <= used[i].buf.Length
      ensures Bytes(used) == old(Bytes(used)) + chunk
    {
      hide Bytes;
      ghost var front := used[..|used| - 1];
      NotABuffer(tail, front);
      BytesSplit(used);
      ghost var before, was := Bytes(front), tail.buf[tail.begin..tail.end];
      tail.Append(chunk);
      assert Bytes(front) == before;
      BytesSplit(used);
      Regroup(before, was, chunk);
    }

    /** A block, recycled when there is one, is linked behind the tail; the used blocks keep their bytes. */
    method LinkBlock() returns (last: Block, emptyHead': Block?, ghost free': seq<Block>, ghost repr': set<object>)
      requires Shape()
      modifies tail`next, free`next, free`begin, free`end
      ensures Owned(repr', used + [last], free', blockSize) && Owned(repr', used, free', blockSize)
      ensures last != tail && last.begin == last.end == 0
      ensures Segment(used + [last], head, null) && Segment(free', emptyHead', null)
      ensures free' == (if emptyHead == null then free else free[1..]) && (emptyHead == null <==> free == [])
      ensures repr <= repr' && fresh(repr' - repr)
      ensures Filled(used) && tail.end == old(tail.end) && Bytes(used) == old(Bytes(used))
    {
      hide Segment, Bytes, Owned, Filled, Buffers;
      OwnedBuffers(repr, used, free, blockSize);
      OwnedApart(repr, used, free, blockSize);
      last, emptyHead', free', repr' := GrowList(repr, used, free, head, tail, emptyHead, blockSize);
    }

    method AddBlock() returns (last: Block)
      requires Shape()
      modifies this`emptyHead, this`usedBlockCnt, this`emptyBlockCnt, this`free, this`repr
      modifies tail`next
      modifies free`next, free`begin, free`end
      ensures Owned(repr, used + [last], free, blockSize) && this !in repr
      ensures Owned(repr, used, free, blockSize) && last != tail
      ensures Segment(used + [last], head, null) && Segment(free, emptyHead, null)
      ensures Filled(used) && last.begin == last.end == 0 && tail.end == old(tail.end)
      ensures Bytes(used) == old(Bytes(used))
      ensures old(repr) <= repr && fresh(repr - old(repr))
      ensures usedBlockCnt == old(usedBlockCnt) + 1 && |free| == emptyBlockCnt
      ensures emptyBlockCnt == if old(emptyBlockCnt) > 0 then old(emptyBlockCnt) - 1 else 0
    {
      hide Segment, Bytes, Owned, Filled, Buffers;
      OwnedBuffers(repr, used, free, blockSize);
      var recycled := emptyHead != null;
      var emptyHead'; ghost var free'; ghost var repr';
      last, emptyHead', free', repr' := LinkBlock();
      emptyHead, free, repr := emptyHead', free', repr';
      usedBlockCnt := usedBlockCnt + 1;
      if recycled {
        emptyBlockCnt := emptyBlockCnt - 1;
      }
    }

    /** One round of the loop of Push: a block is linked behind the tail, and the tail is filled. */
    method FillAndGrow(chunk: seq<bv8>)
      requires Shape() && tail.end + |chunk| == blockSize
      modifies this, repr
      ensures Shape() && fresh(repr - old(repr))
      ensures Content() == old(Content()) + chunk
      ensures contentSize == old(contentSize)
      ensures usedBlockCnt == old(usedBlockCnt) + 1 && tail.end == 0
      ensures emptyBlockCnt == if old(emptyBlockCnt) > 0 then old(emptyBlockCnt) - 1 else 0
    {
      hide Segment, Bytes, Owned, Buffers, Filled;
      OwnedTail(repr, used, free, blockSize);
      OwnedFree(repr, used, free, blockSize);
      var last := AddBlock();
      OwnedTail(repr, used, free, blockSize);
      FillTail(chunk);
      AdvanceTail(last);
    }

    method AdvanceTail(last: Block)
      requires blockSize > 0 && used != [] && this !in repr
      requires Owned(repr, used + [last], free, blockSize) && Owned(repr, used, free, blockSize)
      requires Segment(used + [last], head, null) && Segment(free, emptyHead, null)
      requires Filled(used) && used[|used| - 1].end == blockSize && last.begin == last.end == 0
      requires usedBlockCnt == |used| + 1 && |free| == emptyBlockCnt
      modifies this`tail, this`used
      ensures Shape() && tail == last
      ensures Content() == old(Bytes(used))
    {
      hide Segment, Bytes, Owned, Filled, Buffers;
      OwnedBuffers(repr, used, free, blockSize);
      OwnedBuffers(repr, used + [last], free, blockSize);
      FilledSnoc(last);
      tail := last;
      used := used + [last];
    }

    /** An empty block behind full ones adds nothing. */
    lemma FilledSnoc(last: Block)
      requires used != [] && Owned(repr, used + [last], free, blockSize) && Owned(repr, used, free, blockSize)
      requires Filled(used) && used[|used| - 1].end == blockSize && last.begin == last.end == 0
      ensures Filled(used + [last]) && Bytes(used + [last]) == Bytes(used)
    {
      hide Bytes, Buffers;
      OwnedTail(repr, used + [last], free, blockSize);
      assert (used + [last])[..|used|] == used;
      BytesSnoc(used + [last]);
    }

    predicate IsBlockFull(incoming: nat)
      reads this, tail
    {
      tail.end + incoming >= blockSize
    }

    predicate IsFull(incoming: nat)
      reads this, tail
    {
      maxBlockNo != 0 && usedBlockCnt == maxBlockNo && IsBlockFull(incoming)
    }

    predicate IsEmpty(size: nat)
      reads this
    {
      contentSize < size
    }

    method FillLast(chunk: seq<bv8>)
      requires Shape() && tail.end + |chunk| < blockSize
      modifies tail`end, tail.buf
      ensures Shape() && Content() == old(Content()) + chunk
      ensures tail.end == old(tail.end) + |chunk|
    {
      hide Segment, Bytes;
      OwnedTail(repr, used, free, blockSize);
      FillTail(chunk);
    }

    /** The loop of Push: whole blocks are filled until the rest fits the tail with room to spare. */
    method FillBlocks(data: seq<bv8>) returns (written: nat)
      requires Shape()
      modifies this, repr
      ensures Shape() && fresh(repr - old(repr)) && tail in repr && tail.buf in repr
      ensures written <= |data| && tail.end + |data| - written < blockSize
      ensures Content() == old(Content()) + data[..written]
      ensures contentSize == old(contentSize)
      ensures usedBlockCnt == old(usedBlockCnt) + (old(tail.end) + |data|) / blockSize
      ensures tail.end + |data| - written == (old(tail.end) + |data|) % blockSize
      ensures var more := usedBlockCnt - old(usedBlockCnt);
              emptyBlockCnt == if old(emptyBlockCnt) > more then old(emptyBlockCnt) - more else 0
    {
      hide Shape, Bytes;
      TailInRepr();
      assert data[..0] == [] && old(Content()) + [] == old(Content());
      written := 0;
      ghost var k := 0;
      while IsBlockFull(|data| - written)
        invariant Shape() && fresh(repr - old(repr)) && tail in repr && tail.buf in repr && tail.end < blockSize
        invariant written <= |data| && contentSize == old(contentSize)
        invariant Content() == old(Content()) + data[..written]
        invariant usedBlockCnt == old(usedBlockCnt) + k
        invariant blockSize * k + tail.end == old(tail.end) + written
        invariant emptyBlockCnt == Left(old(emptyBlockCnt), k)
        decreases |data| - written
      {
        var spaceLeft := blockSize - tail.end;
        assert data[..written + spaceLeft] == data[..written] + data[written..written + spaceLeft];
        FillAndGrow(data[written..written + spaceLeft]);
        written := written + spaceLeft;
        k := k + 1;
        TailInRepr();
        NextMultiple(blockSize, k);
      }
      ModOfSum(blockSize, k, tail.end + |data| - written);
    }

    /**
     * Appends all of data, or rejects it with EAGAIN and changes nothing: exactly when there is a cap,
     * it is reached, and the bytes fill the last block. The number of blocks in use grows by the number
     * of blocks that become full, free blocks being taken first. The cap on the number of blocks is
     * kept by pushes of at most one block.
     */
    method Push(data: seq<bv8>) returns (r: nat)
      requires Valid()
      modifies this, repr
      ensures Valid() && fresh(repr - old(repr))
      ensures old(maxBlockNo != 0 && usedBlockCnt == maxBlockNo && tail.end + |data| >= blockSize) ==>
                r == 11 && unchanged(this) && unchanged(repr)
      ensures !old(maxBlockNo != 0 && usedBlockCnt == maxBlockNo && tail.end + |data| >= blockSize) ==>
                && r == |data|
                && Content() == old(Content()) + data
                && usedBlockCnt == old(usedBlockCnt) + (old(tail.end) + |data|) / blockSize
                && tail.end == (old(tail.end) + |data|) % blockSize
                && (usedBlockCnt <= maxBlockNo <==> old(usedBlockCnt) + (old(tail.end) + |data|) / blockSize <= maxBlockNo)
                && var more := usedBlockCnt - old(usedBlockCnt);
                   emptyBlockCnt == if old(emptyBlockCnt) > more then old(emptyBlockCnt) - more else 0
      ensures old(usedBlockCnt) <= maxBlockNo && |data| <= blockSize ==> usedBlockCnt <= maxBlockNo
    {
      hide Shape, Bytes;
      if IsFull(|data|) {
        return EAGAIN;
      }
      if usedBlockCnt <= maxBlockNo && |data| <= blockSize {
        HeadBounds();
        TailInRepr();
        CapKept(blockSize, tail.end, |data|, usedBlockCnt, maxBlockNo);
      }
      PushAll(data);
      r := |data|;
    }

    /** An accepted push: whole blocks, then the rest. */
    method PushAll(data: seq<bv8>)
      requires Valid()
      modifies this, repr
      ensures Valid() && fresh(repr - old(repr))
      ensures Content() == old(Content()) + data
      ensures usedBlockCnt == old(usedBlockCnt) + (old(tail.end) + |data|) / blockSize
      ensures tail.end == (old(tail.end) + |data|) % blockSize
      ensures var more := usedBlockCnt - old(usedBlockCnt);
              emptyBlockCnt == if old(emptyBlockCnt) > more then old(emptyBlockCnt) - more else 0
    {
      hide Shape, Bytes;
      var written := FillBlocks(data);
      assert data == data[..written] + data[written..];
      TailInRepr();
      FillLast(data[written..]);
      TailInRepr();
      contentSize := contentSize + |data|;
    }

    /** The next n unread bytes of the head are taken. */
    method TakeFromHead(n: nat) returns (chunk: seq<bv8>)
      requires Shape() && n <= head.end - head.begin
      modifies head`begin
      ensures Shape() && head.begin == old(head.begin) + n
      ensures |chunk| == n && old(Content()) == chunk + Content()
    {
      hide Segment, Bytes, Owned, Filled;
      OwnedHead(repr, used, free, blockSize);
      HeadFirst();
      chunk := TakeBytes(n);
    }

    method TakeBytes(n: nat) returns (chunk: seq<bv8>)
      requires used != [] && head == used[0] && Filled(used) && n <= head.end - head.begin
      requires forall i :: 1 <= i < |used| ==> used[i] != used[0]
      requires forall i :: 0 <= i < |used| ==> used[i].buf.Length == blockSize
      modifies head`begin
      ensures Filled(used) && head.begin == old(head.begin) + n
      ensures |chunk| == n && old(Bytes(used)) == chunk + Bytes(used)
    {
      hide Bytes, Buffers;
      chunk := CutHead(n);
    }

    method CutHead(n: nat) returns (chunk: seq<bv8>)
      requires used != [] && head == used[0] && n <= head.end - head.begin
      requires forall i :: 0 <= i < |used| ==> used[i].begin <= used[i].end <= used[i].buf.Length
      requires forall i :: 1 <= i < |used| ==> used[i] != used[0]
      modifies head`begin
      ensures forall i :: 0 <= i < |used| ==> used[i].begin <= used[i].end <= used[i].buf.Length
      ensures head.begin == old(head.begin) + n
      ensures |chunk| == n && old(Bytes(used)) == chunk + Bytes(used)
    {
      hide Bytes;
      BytesOfFirst(used);
      NotABuffer(head, used[1..]);
      assert head !in used[1..];
      ghost var rest := Bytes(used[1..]);
      chunk := head.buf[head.begin..head.begin + n];
      ghost var was := head.buf[head.begin..head.end];
      head.begin := head.begin + n;
      assert Bytes(used[1..]) == rest;
      BytesOfFirst(used);
      assert was == chunk + head.buf[head.begin..head.end];
      Regroup(chunk, head.buf[head.begin..head.end], rest);
    }

    /** The drained head goes to the front of the free list. */
    method ReleaseHead()
      requires Shape() && head.begin == head.end && |used| > 1
      modifies this`head, this`emptyHead, this`usedBlockCnt, this`emptyBlockCnt, this`used, this`free
      modifies head`next
      ensures Shape() && Content() == old(Content())
      ensures used == old(used[1..]) && usedBlockCnt == old(usedBlockCnt) - 1
      ensures emptyBlockCnt == old(emptyBlockCnt) + 1
    {
      DrainedHead();
      OwnedBuffers(repr, used, free, blockSize);
      hide Segment, Bytes, Owned, Filled, Buffers;
      assert used[1..][|used| - 2] == tail;
      NotABuffer(head, used[1..]);
      Relink();
      usedBlockCnt := usedBlockCnt - 1;
      emptyBlockCnt := emptyBlockCnt + 1;
    }

    method Relink()
      requires |used| > 1 && Segment(used, head, null) && Segment(free, emptyHead, null)
      requires Owned(repr, used, free, blockSize) && this !in repr
      modifies this`head, this`emptyHead, this`used, this`free, head`next
      ensures Segment(used, head, null) && Segment(free, emptyHead, null) && Owned(repr, used, free, blockSize)
      ensures used == old(used[1..]) && free == old([head] + free)
    {
      hide Segment, Owned;
      var cur := head;
      head := BlockList.ReleaseHead(repr, used, free, cur, emptyHead, blockSize);
      emptyHead := cur;
      used, free := used[1..], [cur] + free;
    }

    /** A drained head contributes nothing. */
    lemma DrainedHead()
      requires Shape() && head.begin == head.end && |used| > 1
      ensures Filled(used[1..]) && Bytes(used) == Bytes(used[1..])
    {
      hide Segment, Bytes, Owned;
      OwnedHead(repr, used, free, blockSize);
      HeadFirst();
      BytesOfFirst(used);
    }

    /** Removes the first min(size, length) bytes; blocks are recycled, never lost. */
    method Pull(size: nat) returns (r: nat, data: seq<bv8>)
      requires Valid()
      modifies this, repr
      ensures Valid() && repr == old(repr)
      ensures r == |data| == if size < |old(Content())| then size else |old(Content())|
      ensures old(Content()) == data + Content()
      ensures usedBlockCnt + emptyBlockCnt == old(usedBlockCnt + emptyBlockCnt)
      ensures usedBlockCnt <= old(usedBlockCnt) && tail == old(tail) && tail.end == old(tail.end)
      ensures size <= old(head.end - head.begin) ==>
                && head == old(head) && usedBlockCnt == old(usedBlockCnt)
                && head.end == old(head.end) && head.begin == old(head.begin) + r
    {
      hide Shape, Bytes;
      if IsEmpty(1) {
        return 0, [];
      }
      HeadBounds();
      var total := Least(size, contentSize);
      data := Drain(total);
      contentSize := contentSize - total;
      r := total;
    }

    /** One round of the loop of Pull: what the head holds leaves, and the next block is the head. */
    method DropHead() returns (chunk: seq<bv8>)
      requires Shape() && head.begin <= head.end && head.end - head.begin < |Content()|
      modifies this`head, this`emptyHead, this`usedBlockCnt, this`emptyBlockCnt, this`used, this`free, repr
      ensures Shape() && repr == old(repr) && this !in repr && head in repr && head.begin <= head.end
      ensures |chunk| == old(head.end - head.begin) && old(Content()) == chunk + Content()
      ensures usedBlockCnt == old(usedBlockCnt) - 1 && emptyBlockCnt == old(emptyBlockCnt) + 1
      ensures tail.end == old(tail.end)
    {
      hide Shape, Bytes;
      HeadBounds();
      LastBlock();
      chunk := TakeFromHead(head.end - head.begin);
      ReleaseHead();
      HeadBounds();
    }

    /** The loop of Pull: whole blocks are taken until the rest lies in the head. */
    method Drain(total: nat) returns (data: seq<bv8>)
      requires Shape() && total <= |Content()|
      modifies this`head, this`emptyHead, this`usedBlockCnt, this`emptyBlockCnt, this`used, this`free, repr
      ensures Shape() && repr == old(repr) && this !in repr
      ensures |data| == total && old(Content()) == data + Content()
      ensures usedBlockCnt + emptyBlockCnt == old(usedBlockCnt + emptyBlockCnt)
      ensures usedBlockCnt <= old(usedBlockCnt) && tail.end == old(tail.end)
      ensures total <= old(head.end - head.begin) ==>
                && head == old(head) && usedBlockCnt == old(usedBlockCnt)
                && head.end == old(head.end) && head.begin == old(head.begin) + total
    {
      hide Shape, Bytes;
      data := [];
      HeadBounds();
      while total - |data| > head.end - head.begin
        invariant Shape() && repr == old(repr)
        invariant this !in repr && head in repr && head.begin <= head.end && tail.end == old(tail.end)
        invariant |data| <= total && old(Content()) == data + Content()
        invariant usedBlockCnt + emptyBlockCnt == old(usedBlockCnt + emptyBlockCnt)
        invariant usedBlockCnt <= old(usedBlockCnt)
        invariant total <= old(head.end - head.begin) ==>
                    && data == [] && head == old(head) && usedBlockCnt == old(usedBlockCnt)
                    && head.begin == old(head.begin) && head.end == old(head.end)
        decreases usedBlockCnt
      {
        var chunk := DropHead();
        Regroup(data, chunk, Content());
        data := data + chunk;
      }
      HeadBounds();
      var chunk := TakeFromHead(total - |data|);
      Regroup(data, chunk, Content());
      data := data + chunk;
    }

    /** Copies the first min(size, length) bytes and changes nothing. */
    method Read(size: nat) returns (r: nat, data: seq<bv8>)
      requires Valid()
      ensures r == |data| == if size < |Content()| then size else |Content()|
      ensures data <= Content()
    {
      if IsEmpty(1) {
        return 0, [];
      }
      var total := Least(size, contentSize);
      data := Copied(total);
      r := total;
    }

    /** The loop of Read: whole blocks are copied until the rest lies in one block. */
    method Copied(total: nat) returns (data: seq<bv8>)
      requires Shape() && total <= |Content()|
      ensures |data| == total && data <= Content()
    {
      HeadFirst();
      BlockAt(0);
      hide *;
      ghost var all := Content();
      data := [];
      var block, left := head, total;
      ghost var i := 0;
      ghost var rest := Rest(1);
      while left > block.end - block.begin
        invariant i < |used| && block == used[i] && block.begin <= block.end <= block.buf.Length
        invariant 0 <= left && |data| + left == total
        invariant all == data + (block.buf[block.begin..block.end] + rest)
        invariant i + 1 < |used| ==> block.next == used[i + 1]
        invariant rest == Rest(i + 1) && (i + 1 == |used| ==> rest == [])
        decreases |used| - i
      {
        var chunk := block.buf[block.begin..block.end];
        Regroup(data, chunk, rest);
        data, left := data + chunk, left - |chunk|;
        block, i := block.next, i + 1;
        assert i < |used|;
        BlockAt(i);
        rest := Rest(i + 1);
      }
      PrefixOf(data, block.buf[block.begin..block.end], rest, left);
      data := data + block.buf[block.begin..block.end][..left];
    }

    /** The unread bytes from block i on. */
    ghost function Rest(i: nat): seq<bv8>
      requires Shape() && i <= |used|
      reads this`head, this`tail, this`emptyHead, this`usedBlockCnt, this`emptyBlockCnt, this`used, this`free, this`repr, repr
    {
      Bytes(used[i..])
    }

    /**
     * A copy of the whole content, unless the head is drained: then the copy is empty, although
     * later blocks may hold bytes.
     */
    method CopyContent() returns (ret: seq<bv8>)
      requires Valid()
      ensures ret == if head.begin < head.end then Content() else []
      ensures ret == Content() <==> head.begin < head.end || contentSize == 0
    {
      ret := Walked();
    }

    /** The loop of CopyContent. */
    method Walked() returns (ret: seq<bv8>)
      requires Shape()
      ensures ret == if head.begin < head.end then Content() else []
    {
      HeadFirst();
      BlockAt(0);
      hide *;
      ghost var all := Content();
      ret := [];
      var block: Block? := head;
      ghost var i, rest := 0, all;
      while block != null && block.end > block.begin
        invariant i <= |used| && (block == null <==> i == |used|)
        invariant i < |used| ==> block == used[i]
        invariant all == ret + rest && rest == Rest(i)
        invariant i == 0 ==> ret == []
        invariant i > 0 ==> head.begin < head.end
        decreases |used| - i
      {
        BlockAt(i);
        var chunk := block.buf[block.begin..block.end];
        rest := Rest(i + 1);
        Regroup(ret, chunk, rest);
        ret := ret + chunk;
        block, i := block.next, i + 1;
      }
      if 0 < i < |used| {
        OnlyTailEmpty(i);
      }
    }

    /** A block behind the head without unread bytes is the tail, with nothing behind it. */
    lemma OnlyTailEmpty(i: nat)
      requires Shape() && 0 < i < |used| && used[i].begin >= used[i].end
      ensures Rest(i) == []
    {
      BlockAt(i);
    }

    lemma BlockAt(i: nat)
      requires Shape() && i < |used|
      ensures used[i].begin <= used[i].end <= used[i].buf.Length
      ensures used[i].next == if i + 1 < |used| then used[i + 1] else null
      ensures Rest(i) == used[i].buf[used[i].begin..used[i].end] + Rest(i + 1)
      ensures i + 1 == |used| ==> Rest(i + 1) == []
      ensures Rest(0) == Content()
    {
      assert used[i..][1..] == used[i + 1..];
      assert used[0..] == used;
    }

    /** Every free block is released; the content stays. */
    method ShrinkToFit()
      requires Valid()
      modifies this`emptyHead, this`emptyBlockCnt, this`free
      ensures Valid() && emptyHead == null && emptyBlockCnt == 0 && free == []
      ensures Content() == old(Content()) && used == old(used)
    {
      hide Bytes, Segment, Owned, Filled;
      OwnedBuffers(repr, used, free, blockSize);
      SegmentEmpty(free, emptyHead);
      while emptyHead != null
        invariant Segment(free, emptyHead, null) && Owned(repr, used, free, blockSize)
        invariant emptyHead == null <==> free == []
        decreases |free|
      {
        SegmentRest(free, emptyHead, null);
        OwnedFewer(repr, used, free, blockSize);
        SegmentEmpty(free[1..], free[0].next);
        var block := emptyHead.next;
        free := free[1..];
        emptyHead := block;
      }
      emptyBlockCnt := 0;
    }

    /** The full head of a buffer of two blocks, of which nothing was read. */
    lemma TwoBlocks()
      requires Valid() && usedBlockCnt == 2 && |Content()| == blockSize + tail.end
      ensures head.end - head.begin == blockSize && head.end == blockSize
    {
      BlockAt(0);
      BlockAt(1);
      assert used[1] == tail && used[0] == head;
    }

    lemma HeadFirst()
      requires Shape()
      ensures head == used[0]
    {
    }

    lemma HeadBounds()
      requires Shape()
      ensures head in repr && this !in repr && head.begin <= head.end <= head.buf.Length && tail in repr
      ensures |used| == usedBlockCnt > 0
    {
    }

    /** When the content is longer than what the head holds, there is a further block. */
    lemma LastBlock()
      requires Shape() && |Content()| > head.end - head.begin
      ensures |used| > 1
    {
      BytesOfFirst(used);
      BytesOfNone(used[1..]);
    }

    lemma TailInRepr()
      requires Shape()
      ensures tail in repr && tail.buf in repr && tail.end < blockSize && this !in repr
    {
    }

    lemma NextMultiple(size: nat, k: nat)
      requires k > 0
      ensures size * k == size * (k - 1) + size
    {
    }
  }

  /** A call on the buffer. */
  datatype Call = Put(data: seq<bv8>) | Take(n: nat) | Peek(n: nat) | Shrink

  /** What the call offers to the buffer. */
  function Offer(call: Call): seq<bv8> {
    if call.Put? then call.data else []
  }

  /** The bytes of all pushes, in order. */
  function Offered(calls: seq<Call>): seq<bv8> {
    if calls == [] then []
    else Offered(calls[..|calls| - 1]) + Offer(calls[|calls| - 1])
  }

  /** One call: the bytes it made the buffer accept, and the bytes it took. */
  method Do(b: UltraBuf, call: Call) returns (pushed: seq<bv8>, pulled: seq<bv8>)
    requires b.Valid()
    modifies b, b.repr
    ensures b.Valid() && fresh(b.repr - old(b.repr))
    ensures old(b.Content()) + pushed == pulled + b.Content()
    ensures pushed == Offer(call) || (pushed == [] && b.maxBlockNo != 0)
    ensures call.Put? ==>
              var full := old(b.maxBlockNo != 0 && b.usedBlockCnt == b.maxBlockNo && b.tail.end + |call.data| >= b.blockSize);
              (pushed == call.data <==> !full || call.data == [])
    ensures |pulled| == if !call.Take? then 0 else if call.n < |old(b.Content())| then call.n else |old(b.Content())|
  {
    pushed, pulled := [], [];
    match call {
      case Put(data) =>
        var full := b.IsFull(|data|);
        var r := b.Push(data);
        if !full {
          pushed := data;
        }
      case Take(n) =>
        var r;
        r, pulled := b.Pull(n);
      case Peek(n) =>
        var r, data := b.Read(n);
      case Shrink =>
        b.ShrinkToFit();
    }
  }

  /**
   * Any sequence of calls: what was accepted, behind what was there before, is what was taken
   * followed by what is left. Without a cap on the blocks, everything offered is accepted.
   */
  method Run(b: UltraBuf, calls: seq<Call>) returns (pushed: seq<bv8>, pulled: seq<bv8>)
    requires b.Valid()
    modifies b, b.repr
    ensures b.Valid() && old(b.Content()) + pushed == pulled + b.Content()
    ensures b.maxBlockNo == 0 ==> pushed == Offered(calls)
  {
    pushed, pulled := [], [];
    for i := 0 to |calls|
      invariant b.Valid() && fresh(b.repr - old(b.repr))
      invariant old(b.Content()) + pushed == pulled + b.Content()
      invariant b.maxBlockNo == 0 ==> pushed == Offered(calls[..i])
    {
      assert calls[..i + 1][..i] == calls[..i];
      ghost var was := b.Content();
      var more, taken := Do(b, calls[i]);
      Regroup(pulled, was, more);
      Regroup(old(b.Content()), pushed, more);
      Regroup(pulled, taken, b.Content());
      pushed, pulled := pushed + more, pulled + taken;
    }
    assert calls[..|calls|] == calls;
  }

  /** A drained head block hides the bytes of the blocks behind it from CopyContent. */
  method CopyOfDrainedHead() returns (ahead: seq<bv8>, copy: seq<bv8>)
    ensures ahead == [3] && copy == []
  {
    var b := TwoBlocksPushed();
    var r, data := b.Pull(2);
    SplitOfThree(data, b.Content());
    copy := b.CopyContent();
    r, ahead := b.Read(1);
  }

  method TwoBlocksPushed() returns (b: UltraBuf)
    ensures fresh(b) && fresh(b.repr) && b.Valid() && b.Content() == [1, 2, 3]
    ensures b.head.end - b.head.begin == 2
  {
    b := new UltraBuf(2, 0);
    var pushed := b.Push([1, 2, 3]);
    assert b.Content() == [1, 2, 3];
    b.TwoBlocks();
  }

  lemma SplitOfThree(a: seq<bv8>, b: seq<bv8>)
    ensures a + b == [1, 2, 3] && |a| == 2 ==> b == [3]
  {
    if a + b == [1, 2, 3] && |a| == 2 {
      assert b == (a + b)[2..];
    }
  }

  /** A push of more than a block exceeds the cap on the blocks. */
  method CapExceeded() returns (cap: nat, used: nat)
    ensures cap == 2 && used == 3
  {
    var b := new UltraBuf(2, 2);
    var pushed := b.Push([1, 2, 3, 4]);
    cap, used := b.maxBlockNo, b.usedBlockCnt;
  }

  /** The error code of a rejected push is also the length of an accepted one. */
  method RejectionOrLength() returns (r1: nat, r2: nat, b: UltraBuf)
    ensures r1 == r2 == 11
    ensures fresh(b) && b.Valid() && b.Content() == [1, 2, 3, 4, 5, 6, 7, 8, 9, 10, 11]
  {
    var data: seq<bv8> := [1, 2, 3, 4, 5, 6, 7, 8, 9, 10, 11];
    b := new UltraBuf(12, 1);
    r1 := b.Push(data);
    assert b.Content() == data;
    ghost var was := b.Content();
    r2 := b.Push(data);
    assert b.Content() == was;
  }

  /** One byte goes into an empty buffer of one block. */
  method OneByteAccepted() returns (r: nat, b: UltraBuf)
    ensures r == 1 && fresh(b) && b.Valid() && b.Content() == [7]
  {
    b := new UltraBuf(4096, 1);
    r := b.Push([7]);
    assert [] + [7] == [7];
  }
}

/** Fixed-size buffer blocks linked into lists, as both buffers of the source use them. */
module BlockList {

  class Block {
    var next: Block?
    var begin: nat
    var end: nat
    const buf: array<bv8>

    constructor (size: nat)
      ensures next == null && begin == 0 && end == 0
      ensures fresh(buf) && buf.Length == size
    {
      next, begin, end := null, 0, 0;
      buf := new bv8[size](_ => 0);
    }

    method Reset()
      modifies this`next, this`begin, this`end
      ensures next == null && begin == 0 && end == 0
    {
      next, begin, end := null, 0, 0;
    }

    /** A copy of bytes into the buffer at off. */
    method CopyIn(off: nat, bytes: seq<bv8>)
      requires off + |bytes| <= buf.Length
      modifies buf
      ensures buf[..] == old(buf[..off]) + bytes + old(buf[off + |bytes|..])
    {
      for i := 0 to |bytes|
        invariant buf[..off] == old(buf[..off])
        invariant buf[off..off + i] == bytes[..i]
        invariant buf[off + i..] == old(buf[off + i..])
      {
        buf[off + i] := bytes[i];
      }
      assert buf[..] == buf[..off] + buf[off..off + |bytes|] + buf[off + |bytes|..];
    }

    /** A copy of bytes behind the last one. */
    method Append(bytes: seq<bv8>)
      requires begin <= end && end + |bytes| <= buf.Length
      modifies this`end, buf
      ensures end == old(end) + |bytes|
      ensures buf[begin..end] == old(buf[begin..end]) + bytes
    {
      ghost var was := buf[begin..end];
      CopyIn(end, bytes);
      end := end + |bytes|;
      assert buf[begin..end] == was + bytes;
    }
  }

  /** Following next from first passes through exactly these blocks and arrives at after. */
  ghost predicate Segment(blocks: seq<Block>, first: Block?, after: Block?)
    reads blocks`next
  {
    if blocks == [] then first == after
    else
      && first == blocks[0]
      && (forall i :: 0 <= i < |blocks| - 1 ==> blocks[i].next == blocks[i + 1])
      && blocks[|blocks| - 1].next == after
  }

  lemma SegmentFront(blocks: seq<Block>, first: Block?, after: Block?)
    requires blocks != [] && Segment(blocks, first, after)
    ensures Segment(blocks[..|blocks| - 1], first, blocks[|blocks| - 1])
    ensures blocks[|blocks| - 1].next == after
  {
  }

  lemma SegmentEmpty(blocks: seq<Block>, first: Block?)
    requires Segment(blocks, first, null)
    ensures first == null <==> blocks == []
  {
  }

  lemma SegmentSnoc(blocks: seq<Block>, first: Block?, last: Block)
    requires Segment(blocks, first, last)
    ensures Segment(blocks + [last], first, last.next)
  {
  }

  lemma SegmentRest(blocks: seq<Block>, first: Block?, after: Block?)
    requires blocks != [] && Segment(blocks, first, after)
    ensures Segment(blocks[1..], blocks[0].next, after) && first == blocks[0]
  {
  }

  lemma SegmentNext(blocks: seq<Block>, first: Block?, after: Block?)
    requires |blocks| > 1 && Segment(blocks, first, after)
    ensures first == blocks[0] && blocks[0].next == blocks[1]
  {
  }

  lemma SegmentCons(first: Block, blocks: seq<Block>, after: Block?)
    requires Segment(blocks, first.next, after)
    ensures Segment([first] + blocks, first, after)
  {
  }

  /** A further block is linked behind the last one. */
  method LinkBehind(ghost blocks: seq<Block>, ghost first: Block?, last: Block, next: Block)
    requires blocks != [] && last == blocks[|blocks| - 1] && last !in blocks[..|blocks| - 1]
    requires Segment(blocks, first, null)
    modifies last`next
    ensures Segment(blocks, first, next)
  {
    hide Segment;
    ghost var front := blocks[..|blocks| - 1];
    SegmentFront(blocks, first, null);
    last.next := next;
    SegmentSnoc(front, first, last);
    assert blocks == front + [last];
  }

  ghost function Buffers(blocks: seq<Block>): set<array<bv8>> {
    set b | b in blocks :: b.buf
  }

  lemma NotABuffer(x: Block, blocks: seq<Block>)
    ensures var buffers: set<object> := Buffers(blocks); x !in buffers
  {
  }

  /** The blocks of both lists and their buffers belong to repr, and none occurs twice. */
  ghost predicate Owned(repr: set<object>, u: seq<Block>, f: seq<Block>, size: nat) {
    && (forall i :: 0 <= i < |u| ==> u[i] in repr && u[i].buf in repr && u[i].buf.Length == size)
    && (forall i :: 0 <= i < |f| ==> f[i] in repr && f[i].buf in repr && f[i].buf.Length == size)
    && (forall i, j :: 0 <= i < j < |u| ==> u[i] != u[j] && u[i].buf != u[j].buf)
    && (forall i, j :: 0 <= i < j < |f| ==> f[i] != f[j] && f[i].buf != f[j].buf)
    && (forall i, j :: 0 <= i < |u| && 0 <= j < |f| ==> u[i] != f[j] && u[i].buf != f[j].buf)
  }

  /** The last used block is in neither the blocks before it nor the free list. */
  lemma OwnedTail(repr: set<object>, u: seq<Block>, f: seq<Block>, size: nat)
    requires u != [] && Owned(repr, u, f, size)
    ensures var t, front := u[|u| - 1], u[..|u| - 1];
            && t in repr && t.buf in repr && t.buf.Length == size
            && t !in front && t !in f && t.buf !in Buffers(front)
            && u == front + [t]
    ensures forall i :: 0 <= i < |u| - 1 ==> u[i] != u[|u| - 1] && u[i].buf != u[|u| - 1].buf
    ensures forall i :: 0 <= i < |u| ==> u[i].buf.Length == size
  {
  }

  lemma OwnedBuffers(repr: set<object>, u: seq<Block>, f: seq<Block>, size: nat)
    requires Owned(repr, u, f, size)
    ensures forall a :: a in Buffers(u) ==> a in repr
    ensures forall b :: b in u ==> b in repr
  {
  }

  lemma OwnedFront(repr: set<object>, u: seq<Block>, x: Block, f: seq<Block>, size: nat)
    requires Owned(repr, u + [x], f, size)
    ensures Owned(repr, u, f, size) && x !in u
  {
    assert forall i :: 0 <= i < |u| ==> (u + [x])[i] == u[i];
    assert (u + [x])[|u|] == x;
  }

  lemma OwnedHead(repr: set<object>, u: seq<Block>, f: seq<Block>, size: nat)
    requires u != [] && Owned(repr, u, f, size)
    ensures u[0] in repr && u[0].buf in repr
    ensures forall i :: 1 <= i < |u| ==> u[i] != u[0]
    ensures forall i :: 0 <= i < |u| ==> u[i] in repr && u[i].buf.Length == size
  {
  }

  lemma OwnedFree(repr: set<object>, u: seq<Block>, f: seq<Block>, size: nat)
    requires Owned(repr, u, f, size)
    ensures forall b :: b in f ==> b in repr
  {
  }

  /** Nothing that belongs to a used block is a free block. */
  lemma OwnedApart(repr: set<object>, u: seq<Block>, f: seq<Block>, size: nat)
    requires u != [] && Owned(repr, u, f, size)
    ensures forall i, j :: 0 <= i < |u| && 0 <= j < |f| ==> u[i] != f[j]
    ensures var buffers: set<object> := Buffers(u);
            && (forall j :: 0 <= j < |f| ==> f[j] !in buffers)
            && u[|u| - 1] !in buffers
  {
  }

  lemma OwnedFewer(repr: set<object>, u: seq<Block>, f: seq<Block>, size: nat)
    requires f != [] && Owned(repr, u, f, size)
    ensures Owned(repr, u, f[1..], size)
  {
  }

  /** The head moves to the front of the free list. */
  lemma OwnedReleased(repr: set<object>, u: seq<Block>, f: seq<Block>, size: nat)
    requires u != [] && Owned(repr, u, f, size)
    ensures var h, rest := u[0], u[1..];
            && h in repr && h !in rest && h !in f
            && Owned(repr, rest, [h] + f, size)
  {
  }

  /** The first free block moves to the end of the used list. */
  lemma OwnedRecycled(repr: set<object>, u: seq<Block>, f: seq<Block>, size: nat)
    requires f != [] && Owned(repr, u, f, size)
    ensures f[0] in repr && f[0] !in u && f[0] !in f[1..]
    ensures Owned(repr, u + [f[0]], f[1..], size)
  {
  }

  /** A fresh block joins the end of the used list. */
  lemma OwnedNew(repr: set<object>, u: seq<Block>, f: seq<Block>, x: Block, size: nat)
    requires Owned(repr, u, f, size) && x !in repr && x.buf !in repr && x.buf.Length == size
    ensures x !in u
    ensures Owned(repr + {x, x.buf}, u + [x], f, size)
  {
  }

  /** A block, recycled when there is one, is linked behind the tail. */
  method GrowList(ghost repr: set<object>, ghost used: seq<Block>, ghost free: seq<Block>,
                  ghost head: Block?, tail: Block, emptyHead: Block?, size: nat)
    returns (last: Block, emptyHead': Block?, ghost free': seq<Block>, ghost repr': set<object>)
    requires used != [] && tail == used[|used| - 1] && Owned(repr, used, free, size)
    requires Segment(used, head, null) && Segment(free, emptyHead, null)
    modifies tail`next, free`next, free`begin, free`end
    ensures Owned(repr', used + [last], free', size) && Owned(repr', used, free', size)
    ensures last != tail && last.begin == last.end == 0
    ensures Segment(used + [last], head, null) && Segment(free', emptyHead', null)
    ensures free' == if emptyHead == null then free else free[1..]
    ensures emptyHead == null <==> free == []
    ensures repr <= repr' && fresh(repr' - repr)
  {
    hide Segment, Owned;
    SegmentEmpty(free, emptyHead);
    OwnedTail(repr, used, free, size);
    if emptyHead != null {
      SegmentRest(free, emptyHead, null);
      OwnedRecycled(repr, used, free, size);
      last, free', repr' := emptyHead, free[1..], repr;
      LinkBehind(used, head, tail, last);
      emptyHead' := emptyHead.next;
      last.Reset();
    } else {
      last := new Block(size);
      OwnedNew(repr, used, free, last, size);
      LinkBehind(used, head, tail, last);
      emptyHead', free', repr' := null, free, repr + {last, last.buf};
    }
    SegmentSnoc(used, head, last);
    OwnedFront(repr', used, last, free', size);
  }

  /** The head goes to the front of the free list. */
  method ReleaseHead(ghost repr: set<object>, ghost used: seq<Block>, ghost free: seq<Block>,
                     head: Block, emptyHead: Block?, ghost size: nat)
    returns (head': Block)
    requires |used| > 1 && Segment(used, head, null) && Segment(free, emptyHead, null)
    requires Owned(repr, used, free, size)
    modifies head`next
    ensures Segment(used[1..], head', null) && Segment([head] + free, head, null)
    ensures Owned(repr, used[1..], [head] + free, size)
  {
    hide Segment, Owned;
    OwnedReleased(repr, used, free, size);
    SegmentRest(used, head, null);
    SegmentNext(used, head, null);
    head' := head.next;
    head.next := emptyHead;
    SegmentCons(head, free, null);
  }
}

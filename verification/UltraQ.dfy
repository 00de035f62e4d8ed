/** The message queue made of linked blocks, each message framed by its length. */
module UltraQ {
  import opened BlockList
  import opened Common
  import opened Bytes

  type Message = seq<bv8>

  const HEADER_SIZE: nat := 8

  function Frame(m: Message): seq<bv8> {
    ToLE(|m|, HEADER_SIZE) + m
  }

  function Frames(ms: seq<Message>): seq<bv8> {
    if ms == [] then [] else Frame(ms[0]) + Frames(ms[1..])
  }

  /** The messages of all blocks, in order. */
  function Flat(held: seq<seq<Message>>): seq<Message> {
    if held == [] then [] else held[0] + Flat(held[1..])
  }

  /** The number of body bytes. */
  function Total(ms: seq<Message>): nat {
    if ms == [] then 0 else |ms[0]| + Total(ms[1..])
  }

  lemma {:induction false} FramesSnoc(ms: seq<Message>, m: Message)
    ensures Frames(ms + [m]) == Frames(ms) + Frame(m)
  {
    if ms == [] {
      assert ms + [m] == [m] && [m][1..] == [];
    } else {
      FramesSnoc(ms[1..], m);
      assert (ms + [m])[1..] == ms[1..] + [m];
    }
  }

  lemma {:induction false} FlatSnoc(held: seq<seq<Message>>)
    requires held != []
    ensures Flat(held) == Flat(held[..|held| - 1]) + held[|held| - 1]
  {
    if |held| <= 1 {
    } else {
      FlatSnoc(held[1..]);
      assert held[..|held| - 1][1..] == held[1..][..|held| - 2];
    }
  }

  lemma FlatEmpty(held: seq<seq<Message>>)
    ensures held == [] ==> Flat(held) == []
    ensures held != [] ==> Flat(held) == held[0] + Flat(held[1..])
  {
  }

  /** The first message of the first block is the first of all. */
  lemma FlatFirst(held: seq<seq<Message>>)
    requires held != [] && held[0] != []
    ensures [held[0][0]] + Flat([held[0][1..]] + held[1..]) == Flat(held)
    ensures Total(Flat(held)) == |held[0][0]| + Total(Flat([held[0][1..]] + held[1..]))
  {
    var rest := [held[0][1..]] + held[1..];
    assert rest[1..] == held[1..];
    assert [held[0][0]] + held[0][1..] == held[0];
    assert Flat(held)[1..] == Flat(rest);
  }

  lemma {:induction false} TotalSnoc(ms: seq<Message>, m: Message)
    ensures Total(ms + [m]) == Total(ms) + |m|
  {
    if ms == [] {
      assert ms + [m] == [m];
    } else {
      TotalSnoc(ms[1..], m);
      assert (ms + [m])[1..] == ms[1..] + [m];
    }
  }

  /** The first frame of a run of frames can be cut off by its length field alone. */
  lemma FirstFrame(bytes: seq<bv8>, ms: seq<Message>)
    requires bytes == Frames(ms) && |bytes| < 0x1_0000_0000_0000_0000
    ensures bytes == [] <==> ms == []
    ensures ms != [] ==>
              && HEADER_SIZE + |ms[0]| <= |bytes|
              && FromLE(bytes[..HEADER_SIZE]) == |ms[0]|
              && bytes[HEADER_SIZE..HEADER_SIZE + |ms[0]|] == ms[0]
              && bytes[HEADER_SIZE + |ms[0]|..] == Frames(ms[1..])
  {
    if ms != [] {
      var size := ToLE(|ms[0]|, HEADER_SIZE);
      assert bytes == size + ms[0] + Frames(ms[1..]);
      assert bytes[..HEADER_SIZE] == size;
      Pow256Values();
      FromToLE(|ms[0]|, HEADER_SIZE);
    }
  }

  /** Only the first block may be without a message. */
  ghost predicate Busy(held: seq<seq<Message>>) {
    forall i :: 1 <= i < |held| ==> held[i] != []
  }

  /** The last block may have been an empty one, just linked. */
  lemma BusyGrows(held: seq<seq<Message>>, m: Message)
    requires held != []
    ensures var n := |held| - 1;
            && Busy(held + [[m]])  == Busy(held)
            && (Busy(held) ==> Busy(held[..n] + [held[n] + [m]]))
  {
    assert Busy(held + [[m]]) ==> forall i :: 1 <= i < |held| ==> held[i] == (held + [[m]])[i];
  }

  /** A message appended to the last block is appended to the queue. */
  lemma QueueGrows(held: seq<seq<Message>>, m: Message)
    requires held != []
    ensures var n := |held| - 1; Flat(held[..n] + [held[n] + [m]]) == Flat(held) + [m]
  {
    var n := |held| - 1;
    var grown := held[..n] + [held[n] + [m]];
    FlatSnoc(held);
    FlatSnoc(grown);
    assert grown[..n] == held[..n];
    Regroup(Flat(held[..n]), held[n], [m]);
  }

  class UltraQ {
    const blockSize: nat
    const maxBlockNo: nat
    var head: Block
    var tail: Block
    var emptyHead: Block?
    var usedBlockCnt: nat
    var emptyBlockCnt: nat
    var contentSize: nat

    ghost var used: seq<Block>
    ghost var free: seq<Block>
    ghost var repr: set<object>
    /** The unread messages of each used block. */
    ghost var held: seq<seq<Message>>

    /** Every block holds whole frames. */
    ghost predicate Framed(u: seq<Block>, h: seq<seq<Message>>)
      reads u`begin, u`end, Buffers(u)
    {
      && |h| == |u|
      && forall i :: 0 <= i < |u| ==>
           && u[i].begin <= u[i].end <= blockSize == u[i].buf.Length
           && u[i].buf[u[i].begin..u[i].end] == Frames(h[i])
    }

    ghost predicate Shape()
      reads this`head, this`tail, this`emptyHead, this`usedBlockCnt, this`emptyBlockCnt
      reads this`used, this`free, this`repr, this`held, repr
    {
      && HEADER_SIZE <= blockSize < 0x8000_0000_0000_0000
      && |used| == usedBlockCnt > 0 && |free| == emptyBlockCnt
      && this !in repr && Owned(repr, used, free, blockSize)
      && Segment(used, head, null) && Segment(free, emptyHead, null)
      && tail == used[|used| - 1]
      && Framed(used, held)
    }

    /** The messages that wait. */
    ghost function Queue(): seq<Message>
      reads this`held
    {
      Flat(held)
    }

    ghost predicate Valid()
      reads this, repr
    {
      && Shape() && Busy(held)
      && contentSize == Total(Queue())
      && (maxBlockNo != 0 ==> usedBlockCnt <= maxBlockNo)
    }

    constructor (blockSize: nat, maxBlockNo: nat)
      requires HEADER_SIZE <= blockSize < 0x8000_0000_0000_0000
      ensures Valid() && fresh(repr) && Queue() == [] && usedBlockCnt == 1 && tail.end == 0
      ensures this.blockSize == blockSize && this.maxBlockNo == maxBlockNo
    {
      this.blockSize := blockSize;
      this.maxBlockNo := maxBlockNo;
      var b := new Block(blockSize);
      head := b;
      tail := b;
      emptyHead := null;
      usedBlockCnt := 1;
      emptyBlockCnt := 0;
      contentSize := 0;
      used := [b];
      free := [];
      repr := {b, b.buf};
      held := [[]];
      new;
      FlatEmpty(held);
      FlatEmpty([]);
      assert held[1..] == [];
      assert Owned(repr, used, free, blockSize) && Segment(used, head, null) && Framed(used, held);
    }

    predicate IsBlockFull(incoming: nat)
      reads this, tail
    {
      tail.end + HEADER_SIZE + incoming >= blockSize
    }

    predicate IsFull(incoming: nat)
      reads this, tail
    {
      if maxBlockNo != 0 then usedBlockCnt == maxBlockNo && IsBlockFull(incoming) else false
    }

    predicate IsBlockEmpty()
      reads this, head
    {
      head.begin == head.end
    }

    predicate IsEmpty()
      reads this, head, tail
    {
      head == tail && head.begin == tail.end
    }

    /** The test for emptiness looks at two indices only, yet it tells whether a message waits. */
    lemma EmptyMeansEmpty()
      requires Valid()
      ensures IsEmpty() <==> Queue() == []
    {
      FirstFrame(head.buf[head.begin..head.end], held[0]);
      FlatEmpty(held);
      FlatEmpty(held[1..]);
      assert |used| == 1 <==> head == tail;
    }

    /** A block, recycled when there is one, is linked behind the tail. */
    method AddBlock() returns (last: Block)
      requires Shape()
      modifies this`emptyHead, this`usedBlockCnt, this`emptyBlockCnt, this`free, this`repr
      modifies tail`next
      modifies free`next, free`begin, free`end
      ensures Owned(repr, used + [last], free, blockSize) && this !in repr
      ensures Segment(used + [last], head, null) && Segment(free, emptyHead, null)
      ensures Framed(used, held) && last.begin == last.end == 0
      ensures old(repr) <= repr && fresh(repr - old(repr))
      ensures usedBlockCnt == old(usedBlockCnt) + 1 && |free| == emptyBlockCnt
      ensures emptyBlockCnt == if old(emptyBlockCnt) > 0 then old(emptyBlockCnt) - 1 else 0
    {
      hide Segment, Owned, Framed;
      OwnedBuffers(repr, used, free, blockSize);
      OwnedApart(repr, used, free, blockSize);
      var recycled := emptyHead != null;
      last, emptyHead, free, repr := GrowList(repr, used, free, head, tail, emptyHead, blockSize);
      usedBlockCnt := usedBlockCnt + 1;
      if recycled {
        emptyBlockCnt := emptyBlockCnt - 1;
      }
    }

    method AdvanceTail(last: Block)
      requires HEADER_SIZE <= blockSize < 0x8000_0000_0000_0000 && used != [] && this !in repr
      requires Owned(repr, used + [last], free, blockSize)
      requires Segment(used + [last], head, null) && Segment(free, emptyHead, null)
      requires Framed(used, held) && last.begin == last.end == 0
      requires usedBlockCnt == |used| + 1 && |free| == emptyBlockCnt
      modifies this`tail, this`used, this`held
      ensures Shape() && tail == last
      ensures held == old(held) + [[]] && Queue() == old(Queue())
    {
      hide Segment;
      OwnedFront(repr, used, last, free, blockSize);
      OwnedBuffers(repr, used, free, blockSize);
      OwnedBuffers(repr, used + [last], free, blockSize);
      tail := last;
      used := used + [last];
      held := held + [[]];
      FlatSnoc(held);
      assert held[..|held| - 1] == old(held);
    }

    method WriteFrame(data: Message)
      requires tail.begin <= tail.end && tail.end + HEADER_SIZE + |data| <= tail.buf.Length
      modifies tail`end, tail.buf
      ensures tail.end == old(tail.end) + 8 + |data|
      ensures tail.buf[tail.begin..tail.end] == old(tail.buf[tail.begin..tail.end]) + ToLE(|data|, 8) + data
    {
      ghost var was := tail.buf[tail.begin..tail.end];
      var header := ToLE(|data|, HEADER_SIZE);
      tail.Append(header);
      tail.Append(data);
      Regroup(was, header, data);
    }

    /** The frame is written into the tail, which has room for it. */
    method PushImpl(data: Message)
      requires Shape() && tail.end + HEADER_SIZE + |data| <= blockSize
      modifies this`contentSize, this`held, tail`end, tail.buf
      ensures Shape() && contentSize == old(contentSize) + |data|
      ensures |held| > 0 && held == old(held[..|held| - 1] + [held[|held| - 1] + [data]])
      ensures tail.end == old(tail.end) + 8 + |data|
      ensures tail.begin <= tail.end <= tail.buf.Length
      ensures tail.buf[tail.begin..tail.end] == old(tail.buf[tail.begin..tail.end]) + ToLE(|data|, 8) + data
    {
      hide Segment, Owned, Framed;
      OwnedTail(repr, used, free, blockSize);
      OwnedBuffers(repr, used, free, blockSize);
      SameLength(used, held);
      ghost var n := |held| - 1;
      FrameIntoTail(data);
      held := held[..n] + [held[n] + [data]];
      contentSize := contentSize + |data|;
    }

    method FrameIntoTail(data: Message)
      requires used != [] && tail == used[|used| - 1] && tail.end + HEADER_SIZE + |data| <= blockSize
      requires forall i :: 0 <= i < |used| - 1 ==> used[i] != tail && used[i].buf != tail.buf
      requires Framed(used, held) && |held| == |used|
      modifies tail`end, tail.buf
      ensures Framed(used, held[..|held| - 1] + [held[|held| - 1] + [data]])
      ensures tail.end == old(tail.end) + 8 + |data| && tail.begin <= tail.end <= tail.buf.Length
      ensures tail.buf[tail.begin..tail.end] == old(tail.buf[tail.begin..tail.end]) + ToLE(|data|, 8) + data
    {
      hide Frames;
      ghost var n := |held| - 1;
      ghost var grown := held[..n] + [held[n] + [data]];
      FramesSnoc(held[n], data);
      ghost var was := tail.buf[tail.begin..tail.end];
      WriteFrame(data);
      Regroup(was, ToLE(|data|, 8), data);
      forall i | 0 <= i < |used|
        ensures used[i].begin <= used[i].end <= blockSize == used[i].buf.Length
        ensures used[i].buf[used[i].begin..used[i].end] == Frames(grown[i])
      {
        assert i < n ==> used[i] != tail && grown[i] == held[i];
      }
    }

    lemma FramedRest(u: seq<Block>, h: seq<seq<Message>>)
      requires Framed(u, h) && u != []
      ensures h != [] && Framed(u[1..], h[1..])
    {
      hide Frames;
    }

    lemma SameLength(u: seq<Block>, h: seq<seq<Message>>)
      requires Framed(u, h)
      ensures |h| == |u|
    {
    }

    /** The tail moves on to a further block. */
    method NextBlock()
      requires Shape()
      modifies this, repr
      ensures Shape() && old(repr) <= repr && fresh(repr - old(repr)) && tail.begin == tail.end == 0
      ensures held == old(held) + [[]] && Queue() == old(Queue()) && contentSize == old(contentSize)
      ensures usedBlockCnt == old(usedBlockCnt) + 1
      ensures emptyBlockCnt == if old(emptyBlockCnt) > 0 then old(emptyBlockCnt) - 1 else 0
    {
      hide Segment, Owned, Framed, Flat;
      OwnedTail(repr, used, free, blockSize);
      OwnedFree(repr, used, free, blockSize);
      var last := AddBlock();
      AdvanceTail(last);
    }

    /** The critical section of Push, entered when the test for a full queue has failed. */
    method PushLocked(data: Message) returns (r: nat)
      requires Valid() && !IsFull(|data|) && |data| <= blockSize - HEADER_SIZE
      modifies this, repr
      ensures Valid() && fresh(repr - old(repr))
      ensures r == |data| && Queue() == old(Queue()) + [data]
      ensures usedBlockCnt == old(usedBlockCnt) + (if old(tail.end + 8 + |data| >= blockSize) then 1 else 0)
      ensures emptyBlockCnt
              == old(emptyBlockCnt) - (if old(tail.end + 8 + |data| >= blockSize && emptyBlockCnt > 0) then 1 else 0)
    {
      hide Segment, Owned, Framed, Flat, Total, Busy;
      OwnedTail(repr, used, free, blockSize);
      SameLength(used, held);
      BusyGrows(held, data);
      QueueGrows(held, data);
      TotalSnoc(Queue(), data);
      if IsBlockFull(|data|) {
        ghost var was := held;
        NextBlock();
        OwnedTail(repr, used, free, blockSize);
        assert held[..|was|] == was && held[|was|] + [data] == [data];
        QueueGrows(held, data);
      }
      PushImpl(data);
      r := |data|;
    }

    /**
     * Appends a message, or rejects it: with 0 when there is a cap, it is reached, and the frame fills
     * the last block; otherwise with -1 when the frame never fits a block.
     */
    method Push(data: Message) returns (r: int)
      requires Valid()
      modifies this, repr
      ensures Valid() && fresh(repr - old(repr))
      ensures var full := old(maxBlockNo != 0 && usedBlockCnt == maxBlockNo && tail.end + 8 + |data| >= blockSize);
              && (full || |data| > blockSize - 8 ==> r == (if full then 0 else -1) && Queue() == old(Queue()))
              && (!full && |data| <= blockSize - 8 ==> r == |data| && Queue() == old(Queue()) + [data])
              && (r == 0 <==> full || |data| == 0)
      ensures (old(maxBlockNo != 0 && usedBlockCnt == maxBlockNo && tail.end + 8 + |data| >= blockSize) || |data| > blockSize - 8)
              ==> unchanged(this) && unchanged(repr)
    {
      if IsFull(|data|) {
        return 0;
      }
      if |data| > blockSize - HEADER_SIZE {
        return -1;
      }
      r := PushLocked(data);
    }

    /** The drained head goes to the front of the free list. */
    method ReleaseHead()
      requires Shape() && |used| > 1 && held[0] == []
      modifies this`head, this`emptyHead, this`usedBlockCnt, this`emptyBlockCnt, this`used, this`free, this`held
      modifies head`next
      ensures Shape() && held == old(held[1..])
      ensures tail == old(tail) && usedBlockCnt == old(usedBlockCnt) - 1 && emptyBlockCnt == old(emptyBlockCnt) + 1
    {
      hide Segment, Owned, Framed;
      OwnedBuffers(repr, used, free, blockSize);
      NotABuffer(head, used[1..]);
      SameLength(used, held);
      FramedRest(used, held);
      assert used[1..][|used| - 2] == tail;
      var cur := head;
      head := BlockList.ReleaseHead(repr, used, free, cur, emptyHead, blockSize);
      emptyHead := cur;
      emptyBlockCnt := emptyBlockCnt + 1;
      usedBlockCnt := usedBlockCnt - 1;
      used, free, held := used[1..], [cur] + free, held[1..];
    }

    /** The first message of the head is copied out by its length field. */
    method ReadFrame() returns (data: Message)
      requires Shape() && held[0] != [] && |held[0][0]| <= contentSize
      modifies this`contentSize, this`held, head`begin
      ensures data == old(held[0][0]) && held == old([held[0][1..]] + held[1..])
      ensures Shape() && contentSize == old(contentSize) - |data|
    {
      hide Segment, Owned, Framed;
      OwnedHead(repr, used, free, blockSize);
      OwnedBuffers(repr, used, free, blockSize);
      HeadFirst();
      SameLength(used, held);
      data := CutFrame();
      contentSize := contentSize - |data|;
      held := [held[0][1..]] + held[1..];
    }

    method CutFrame() returns (data: Message)
      requires used != [] && head == used[0] && Framed(used, held) && held[0] != []
      requires blockSize < 0x8000_0000_0000_0000
      requires forall i :: 1 <= i < |used| ==> used[i] != used[0]
      modifies head`begin
      ensures Framed(used, [held[0][1..]] + held[1..]) && data == held[0][0]
    {
      hide Frames;
      ghost var bytes, rest := head.buf[head.begin..head.end], [held[0][1..]] + held[1..];
      FirstFrame(bytes, held[0]);
      PartOf(head.buf[..], head.begin, HEADER_SIZE, head.end);
      var bodySize := FromLE(head.buf[head.begin..head.begin + HEADER_SIZE]);
      var body := head.begin + HEADER_SIZE;
      PartOf(head.buf[..], head.begin, HEADER_SIZE + bodySize, head.end);
      PartOf(head.buf[..], body, bodySize, head.end);
      assert bytes[HEADER_SIZE..] == head.buf[body..head.end];
      data := head.buf[body..body + bodySize];
      head.begin := body + bodySize;
      forall i | 0 <= i < |used|
        ensures used[i].begin <= used[i].end <= blockSize == used[i].buf.Length
        ensures used[i].buf[used[i].begin..used[i].end] == Frames(rest[i])
      {
        if i == 0 {
          assert head.buf[head.begin..head.end] == bytes[HEADER_SIZE + bodySize..];
        } else {
          assert used[i] != head && rest[i] == held[i];
        }
      }
    }

    /**
     * The critical section of Pull, entered when the test for an empty queue has failed: drained
     * blocks are skipped, at most one of them, and a later block holds the first message.
     */
    method PullLocked() returns (r: nat, data: Message)
      requires Valid() && Queue() != []
      modifies this, repr
      ensures Valid() && repr == old(repr)
      ensures [data] + Queue() == old(Queue()) && r == |data|
      ensures tail == old(tail) && tail.end == old(tail.end)
      ensures old(usedBlockCnt) - 1 <= usedBlockCnt <= old(usedBlockCnt)
      ensures usedBlockCnt + emptyBlockCnt == old(usedBlockCnt + emptyBlockCnt)
      ensures forall n :: !old(IsFull(n)) ==> !IsFull(n)
    {
      hide Segment, Owned, Framed, Flat;
      ghost var all := Queue();
      HeadFirst();
      SameLength(used, held);
      while IsBlockEmpty()
        invariant Shape() && Busy(held) && repr == old(repr) && Flat(held) == all
        invariant contentSize == old(contentSize) && this !in repr && head in repr
        invariant usedBlockCnt + emptyBlockCnt == old(usedBlockCnt + emptyBlockCnt)
        invariant tail == old(tail) && tail.end == old(tail.end) && |held| > 0
        invariant usedBlockCnt == old(usedBlockCnt) || (usedBlockCnt == old(usedBlockCnt) - 1 && held[0] != [])
        decreases usedBlockCnt
      {
        HeadDrained();
        SkipBlock();
      }
      HeadDrained();
      FlatFirst(held);
      data := ReadFrame();
      r := |data|;
    }

    /** One round of the loop of PullLocked. */
    method SkipBlock()
      requires Shape() && Busy(held) && head.begin == head.end && Flat(held) != []
      modifies this`head, this`emptyHead, this`usedBlockCnt, this`emptyBlockCnt, this`used, this`free, this`held
      modifies head`next
      ensures Shape() && Busy(held) && Flat(held) == old(Flat(held))
      ensures tail == old(tail) && usedBlockCnt == old(usedBlockCnt) - 1 && emptyBlockCnt == old(emptyBlockCnt) + 1
      ensures |held| > 0 && held[0] != []
      ensures head in repr
    {
      hide Segment, Owned, Framed;
      SameLength(used, held);
      HeadDrained();
      FlatEmpty(held);
      FlatEmpty(held[1..]);
      ReleaseHead();
      SameLength(used, held);
      HeadFirst();
    }

    lemma HeadFirst()
      requires Shape()
      ensures head == used[0] && head in repr
    {
    }

    lemma HeadDrained()
      requires Shape()
      ensures head.begin == head.end <==> held[0] == []
    {
      FirstFrame(head.buf[head.begin..head.end], held[0]);
    }

    /** Removes the first message; an empty queue is left alone and answers 0. */
    method Pull() returns (r: nat, data: Message)
      requires Valid()
      modifies this, repr
      ensures Valid() && repr == old(repr)
      ensures old(Queue()) == [] ==> r == 0 && unchanged(this) && unchanged(repr)
      ensures old(Queue()) != [] ==> [data] + Queue() == old(Queue()) && r == |data|
      ensures r == 0 <==> old(Queue()) == [] || |old(Queue())[0]| == 0
    {
      EmptyMeansEmpty();
      if IsEmpty() {
        return 0, [];
      }
      r, data := PullLocked();
    }
  }

  /** An accepted message without bytes answers 0 like a rejected one, and pulled like an empty queue. */
  method ZeroAnswers()
    returns (rejected: int, accepted: int, message: nat, none: nat, q: UltraQ, ghost waiting: seq<seq<Message>>)
    ensures rejected == accepted == 0 && message == none == 0
    ensures fresh(q) && q.Valid() && waiting == [[], [], [[]], []] && q.Queue() == []
  {
    hide UltraQ.Shape;
    q := new UltraQ(16, 1);
    var r, data := q.Pull();
    none, waiting := r, [q.Queue()];
    rejected := q.Push([1, 2, 3, 4, 5, 6, 7, 8]);
    waiting := waiting + [q.Queue()];
    accepted := q.Push([]);
    assert q.Queue() == [[]];
    waiting := waiting + [q.Queue()];
    message, data := q.Pull();
    assert q.Queue() == [];
    waiting := waiting + [q.Queue()];
  }

  /** What one of the two threads does when it is scheduled next. */
  datatype Turn = Produce(data: Message) | Consume

  /**
   * One producer and one consumer, in any interleaving. Each call takes the lock twice: once for
   * the test and once for the work, and the other thread may run in between. A turn runs one locked
   * section, so a thread that has passed its test works at its next turn. The tests stay valid in
   * between, as the preconditions of the second sections require, and what was sent is what was
   * received followed by what waits.
   */
  method Interleave(q: UltraQ, turns: seq<Turn>) returns (sent: seq<Message>, received: seq<Message>)
    requires q.Valid()
    modifies q, q.repr
    ensures q.Valid() && old(q.Queue()) + sent == received + q.Queue()
  {
    sent, received := [], [];
    var producer: Option<Message>, consuming := None, false;
    for i := 0 to |turns|
      invariant q.Valid() && fresh(q.repr - old(q.repr))
      invariant old(q.Queue()) + sent == received + q.Queue()
      invariant producer.Some? ==> !q.IsFull(|producer.value|) && |producer.value| <= q.blockSize - HEADER_SIZE
      invariant consuming ==> q.Queue() != []
    {
      ghost var was := q.Queue();
      match turns[i] {
        case Produce(data) =>
          if producer.Some? {
            var r := q.PushLocked(producer.value);
            Regroup(received, was, [producer.value]);
            Regroup(old(q.Queue()), sent, [producer.value]);
            sent, producer := sent + [producer.value], None;
          } else if !q.IsFull(|data|) && |data| <= q.blockSize - HEADER_SIZE {
            producer := Some(data);
          }
        case Consume =>
          if consuming {
            var r, data := q.PullLocked();
            Regroup(received, [data], q.Queue());
            received, consuming := received + [data], false;
          } else {
            q.EmptyMeansEmpty();
            consuming := !q.IsEmpty();
          }
      }
    }
  }
}

/** The block list of the allocator as a value. */
module FirstFitSpec {

  const META_SIZE: nat := 32    // sizeof(block_meta)

  /** A block: its payload size, whether it is free, and the size last asked of it. */
  datatype Info = Info(size: nat, free: bool, want: nat)

  type Layout = seq<Info>

  /** Bytes of heap below block `i`: headers and payloads of all blocks before it. */
  function Offset(l: Layout, i: nat): nat
    requires i <= |l|
  {
    if i == 0 then 0 else Offset(l, i - 1) + META_SIZE + l[i - 1].size
  }

  function HeapSize(l: Layout): nat { Offset(l, |l|) }

  /** Where the payload of block `i` begins and ends, relative to the heap's start. */
  function PayloadStart(l: Layout, i: nat): nat
    requires i < |l|
  {
    Offset(l, i) + META_SIZE
  }

  function PayloadEnd(l: Layout, i: nat): nat
    requires i < |l|
  {
    PayloadStart(l, i) + l[i].size
  }

  predicate Fits(b: Info, size: nat) { b.free && b.size >= size }

  /** The first free block that is large enough, or the number of blocks. */
  function FirstFit(l: Layout, size: nat): (i: nat)
    ensures i <= |l| && (i < |l| ==> Fits(l[i], size))
    ensures forall j :: 0 <= j < i ==> !Fits(l[j], size)
  {
    if l == [] then 0 else if Fits(l[0], size) then 0 else 1 + FirstFit(l[1..], size)
  }

  predicate NoneFits(l: Layout, size: nat) { forall i :: 0 <= i < |l| ==> !(l[i].free && l[i].size >= size) }

  /** Whether a request is met: not for size 0, nor if the heap would pass its limit. */
  predicate Served(l: Layout, size: nat, limit: nat) {
    size > 0 && (FirstFit(l, size) < |l| || HeapSize(l) + META_SIZE + size <= limit)
  }

  function Malloc(l: Layout, size: nat, limit: nat): Layout {
    var i := FirstFit(l, size);
    if !Served(l, size, limit) then l
    else if i < |l| then l[i := Info(l[i].size, false, size)]
    else l + [Info(size, false, size)]
  }

  function Free(l: Layout, i: nat): Layout
    requires i < |l|
  {
    l[i := l[i].(free := true)]
  }

  // ----- runs

  datatype Op = DoMalloc(size: nat) | DoFree(i: nat)

  predicate Legal(l: Layout, op: Op) { op.DoFree? ==> op.i < |l| }

  function Step(l: Layout, op: Op, limit: nat): Layout
    requires Legal(l, op)
  {
    match op
    case DoMalloc(size) => Malloc(l, size, limit)
    case DoFree(i) => Free(l, i)
  }

  predicate LegalRun(l: Layout, ops: seq<Op>, limit: nat)
    decreases |ops|
  {
    ops == [] || (Legal(l, ops[0]) && LegalRun(Step(l, ops[0], limit), ops[1..], limit))
  }

  function Run(l: Layout, ops: seq<Op>, limit: nat): Layout
    requires LegalRun(l, ops, limit)
    decreases |ops|
  {
    if ops == [] then l else Run(Step(l, ops[0], limit), ops[1..], limit)
  }

  /** A run is its calls one after the other. */
  lemma {:induction false} RunSnoc(l: Layout, ops: seq<Op>, op: Op, limit: nat)
    ensures LegalRun(l, [], limit) && Run(l, [], limit) == l
    ensures LegalRun(l, ops + [op], limit) <==> LegalRun(l, ops, limit) && Legal(Run(l, ops, limit), op)
    ensures LegalRun(l, ops + [op], limit) ==> Run(l, ops + [op], limit) == Step(Run(l, ops, limit), op, limit)
    decreases |ops|
  {
    hide Step, Legal;
    if ops == [] {
      assert ops + [op] == [op] && [op][1..] == [];
    } else {
      assert (ops + [op])[0] == ops[0] && (ops + [op])[1..] == ops[1..] + [op];
      if Legal(l, ops[0]) { RunSnoc(Step(l, ops[0], limit), ops[1..], op, limit); }
    }
  }

  /** Every block is at least as large as was last asked of it, and the heap is within its limit. */
  ghost predicate Sound(l: Layout, limit: nat) {
    HeapSize(l) <= limit && forall i :: 0 <= i < |l| ==> 0 < l[i].want <= l[i].size
  }

  /** Blocks keep their place and size. */
  ghost predicate Grows(l: Layout, l': Layout) {
    |l| <= |l'| && forall i :: 0 <= i < |l| ==> l'[i].size == l[i].size
  }

  lemma {:induction false} SameOffsets(l: Layout, l': Layout, i: nat)
    requires Grows(l, l') && i <= |l|
    ensures Offset(l', i) == Offset(l, i)
  {
    if i > 0 { SameOffsets(l, l', i - 1); }
  }

  lemma StepSound(l: Layout, op: Op, limit: nat)
    requires Sound(l, limit) && Legal(l, op)
    ensures Sound(Step(l, op, limit), limit) && Grows(l, Step(l, op, limit))
  {
    SameOffsets(l, Step(l, op, limit), |l|);
  }

  /** Over every run: blocks never move or change size, and none is smaller than asked. */
  lemma {:induction false} RunSound(l: Layout, ops: seq<Op>, limit: nat)
    requires Sound(l, limit) && LegalRun(l, ops, limit)
    ensures Sound(Run(l, ops, limit), limit) && Grows(l, Run(l, ops, limit))
    decreases |ops|
  {
    if ops != [] {
      StepSound(l, ops[0], limit);
      RunSound(Step(l, ops[0], limit), ops[1..], limit);
    }
  }

  /** Payloads follow one another in address order, without overlap. */
  lemma {:induction false} PayloadsDisjoint(l: Layout, i: nat, j: nat)
    requires i < j < |l|
    ensures PayloadEnd(l, i) + META_SIZE <= PayloadStart(l, j) && PayloadEnd(l, j) <= HeapSize(l)
    decreases j
  {
    OffsetsRise(l, i + 1, j);
    OffsetsRise(l, j + 1, |l|);
  }

  lemma {:induction false} OffsetsRise(l: Layout, i: nat, j: nat)
    requires i <= j <= |l|
    ensures Offset(l, i) <= Offset(l, j)
    decreases j
  {
    if i < j { OffsetsRise(l, i, j - 1); }
  }

  /** The heap grows exactly when no free block fits a request that is met. */
  lemma GrowsIffNoFit(l: Layout, size: nat, limit: nat)
    ensures |Malloc(l, size, limit)| > |l| <==>
      Served(l, size, limit) && NoneFits(l, size)
  {
  }

  /** The block a request gets. */
  function Granted(l: Layout, size: nat, limit: nat): (i: nat)
    requires Served(l, size, limit)
    ensures i < |Malloc(l, size, limit)|
  {
    FirstFit(l, size)
  }

  /** A request is met exactly if some free block fits it or the heap has room for it. */
  lemma ServedIff(l: Layout, size: nat, limit: nat)
    ensures Served(l, size, limit) <==>
      size > 0 && (!NoneFits(l, size) || HeapSize(l) + 32 + size <= limit)
  {
  }

  /** What a request that is met does: the first block that fits is taken as it is, or a block of exactly
      the size asked is put at the end; it is in use, at least as large as asked, and the rest is as before. */
  lemma MallocExact(l: Layout, size: nat, limit: nat)
    requires Served(l, size, limit)
    ensures var l', i := Malloc(l, size, limit), Granted(l, size, limit);
      && !l'[i].free && l'[i].size >= size
      && (forall j :: 0 <= j < |l| && j != i ==> l'[j] == l[j])
      && if !NoneFits(l, size)
         then |l'| == |l| && i < |l| && l'[i].size == l[i].size && l[i].free && NoneFits(l[..i], size)
         else |l'| == |l| + 1 && i == |l| && l'[i].size == size
  {
  }

  /** A request that is not met changes nothing. */
  lemma RefusedChangesNothing(l: Layout, size: nat, limit: nat)
    requires !Served(l, size, limit)
    ensures Malloc(l, size, limit) == l
  {
  }

  /** `op` hands out block `i`. */
  predicate HandsOut(l: Layout, op: Op, limit: nat, i: nat) {
    op.DoMalloc? && Served(l, op.size, limit) && Granted(l, op.size, limit) == i
  }

  predicate EverHandsOut(l: Layout, ops: seq<Op>, limit: nat, i: nat)
    requires LegalRun(l, ops, limit)
    decreases |ops|
  {
    ops != [] && (HandsOut(l, ops[0], limit, i) || EverHandsOut(Step(l, ops[0], limit), ops[1..], limit, i))
  }

  /** A block in use is not handed out again, and not touched, until it is freed. */
  lemma {:induction false} InUseIsExclusive(l: Layout, ops: seq<Op>, limit: nat, i: nat)
    requires LegalRun(l, ops, limit) && i < |l| && !l[i].free
    requires forall k :: 0 <= k < |ops| ==> ops[k] != DoFree(i)
    ensures !EverHandsOut(l, ops, limit, i)
    ensures i < |Run(l, ops, limit)| && Run(l, ops, limit)[i] == l[i]
    decreases |ops|
  {
    if ops != [] {
      assert ops[0] != DoFree(i);
      var l' := Step(l, ops[0], limit);
      assert i < |l'| && l'[i] == l[i];
      InUseIsExclusive(l', ops[1..], limit, i);
    }
  }

  /** Until it is freed, the block a request got is in use, as large as asked, and no other request gets it. */
  lemma LiveIsLargeEnough(l: Layout, size: nat, ops: seq<Op>, limit: nat)
    requires Served(l, size, limit) && LegalRun(Malloc(l, size, limit), ops, limit)
    requires forall k :: 0 <= k < |ops| ==> ops[k] != DoFree(Granted(l, size, limit))
    ensures var l', i := Malloc(l, size, limit), Granted(l, size, limit);
      && !EverHandsOut(l', ops, limit, i) && i < |Run(l', ops, limit)|
      && Run(l', ops, limit)[i].size >= size && !Run(l', ops, limit)[i].free
  {
    hide Run, LegalRun, EverHandsOut, Malloc;
    MallocExact(l, size, limit);
    InUseIsExclusive(Malloc(l, size, limit), ops, limit, Granted(l, size, limit));
  }

  /** Freeing makes one block free and changes nothing else. */
  lemma FreeExact(l: Layout, i: nat)
    requires i < |l|
    ensures |Free(l, i)| == |l| && Free(l, i)[i].free && Free(l, i)[i].size == l[i].size
    ensures forall j :: 0 <= j < |l| && j != i ==> Free(l, i)[j] == l[j]
  {
  }

  /** A freed block is the one the same request gets back when nothing earlier fits. */
  lemma FreedIsReused(l: Layout, i: nat, limit: nat)
    requires i < |l| && !l[i].free && 0 < l[i].want <= l[i].size
    requires forall j :: 0 <= j < i ==> !Fits(l[j], l[i].want)
    ensures Malloc(Free(l, i), l[i].want, limit) == l
  {
    var f := Free(l, i);
    assert Fits(f[i], l[i].want) && forall j :: 0 <= j < i ==> f[j] == l[j];
    assert FirstFit(f, l[i].want) == i;
  }
}

/** The allocator itself: block headers linked in address order, changed in place. */
module FirstFit {
  import opened FirstFitSpec

  /** A block_meta; `addr` is where it lies in the heap, counted from the heap's start. */
  class Block {
    const addr: nat
    var size: nat
    var free: bool
    var next: Block?
    var prev: Block?

    /** Memory fresh from sbrk is zero. */
    constructor (addr: nat)
      ensures this.addr == addr && size == 0 && !free && next == null && prev == null
    {
      this.addr, size, free, next, prev := addr, 0, false, null, null;
    }
  }

  ghost function At(s: seq<Block>, i: int): Block? {
    if 0 <= i < |s| then s[i] else null
  }

  ghost predicate Linked(s: seq<Block>)
    reads s`next, s`prev
  {
    && (forall i, j :: 0 <= i < j < |s| ==> s[i] != s[j])
    && (forall i {:trigger s[i].next} :: 0 <= i < |s| ==> s[i].next == At(s, i + 1))
    && (forall i {:trigger s[i].prev} :: 0 <= i < |s| ==> s[i].prev == At(s, i - 1))
  }

  /** The headers say what the layout says, each where the layout puts it. */
  ghost predicate Describes(s: seq<Block>, l: Layout)
    reads s`size, s`free
  {
    && |s| == |l|
    && forall i {:trigger s[i]} :: 0 <= i < |s| ==>
         s[i].size == l[i].size && s[i].free == l[i].free && s[i].addr == Offset(l, i)
  }

  /** The new block becomes the last of the list. */
  method LinkLast(last: Block?, b: Block, ghost s: seq<Block>)
    requires Linked(s) && last == At(s, |s| - 1) && b !in s && b.prev == null
    modifies s`next, b`prev, b`next
    ensures Linked(s + [b])
  {
    if last != null {
      last.next := b;
      b.prev := last;
    }
    b.next := null;
  }

  lemma AppendDescribed(s: seq<Block>, l: Layout, b: Block, limit: nat)
    requires Describes(s, l) && b.addr == HeapSize(l) && b.size > 0 && !b.free
    requires Sound(l, limit) && HeapSize(l) + META_SIZE + b.size <= limit
    ensures var l' := l + [Info(b.size, false, b.size)];
      Describes(s + [b], l') && HeapSize(l') == HeapSize(l) + META_SIZE + b.size && Sound(l', limit)
  {
    var l' := l + [Info(b.size, false, b.size)];
    forall i | 0 <= i <= |l| ensures Offset(l', i) == Offset(l, i) {
      SameOffsets(l, l', i);
    }
  }

  class Heap {
    const limit: nat
    var head: Block?            // HEAD_BLOCK_META
    var brk: nat                // the program break

    ghost var blocks: seq<Block>
    ghost var layout: Layout

    ghost predicate Valid()
      reads this, blocks
    {
      && head == At(blocks, 0)
      && Linked(blocks)
      && Describes(blocks, layout)
      && brk == HeapSize(layout)
      && Sound(layout, limit)
    }

    constructor (limit: nat)
      ensures Valid() && layout == [] && blocks == [] && this.limit == limit
    {
      this.limit := limit;
      head, brk, blocks, layout := null, 0, [], [];
    }

    /** search_free_space, with the block it passed last. */
    method SearchFreeSpace(size: nat) returns (current: Block?, last: Block?, ghost i: nat)
      requires Valid()
      ensures i == FirstFit(layout, size) && current == At(blocks, i)
      ensures current == null ==> last == At(blocks, |blocks| - 1)
    {
      current, last, i := head, head, 0;
      while current != null && !(current.free && current.size >= size)
        invariant i <= |blocks| && current == At(blocks, i)
        invariant last == if i == 0 then head else blocks[i - 1]
        invariant forall j :: 0 <= j < i ==> !FirstFitSpec.Fits(layout[j], size)
        decreases |blocks| - i
      {
        last := current;
        current, i := current.next, i + 1;
      }
      assert i < |blocks| ==> FirstFitSpec.Fits(layout[i], size);
    }

    /** sbrk: the break moves up, or the call fails. */
    method Sbrk(n: nat) returns (ok: bool, at: nat)
      modifies this`brk
      ensures at == old(brk)
      ensures ok <==> old(brk) + n <= limit
      ensures brk == if ok then old(brk) + n else old(brk)
    {
      at := brk;
      ok := brk + n <= limit;
      if ok { brk := brk + n; }
    }

    /** allocate_space */
    method AllocateSpace(last: Block?, size: nat) returns (b: Block?)
      requires Valid() && size > 0 && last == At(blocks, |blocks| - 1)
      modifies this`brk, this`blocks, this`layout, blocks`next
      ensures b == null <==> HeapSize(old(layout)) + META_SIZE + size > limit
      ensures b == null ==> unchanged(this) && unchanged(blocks)
      ensures b != null ==> fresh(b) && blocks == old(blocks) + [b] && layout == old(layout) + [Info(size, false, size)]
      ensures b != null ==> b.addr == old(brk) && b.size == size && brk == old(brk) + 32 + size
      ensures b != null ==> Linked(blocks) && Describes(blocks, layout) && brk == HeapSize(layout) && Sound(layout, limit)
    {
      hide Linked, Describes, Sound;
      var ok, at := Sbrk(size + META_SIZE);
      if !ok {
        return null;
      }
      b := new Block(at);
      b.size := size;
      LinkLast(last, b, blocks);
      AppendDescribed(blocks, layout, b, limit);
      blocks := blocks + [b];
      layout := layout + [Info(size, false, size)];
    }

    /** my_malloc; the payload begins META_SIZE past the block's address. */
    method MyMalloc(size: nat) returns (b: Block?)
      requires Valid()
      modifies this, blocks`free, blocks`next
      ensures Valid() && layout == Malloc(old(layout), size, limit)
      ensures b != null <==> Served(old(layout), size, limit)
      ensures b != null ==> b in blocks && b.addr == Offset(layout, Granted(old(layout), size, limit)) && !b.free && b.size >= size
      ensures if blocks == old(blocks) then brk == old(brk)
        else fresh(b) && blocks == old(blocks) + [b] && b.addr == old(brk) && b.size == size && brk == old(brk) + 32 + size
      ensures b == null <==> size == 0 || (old(brk) + 32 + size > limit && NoneFits(old(layout), size))
    {
      ServedIff(layout, size, limit);
      if size == 0 {
        return null;
      }
      if head == null {
        b := AllocateSpace(null, size);
        if b == null {
          return;
        }
        head := b;
      } else {
        var last;
        ghost var i;
        b, last, i := SearchFreeSpace(size);
        if b == null {
          b := AllocateSpace(last, size);
        } else {
          Reuse(b, size, i);
        }
      }
    }

    /** The search found a block: it is marked as used. */
    method Reuse(b: Block, ghost size: nat, ghost i: nat)
      requires Valid() && size > 0 && i == FirstFit(layout, size) < |blocks| && b == blocks[i]
      modifies this`layout, b`free
      ensures Valid() && layout == Malloc(old(layout), size, limit) && !b.free
    {
      b.free := false;
      layout := Malloc(layout, size, limit);
      StepSound(old(layout), DoMalloc(size), limit);
      forall j | 0 <= j <= |layout| ensures Offset(layout, j) == Offset(old(layout), j) {
        SameOffsets(old(layout), layout, j);
      }
    }

    /** free; the pointer is NULL or one that my_malloc returned. */
    method FreeBlock(b: Block?, ghost i: nat)
      requires Valid() && (b != null ==> i < |blocks| && b == blocks[i])
      modifies this`layout, blocks`free
      ensures Valid() && layout == if b == null then old(layout) else Free(old(layout), i)
    {
      if b == null {
        return;
      }
      b.free := true;
      layout := Free(layout, i);
      StepSound(old(layout), DoFree(i), limit);
      forall j | 0 <= j <= |layout| ensures Offset(layout, j) == Offset(old(layout), j) {
        SameOffsets(old(layout), layout, j);
      }
    }

    /** Payloads in memory: in address order, a header apart, and below the break. */
    lemma PayloadsApart(i: nat, j: nat)
      requires Valid() && i < j < |blocks|
      ensures blocks[i].addr + META_SIZE + blocks[i].size <= blocks[j].addr
      ensures blocks[j].addr + META_SIZE + blocks[j].size <= brk
    {
      PayloadsDisjoint(layout, i, j);
    }

    /** One call: `DoFree(i)` frees the payload of the block that was the `i`-th to be made. */
    method Apply(op: Op, got: seq<Block>) returns (got': seq<Block>)
      requires Valid() && got == blocks && Legal(layout, op)
      modifies this, blocks`free, blocks`next
      ensures Valid() && got' == blocks && layout == Step(old(layout), op, limit)
      ensures old(blocks) <= blocks && forall i :: |old(blocks)| <= i < |blocks| ==> fresh(blocks[i])
    {
      got' := got;
      match op
      case DoMalloc(size) =>
        var b := MyMalloc(size);
        if b != null && b !in got {
          got' := got + [b];
        }
      case DoFree(i) =>
        FreeBlock(got[i], i);
    }

    /** Any sequence of calls: the list in memory ends as the layout model says, payloads apart. */
    method Replay(ops: seq<Op>, got: seq<Block>) returns (got': seq<Block>)
      requires Valid() && got == blocks && LegalRun(layout, ops, limit)
      modifies this, blocks`free, blocks`next
      ensures Valid() && got' == blocks && layout == Run(old(layout), ops, limit)
      ensures forall i, j :: 0 <= i < j < |got'| ==> got'[i].addr + META_SIZE + got'[i].size <= got'[j].addr
      ensures got <= got'
    {
      hide Valid, Step, Legal;
      got' := got;
      for k := 0 to |ops|
        invariant Valid() && got' == blocks && old(blocks) <= blocks
        invariant forall i :: |old(blocks)| <= i < |blocks| ==> fresh(blocks[i])
        invariant LegalRun(layout, ops[k..], limit)
        invariant Run(layout, ops[k..], limit) == Run(old(layout), ops, limit)
      {
        assert ops[k..][0] == ops[k] && ops[k..][1..] == ops[k + 1..];
        got' := Apply(ops[k], got');
      }
      forall i, j | 0 <= i < j < |got'| ensures got'[i].addr + META_SIZE + got'[i].size <= got'[j].addr {
        PayloadsApart(i, j);
      }
    }
  }
}

/** The block list of a reassembler: sorted, non-overlapping, non-empty blocks, where the bytes that
    arrived first win. */
module FragBlocks {
  import opened Options
  import opened Octet

  datatype Block = Block(start: nat, data: seq<Byte>) {
    function Upper(): nat { start + |data| }
  }

  /** Every block is non-empty and ends before the next one begins. */
  ghost predicate Ordered(bs: seq<Block>) {
    && (forall i :: 0 <= i < |bs| ==> bs[i].data != [])
    && (forall i, j :: 0 <= i < j < |bs| ==> bs[i].Upper() <= bs[j].start)
  }

  /** The byte held for position x, if any. */
  function Look(bs: seq<Block>, x: nat): Option<Byte> {
    if bs == [] then None
    else if bs[0].start <= x < bs[0].Upper() then Some(bs[0].data[x - bs[0].start])
    else Look(bs[1..], x)
  }

  /** What position x holds after a block arrives: older bytes are kept. */
  function Merged(oldByte: Option<Byte>, b: Block, x: nat): Option<Byte> {
    if oldByte.Some? then oldByte
    else if b.start <= x < b.Upper() then Some(b.data[x - b.start])
    else None
  }

  // ---------------------------------------------------------------- lookup

  lemma {:induction false} LookConcat(a: seq<Block>, b: seq<Block>, x: nat)
    ensures Look(a + b, x) == if Look(a, x).Some? then Look(a, x) else Look(b, x)
  {
    if a == [] {
      assert a + b == b;
    } else {
      assert (a + b)[1..] == a[1..] + b;
      LookConcat(a[1..], b, x);
    }
  }

  lemma {:induction false} LookNone(bs: seq<Block>, x: nat)
    requires forall i :: 0 <= i < |bs| ==> !(bs[i].start <= x < bs[i].Upper())
    ensures Look(bs, x) == None
  {
    if bs != [] {
      LookNone(bs[1..], x);
    }
  }

  lemma {:induction false} LookAt(bs: seq<Block>, i: nat, x: nat)
    requires Ordered(bs) && i < |bs| && bs[i].start <= x < bs[i].Upper()
    ensures Look(bs, x) == Some(bs[i].data[x - bs[i].start])
  {
    if i > 0 {
      assert bs[0].Upper() <= bs[i].start;
      LookAt(bs[1..], i - 1, x);
    }
  }

  /** A position between two neighbouring blocks, before the first or after the last, is empty. */
  lemma LookGap(bs: seq<Block>, k: nat, x: nat)
    requires Ordered(bs) && k <= |bs|
    requires k > 0 ==> bs[k - 1].Upper() <= x
    requires k < |bs| ==> x < bs[k].start
    ensures Look(bs, x) == None
  {
    forall i | 0 <= i < |bs| ensures !(bs[i].start <= x < bs[i].Upper()) {
      if i < k - 1 {
        assert bs[i].Upper() <= bs[k - 1].start;
      } else if i > k {
        assert bs[k].Upper() <= bs[i].start;
      }
    }
    LookNone(bs, x);
  }

  // ---------------------------------------------------------------- insertion

  function Spliced(bs: seq<Block>, k: nat, b: Block): seq<Block>
    requires k <= |bs|
  {
    bs[..k] + [b] + bs[k..]
  }

  /** `b` lies in the gap before block k. */
  ghost predicate Gap(bs: seq<Block>, k: nat, b: Block) {
    && k <= |bs| && b.data != []
    && (k > 0 ==> bs[k - 1].Upper() <= b.start)
    && (k < |bs| ==> b.Upper() <= bs[k].start)
  }

  lemma SplicedKeeps(bs: seq<Block>, k: nat, b: Block)
    requires Ordered(bs) && Gap(bs, k, b)
    ensures Ordered(Spliced(bs, k, b))
  {
    var s := Spliced(bs, k, b);
    forall i, j | 0 <= i < j < |s| ensures s[i].Upper() <= s[j].start {
      if i < k - 1 {
        assert bs[i].Upper() <= bs[k - 1].start;
      }
      if j > k + 1 {
        assert bs[k].Upper() <= bs[j - 1].start;
      }
    }
  }

  lemma SplicedLook(bs: seq<Block>, k: nat, b: Block, x: nat)
    requires Ordered(bs) && Gap(bs, k, b)
    ensures Look(Spliced(bs, k, b), x) == Merged(Look(bs, x), b, x)
  {
    LookConcat(bs[..k] + [b], bs[k..], x);
    LookConcat(bs[..k], [b], x);
    LookConcat(bs[..k], bs[k..], x);
    assert bs[..k] + bs[k..] == bs;
    if b.start <= x < b.Upper() {
      LookGap(bs, k, x);
    }
  }

  /** First block from k on that does not end at or before `start`, or the last block. */
  function Skip(bs: seq<Block>, k: nat, start: nat): (i: nat)
    requires k < |bs|
    ensures k <= i < |bs|
    ensures forall j :: k <= j < i ==> bs[j].Upper() <= start
    ensures i + 1 < |bs| ==> bs[i].Upper() > start
    decreases |bs| - k
  {
    if k + 1 < |bs| && bs[k].Upper() <= start then Skip(bs, k + 1, start) else k
  }

  /** Index of the last block that starts at or before `start`; 0 if there is none. */
  function AtOrBefore(bs: seq<Block>, start: nat): (k: nat)
    requires bs != []
    ensures k < |bs|
    ensures k > 0 ==> bs[k].start <= start
    ensures forall j :: k < j < |bs| ==> bs[j].start > start
  {
    if |bs| == 1 || bs[|bs| - 1].start <= start then |bs| - 1
    else AtOrBefore(bs[..|bs| - 1], start)
  }

  /** Insert with a hint: new data fills the gaps from block `hint` on, and is dropped where older
      data is already present. */
  function InsertedFrom(bs: seq<Block>, hint: nat, start: nat, data: seq<Byte>): seq<Block>
    requires hint < |bs| && data != []
    decreases |data|
  {
    var upper := start + |data|;
    if start == bs[|bs| - 1].Upper() then bs + [Block(start, data)]
    else
      var i := Skip(bs, hint, start);
      var b := bs[i];
      if b.Upper() <= start then bs + [Block(start, data)]
      else if upper <= b.start then Spliced(bs, i, Block(start, data))
      else if start < b.start then
        var prefix := b.start - start;
        var bs' := Spliced(bs, i, Block(start, data[..prefix]));
        if upper > b.Upper() && b.data != [] then InsertedFrom(bs', i + 1, b.Upper(), data[b.Upper() - start..])
            else bs'
      else if upper > b.Upper() then InsertedFrom(bs, i, b.Upper(), data[b.Upper() - start..])
      else bs
  }

  function Inserted(bs: seq<Block>, start: nat, data: seq<Byte>): seq<Block>
    requires data != []
  {
    if bs == [] then [Block(start, data)] else InsertedFrom(bs, AtOrBefore(bs, start), start, data)
  }

  /** Every block before `hint` ends at or before `start`. */
  ghost predicate Hinted(bs: seq<Block>, hint: nat, start: nat) {
    hint < |bs| && forall j :: 0 <= j < hint ==> bs[j].Upper() <= start
  }

  /** The cases of InsertedFrom for the block the scan stops at. */
  lemma InsertedFromCases(bs: seq<Block>, hint: nat, start: nat, data: seq<Byte>, i: nat)
    requires hint < |bs| && data != [] && i == Skip(bs, hint, start) && bs[i].data != []
    ensures var b, upper, r := bs[i], start + |data|, InsertedFrom(bs, hint, start, data);
            if start == bs[|bs| - 1].Upper() || b.Upper() <= start then r == bs + [Block(start, data)]
            else if upper <= b.start then r == Spliced(bs, i, Block(start, data))
            else
              var bs' := if start < b.start then Spliced(bs, i, Block(start, data[..b.start - start])) else bs;
              r == if upper > b.Upper() then
                  InsertedFrom(bs', if start < b.start then i + 1 else i, b.Upper(), data[b.Upper() - start..])
                   else bs'
  {
    hide Skip, Spliced;
  }

  /** Insertion keeps the list ordered, and at every position gives the older byte if there was one
      and the new byte otherwise. */
  lemma {:induction false} InsertedFromKeeps(bs: seq<Block>, hint: nat, start: nat, data: seq<Byte>, x: nat)
    requires Ordered(bs) && Hinted(bs, hint, start) && data != []
    ensures Ordered(InsertedFrom(bs, hint, start, data))
    ensures Look(InsertedFrom(bs, hint, start, data), x) == Merged(Look(bs, x), Block(start, data), x)
    decreases |data|
  {
    hide Look, Skip, InsertedFrom, Spliced, Merged;
    InsertedFromCases(bs, hint, start, data, Skip(bs, hint, start));
    var newBlock := Block(start, data);
    var upper := start + |data|;
    var i := Skip(bs, hint, start);
    var b := bs[i];
    SplicedEnd(bs, newBlock);
    if start == bs[|bs| - 1].Upper() || b.Upper() <= start {
      SplicedKeeps(bs, |bs|, newBlock);
      SplicedLook(bs, |bs|, newBlock, x);
    } else if upper <= b.start {
      SplicedKeeps(bs, i, newBlock);
      SplicedLook(bs, i, newBlock, x);
    } else if start < b.start {
      assert i > 0 ==> bs[i - 1].Upper() <= start;
      PrefixInserted(bs, i, start, data, x);
      var bs' := Spliced(bs, i, Block(start, data[..b.start - start]));
      if upper > b.Upper() {
        HintedNext(bs, i, start, data);
        InsertedFromKeeps(bs', i + 1, b.Upper(), data[b.Upper() - start..], x);
        MergedAgain(Look(bs, x), Look(bs', x), newBlock, b.Upper(), x);
      } else {
        MergedBeyond(Look(bs, x), newBlock, b.Upper(), x);
      }
    } else {
      if start <= x < b.Upper() {
        LookAt(bs, i, x);
      }
      if upper > b.Upper() {
        InsertedFromKeeps(bs, i, b.Upper(), data[b.Upper() - start..], x);
        MergedAgain(Look(bs, x), Look(bs, x), newBlock, b.Upper(), x);
      } else {
        MergedBeyond(Look(bs, x), newBlock, b.Upper(), x);
      }
    }
  }

  /** Once the part below `from` is settled, merging the rest is merging the whole. */
  lemma MergedAgain(before: Option<Byte>, after: Option<Byte>, b: Block, from: nat, x: nat)
    requires b.start <= from <= b.Upper() && (b.start <= x < from ==> after.Some?)
    requires after == before || (x < from && after == Merged(before, b, x))
    ensures Merged(after, Block(from, b.data[from - b.start..]), x) == Merged(before, b, x)
  {
  }

  /** Merging changes nothing where the block does not reach or a byte is held. */
  lemma MergedBeyond(before: Option<Byte>, b: Block, from: nat, x: nat)
    requires b.Upper() <= from
    ensures x >= from ==> Merged(before, b, x) == before
    ensures before.Some? || x < b.start ==> Merged(before, b, x) == before
  {
  }

  lemma SplicedEnd(bs: seq<Block>, b: Block)
    ensures Spliced(bs, |bs|, b) == bs + [b]
  {
  }

  lemma HintedNext(bs: seq<Block>, i: nat, start: nat, data: seq<Byte>)
    requires Ordered(bs) && i < |bs| && start < bs[i].start < start + |data|
    ensures var bs' := Spliced(bs, i, Block(start, data[..bs[i].start - start]));
            Hinted(bs', i + 1, bs[i].Upper()) && bs'[i + 1] == bs[i]
  {
  }

  /** The part before block i goes into the gap; positions up to the end of block i are then settled. */
  lemma PrefixInserted(bs: seq<Block>, i: nat, start: nat, data: seq<Byte>, x: nat)
    requires Ordered(bs) && i < |bs| && start < bs[i].start < start + |data|
    requires i > 0 ==> bs[i - 1].Upper() <= start
    ensures var bs' := Spliced(bs, i, Block(start, data[..bs[i].start - start]));
            && Ordered(bs')
            && (Look(bs', x) == if x < bs[i].Upper() then Merged(Look(bs, x), Block(start, data), x) else Look(bs, x))
            && (start <= x < bs[i].Upper() ==> Look(bs', x).Some?)
  {
    var b := Block(start, data[..bs[i].start - start]);
    SplicedKeeps(bs, i, b);
    SplicedLook(bs, i, b, x);
    if bs[i].start <= x < bs[i].Upper() {
      LookAt(bs, i, x);
    }
  }

  lemma {:induction false} AtOrBeforeHints(bs: seq<Block>, start: nat)
    requires Ordered(bs) && bs != []
    ensures Hinted(bs, AtOrBefore(bs, start), start)
  {
    var k := AtOrBefore(bs, start);
    forall j | 0 <= j < k ensures bs[j].Upper() <= start {
      assert bs[j].Upper() <= bs[k].start;
    }
  }

  lemma InsertedKeeps(bs: seq<Block>, start: nat, data: seq<Byte>, x: nat)
    requires Ordered(bs) && data != []
    ensures Ordered(Inserted(bs, start, data)) && Inserted(bs, start, data) != []
    ensures Look(Inserted(bs, start, data), x) == Merged(Look(bs, x), Block(start, data), x)
  {
    if bs != [] {
      AtOrBeforeHints(bs, start);
      InsertedFromKeeps(bs, AtOrBefore(bs, start), start, data, x);
      InsertedFromKeeps(bs, AtOrBefore(bs, start), start, data, start);
    }
  }
}

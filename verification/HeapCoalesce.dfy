/** Coalescing, the effect of merge_blocks in kernel/mm/heap.c on the block list: a heap
    without free neighbours is determined by its used blocks, and coalescing yields that one. */
module HeapCoalesce {
  import opened HeapBlocks

  /** No two neighbours are both free. */
  ghost predicate Coalesced(bs: seq<Block>) {
    forall i, j :: 0 <= i && j == i + 1 && j < |bs| ==> bs[i].used || bs[j].used
  }

  // ---- The canonical form ------------------------------------------------------------

  /** A tiling without free neighbours is determined by its used blocks alone. */
  lemma {:induction false} CanonicalForm(a: seq<Block>, b: seq<Block>, lo: nat, hi: nat)
    requires Tiles(a, lo, hi) && Tiles(b, lo, hi)
    requires Coalesced(a) && Coalesced(b) && Used(a) == Used(b)
    ensures a == b
  {
    hide Used, Coalesced;
    if a == [] {
      if b != [] { Within(b, lo, hi, 0); }
    } else if b == [] {
      Within(a, lo, hi, 0);
    } else {
      HeadsAgree(a, b, lo, hi);
      CoalescedTail(a);
      CoalescedTail(b);
      UsedTail(a);
      UsedTail(b);
      CanonicalForm(a[1..], b[1..], a[0].End(), hi);
      assert a == [a[0]] + a[1..] && b == [b[0]] + b[1..];
    }
  }

  lemma {:induction false} UsedTail(bs: seq<Block>)
    requires bs != []
    ensures bs[0].used ==> Used(bs) != []
    ensures Used(bs[1..]) == if bs[0].used then Used(bs)[1..] else Used(bs)
  {
  }

  lemma {:induction false} CoalescedTail(bs: seq<Block>)
    requires Coalesced(bs) && bs != []
    ensures Coalesced(bs[1..])
  {
    assert forall i :: 0 <= i < |bs| - 1 ==> bs[1..][i] == bs[i + 1];
  }

  lemma {:induction false} HeadsAgree(a: seq<Block>, b: seq<Block>, lo: nat, hi: nat)
    requires Tiles(a, lo, hi) && Tiles(b, lo, hi) && a != [] && b != []
    requires Coalesced(a) && Coalesced(b) && Used(a) == Used(b)
    ensures a[0] == b[0]
  {
    FirstUsed(a, lo, hi);
    FirstUsed(b, lo, hi);
  }

  /** In a coalesced tiling the first used block is the first or the second block. */
  lemma {:induction false} FirstUsed(bs: seq<Block>, lo: nat, hi: nat)
    requires Tiles(bs, lo, hi) && bs != [] && Coalesced(bs)
    ensures bs[0].used ==> Used(bs) != [] && Used(bs)[0] == bs[0]
    ensures !bs[0].used && Used(bs) != [] ==> Used(bs)[0].at == bs[0].End()
    ensures !bs[0].used && Used(bs) == [] ==> bs[0].End() == hi
  {
    Within(bs, lo, hi, 0);
    if !bs[0].used {
      if |bs| > 1 {
        assert bs[1..][0] == bs[1] && bs[1].used;
        assert Used(bs) == Used(bs[1..]) == [bs[1]] + Used(bs[1..][1..]);
      } else {
        assert bs[1..] == [];
      }
    }
  }

  // ---- Coalescing --------------------------------------------------------------------

  /** Reference coalescing, from the right. */
  function Coalesce(bs: seq<Block>): seq<Block> {
    if |bs| <= 1 then bs else Absorb(bs[0], Coalesce(bs[1..]))
  }

  /** b followed by the coalesced blocks r, with b and r's head joined when both are free. */
  function Absorb(b: Block, r: seq<Block>): seq<Block> {
    if r != [] && !b.used && !r[0].used
    then [Block(b.at, b.units + 1 + r[0].units, false)] + r[1..]
    else [b] + r
  }

  lemma {:induction false} CoalesceProperties(bs: seq<Block>, lo: nat, hi: nat)
    requires Tiles(bs, lo, hi)
    ensures Tiles(Coalesce(bs), lo, hi) && Coalesced(Coalesce(bs))
    ensures Used(Coalesce(bs)) == Used(bs)
    ensures bs != [] ==> Coalesce(bs) != []
  {
    if |bs| > 1 {
      var r := Coalesce(bs[1..]);
      CoalesceProperties(bs[1..], bs[0].End(), hi);
      AbsorbProperties(bs[0], r, hi);
      assert bs == [bs[0]] + bs[1..];
    } else if |bs| == 1 {
      assert bs[1..] == [];
    }
  }

  lemma {:induction false} AbsorbProperties(b: Block, r: seq<Block>, hi: nat)
    requires Tiles(r, b.End(), hi) && Coalesced(r)
    ensures Tiles(Absorb(b, r), b.at, hi) && Coalesced(Absorb(b, r))
    ensures Used(Absorb(b, r)) == (if b.used then [b] else []) + Used(r)
  {
    var a := Absorb(b, r);
    if r != [] && !b.used && !r[0].used {
      assert a[1..] == r[1..];
      assert forall i :: 1 <= i < |r| ==> a[i] == r[i];
    } else {
      assert a[1..] == r;
      assert forall i :: 0 <= i < |r| ==> a[i + 1] == r[i];
      assert forall i :: 1 <= i < |a| ==> a[i] == r[i - 1];
    }
  }

  /** Coalescing a coalesced list changes nothing; in particular merge_blocks is idempotent. */
  lemma {:induction false} CoalesceIdempotent(bs: seq<Block>, lo: nat, hi: nat)
    requires Tiles(bs, lo, hi)
    ensures Coalesced(bs) <==> Coalesce(bs) == bs
    ensures Coalesce(Coalesce(bs)) == Coalesce(bs)
  {
    CoalesceProperties(bs, lo, hi);
    CoalesceProperties(Coalesce(bs), lo, hi);
    CanonicalForm(Coalesce(Coalesce(bs)), Coalesce(bs), lo, hi);
    if Coalesced(bs) {
      CanonicalForm(Coalesce(bs), bs, lo, hi);
    }
  }

  /** A maximal run of k free blocks becomes one block with the run's payload and its k - 1
      inner headers; what is left and right of it coalesces on its own. */
  lemma {:induction false} CoalesceRun(pre: seq<Block>, run: seq<Block>, post: seq<Block>, lo: nat, hi: nat)
    requires Tiles(pre + run + post, lo, hi)
    requires run != [] && forall i :: 0 <= i < |run| ==> !run[i].used
    requires pre != [] ==> pre[|pre| - 1].used
    requires post != [] ==> post[0].used
    ensures Coalesce(pre + run + post)
         == Coalesce(pre) + [Block(run[0].at, SumUnits(run, false) + |run| - 1, false)] + Coalesce(post)
  {
    hide Coalesce, Used, Coalesced, SumUnits;
    var m1 := EndOf(pre, lo);
    var bs := pre + run + post;
    assert bs == pre + (run + post);
    TilesSplit(pre, run + post, lo, hi);
    TilesSplit(run, post, m1, hi);
    var m2 := EndOf(run, m1);
    var one := Block(run[0].at, SumUnits(run, false) + |run| - 1, false);
    FreeRunSpan(run, m1, m2);
    CoalesceProperties(pre, lo, m1);
    CoalesceProperties(post, m2, hi);
    CoalesceProperties(bs, lo, hi);
    UsedConcat(pre, run);
    UsedConcat(pre + run, post);
    CoalesceKeepsUsedEnds(pre, lo, m1);
    CoalesceKeepsUsedEnds(post, m2, hi);
    FreeBetween(Coalesce(pre), one, Coalesce(post), lo, hi);
    CanonicalForm(Coalesce(bs), Coalesce(pre) + [one] + Coalesce(post), lo, hi);
  }

  lemma {:induction false} FreeBetween(a: seq<Block>, free: Block, c: seq<Block>, lo: nat, hi: nat)
    requires Tiles(a, lo, free.at) && Tiles(c, free.End(), hi) && !free.used && Coalesced(a) && Coalesced(c)
    requires a != [] ==> a[|a| - 1].used
    requires c != [] ==> c[0].used
    ensures var r := a + [free] + c;
      Tiles(r, lo, hi) && Coalesced(r) && Used(r) == Used(a) + Used(c)
  {
    hide Tiles, Used, Coalesced;
    OneFree(free);
    TilesJoin(a, [free], lo, free.at, free.End());
    TilesJoin(a + [free], c, lo, free.End(), hi);
    UsedConcat(a, [free]);
    UsedConcat(a + [free], c);
    CoalescedJoin(a, [free]);
    CoalescedJoin(a + [free], c);
  }

  lemma {:induction false} OneFree(free: Block)
    requires !free.used
    ensures Tiles([free], free.at, free.End()) && Used([free]) == [] && Coalesced([free])
  {
    assert [free][1..] == [];
  }

  lemma {:induction false} CoalescedJoin(a: seq<Block>, b: seq<Block>)
    requires Coalesced(a) && Coalesced(b)
    requires a != [] && b != [] ==> a[|a| - 1].used || b[0].used
    ensures Coalesced(a + b)
  {
    var r := a + b;
    forall i, j | 0 <= i && j == i + 1 && j < |r| ensures r[i].used || r[j].used {
      if i >= |a| {
        assert b[i - |a|].used || b[j - |a|].used;
      }
    }
  }

  lemma {:induction false} FreeRunSpan(run: seq<Block>, lo: nat, hi: nat)
    requires Tiles(run, lo, hi)
    requires forall i :: 0 <= i < |run| ==> !run[i].used
    ensures hi == lo + SumUnits(run, false) + |run| && Used(run) == []
  {
    if run != [] {
      FreeRunSpan(run[1..], run[0].End(), hi);
    }
  }

  lemma {:induction false} CoalesceKeepsUsedEnds(bs: seq<Block>, lo: nat, hi: nat)
    requires Tiles(bs, lo, hi)
    ensures Coalesce(bs) == [] <==> bs == []
    ensures bs != [] && bs[0].used ==> Coalesce(bs)[0] == bs[0]
    ensures bs != [] && bs[|bs| - 1].used ==> Coalesce(bs)[|Coalesce(bs)| - 1] == bs[|bs| - 1]
  {
    if |bs| > 1 {
      CoalesceKeepsUsedEnds(bs[1..], bs[0].End(), hi);
    }
  }
}

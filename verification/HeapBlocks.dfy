/** Block lists of the kernel heap, as values: what kernel/mm/heap.c's linked headers
    denote, when they tile the heap, and what replacing some of its blocks leaves alone.
    Positions and lengths count 16-byte granules from the start of the heap: a block is
    one header granule followed by `units` payload granules. */
module HeapBlocks {

  const HEADER_BYTES := 16
  const ALIGNMENT := 16
  const PAGE_BYTES := 4096
  const PAGE_UNITS := 256
  const EXPAND_BYTES := 0x10000

  datatype Block = Block(at: nat, units: nat, used: bool) {
    function End(): nat { at + 1 + units }
    predicate Fits(need: nat) { !used && units >= need }
  }

  /** The blocks cover the granules [lo, hi) exactly, in address order, without gap or overlap. */
  ghost predicate Tiles(bs: seq<Block>, lo: nat, hi: nat) {
    if bs == [] then lo == hi else bs[0].at == lo && Tiles(bs[1..], bs[0].End(), hi)
  }

  function EndOf(bs: seq<Block>, lo: nat): nat {
    if bs == [] then lo else bs[|bs| - 1].End()
  }

  function Used(bs: seq<Block>): seq<Block> {
    if bs == [] then [] else if bs[0].used then [bs[0]] + Used(bs[1..]) else Used(bs[1..])
  }

  /** Payload granules held by the used (or by the free) blocks. */
  function SumUnits(bs: seq<Block>, used: bool): nat {
    if bs == [] then 0 else (if bs[0].used == used then bs[0].units else 0) + SumUnits(bs[1..], used)
  }

  // ---- Used blocks -------------------------------------------------------------------

  lemma {:induction false} UsedConcat(a: seq<Block>, b: seq<Block>)
    ensures Used(a + b) == Used(a) + Used(b)
  {
    if a == [] {
      assert a + b == b;
    } else {
      UsedConcat(a[1..], b);
      assert (a + b)[1..] == a[1..] + b;
    }
  }

  lemma {:induction false} UsedMember(bs: seq<Block>, b: Block)
    ensures b in Used(bs) <==> b in bs && b.used
  {
    if bs != [] {
      UsedMember(bs[1..], b);
    }
  }

  lemma {:induction false} NoUsed(bs: seq<Block>)
    requires forall b :: b in bs ==> !b.used
    ensures Used(bs) == []
  {
    if bs != [] {
      NoUsed(bs[1..]);
    }
  }

  // ---- Tilings -----------------------------------------------------------------------

  lemma {:induction false} TilesIndex(bs: seq<Block>, lo: nat, hi: nat)
    requires Tiles(bs, lo, hi)
    ensures lo <= hi && EndOf(bs, lo) == hi
    ensures forall i :: 0 <= i < |bs| ==> lo <= bs[i].at && bs[i].End() <= hi
    ensures forall i, j :: 0 <= i < j < |bs| ==> bs[i].End() <= bs[j].at
    ensures forall i, j :: 0 <= i && j == i + 1 && j < |bs| ==> bs[i].End() == bs[j].at
  {
    if bs != [] {
      TilesIndex(bs[1..], bs[0].End(), hi);
      assert forall i :: 0 < i < |bs| ==> bs[i] == bs[1..][i - 1];
    }
  }

  lemma {:induction false} Within(bs: seq<Block>, lo: nat, hi: nat, i: nat)
    requires Tiles(bs, lo, hi) && i < |bs|
    ensures lo <= bs[i].at && bs[i].End() <= hi
    ensures bs[i].End() == hi <==> i + 1 == |bs|
    ensures i + 1 < |bs| ==> bs[i + 1].at == bs[i].End()
  {
    TilesIndex(bs, lo, hi);
    if i + 1 < |bs| {
      Before(bs, lo, hi, i, i + 1);
    }
  }

  lemma {:induction false} Before(bs: seq<Block>, lo: nat, hi: nat, i: nat, j: nat)
    requires Tiles(bs, lo, hi) && i < j < |bs|
    ensures bs[i].End() <= bs[j].at && (j == i + 1 ==> bs[i].End() == bs[j].at)
  {
    TilesIndex(bs, lo, hi);
  }

  lemma {:induction false} TilesJoin(a: seq<Block>, b: seq<Block>, lo: nat, mid: nat, hi: nat)
    requires Tiles(a, lo, mid) && Tiles(b, mid, hi)
    ensures Tiles(a + b, lo, hi)
  {
    if a == [] {
      assert a + b == b;
    } else {
      TilesJoin(a[1..], b, a[0].End(), mid, hi);
      assert (a + b)[1..] == a[1..] + b;
    }
  }

  lemma {:induction false} TilesSplit(a: seq<Block>, b: seq<Block>, lo: nat, hi: nat)
    requires Tiles(a + b, lo, hi)
    ensures Tiles(a, lo, EndOf(a, lo))
    ensures Tiles(b, EndOf(a, lo), hi)
  {
    if a == [] {
      assert a + b == b;
    } else {
      assert (a + b)[1..] == a[1..] + b;
      TilesSplit(a[1..], b, a[0].End(), hi);
      assert EndOf(a[1..], a[0].End()) == EndOf(a, lo);
    }
  }

  /** bs with the k blocks from i on replaced by mid. */
  function Replace(bs: seq<Block>, i: nat, k: nat, mid: seq<Block>): seq<Block>
    requires i + k <= |bs|
  {
    bs[..i] + mid + bs[i + k..]
  }

  /** Replacing blocks by others over the same granules keeps the tiling, and changes the
      used blocks only there. */
  lemma {:induction false} ReplaceTiles(bs: seq<Block>, lo: nat, hi: nat, i: nat, k: nat, mid: seq<Block>)
    requires Tiles(bs, lo, hi) && 0 < k && i + k <= |bs|
    requires Tiles(mid, bs[i].at, bs[i + k - 1].End())
    ensures Tiles(Replace(bs, i, k, mid), lo, hi)
    ensures Used(bs) == Used(bs[..i]) + Used(bs[i..i + k]) + Used(bs[i + k..])
    ensures Used(Replace(bs, i, k, mid)) == Used(bs[..i]) + Used(mid) + Used(bs[i + k..])
  {
    var pre, old_, post := bs[..i], bs[i..i + k], bs[i + k..];
    assert bs == pre + (old_ + post) && bs == pre + old_ + post;
    TilesSplit(pre, old_ + post, lo, hi);
    TilesSplit(old_, post, EndOf(pre, lo), hi);
    assert old_[0] == bs[i] && (old_ + post)[0] == bs[i] && old_[k - 1] == bs[i + k - 1];
    TilesJoin(pre, mid, lo, bs[i].at, bs[i + k - 1].End());
    TilesJoin(pre + mid, post, lo, bs[i + k - 1].End(), hi);
    UsedConcat(pre, old_);
    UsedConcat(pre + old_, post);
    UsedConcat(pre, mid);
    UsedConcat(pre + mid, post);
  }
}

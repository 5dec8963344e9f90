/** memcpy of lib/string.c: an ascending copy loop, used on disjoint buffers by krealloc and
    on overlapping ones by vga_scroll. */
module Memory {

  /** The contents after n steps of the ascending loop; each step reads what earlier steps wrote. */
  function CopyAscending<T>(s: seq<T>, dst: nat, src: nat, n: nat): (r: seq<T>)
    requires dst + n <= |s| && src + n <= |s|
    ensures |r| == |s|
  {
    if n == 0 then s
    else var t := CopyAscending(s, dst, src, n - 1); t[dst + n - 1 := t[src + n - 1]]
  }

  /** The contents memmove would leave. */
  function Moved<T>(s: seq<T>, dst: nat, src: nat, n: nat): (r: seq<T>)
    requires dst + n <= |s| && src + n <= |s|
    ensures |r| == |s|
  {
    seq(|s|, k requires 0 <= k < |s| => if dst <= k < dst + n then s[src + (k - dst)] else s[k])
  }

  /** i modulo d. */
  function Wrap(i: nat, d: nat): (r: nat)
    requires d > 0
    ensures r < d && r <= i
  {
    if i < d then i else Wrap(i - d, d)
  }

  /** Where copied cell i really comes from: with the destination just above the source the
      loop repeats the first dst - src cells. */
  function Origin(dst: nat, src: nat, i: nat): (o: nat)
    ensures src <= o <= src + i
  {
    if src < dst then src + Wrap(i, dst - src) else src + i
  }

  lemma {:induction false} CopyAscendingAt<T>(s: seq<T>, dst: nat, src: nat, n: nat, k: nat)
    requires dst + n <= |s| && src + n <= |s| && k < |s|
    ensures CopyAscending(s, dst, src, n)[k] == if dst <= k < dst + n then s[Origin(dst, src, k - dst)] else s[k]
    decreases n, k
  {
    if n > 0 {
      CopyAscendingAt(s, dst, src, n - 1, k);
      if k == dst + n - 1 {
        CopyAscendingAt(s, dst, src, n - 1, src + n - 1);
      }
    }
  }

  /** Cell i arrives unspoilt: it equals the cell it really comes from. */
  predicate Arrives<T(==)>(s: seq<T>, dst: nat, src: nat, n: nat, i: nat)
    requires src + n <= |s| && i < n
  {
    s[src + i] == s[Origin(dst, src, i)]
  }

  /** The ascending loop moves the data exactly when every cell arrives: always when the
      destination is not inside the source, else only for data that already repeats with
      period dst - src. */
  lemma {:induction false} MoveExactly<T>(s: seq<T>, dst: nat, src: nat, n: nat)
    requires dst + n <= |s| && src + n <= |s|
    ensures CopyAscending(s, dst, src, n) == Moved(s, dst, src, n) <==>
      forall i :: 0 <= i < n ==> Arrives(s, dst, src, n, i)
  {
    var c, m := CopyAscending(s, dst, src, n), Moved(s, dst, src, n);
    forall k | 0 <= k < |s|
      ensures if dst <= k < dst + n then c[k] == m[k] <==> Arrives(s, dst, src, n, k - dst) else c[k] == m[k]
    {
      CopyAscendingAt(s, dst, src, n, k);
    }
    if c == m {
      forall i | 0 <= i < n ensures Arrives(s, dst, src, n, i) {
        assert c[dst + i] == m[dst + i];
      }
    }
  }

  /** On disjoint buffers, and moving down as vga_scroll does, memcpy is a correct move. */
  lemma {:induction false} MovesWhenNotInside<T>(s: seq<T>, dst: nat, src: nat, n: nat)
    requires dst + n <= |s| && src + n <= |s|
    requires dst <= src || src + n <= dst
    ensures CopyAscending(s, dst, src, n) == Moved(s, dst, src, n)
  {
    MoveExactly(s, dst, src, n);
    assert forall i :: 0 <= i < n ==> Arrives(s, dst, src, n, i);
  }

  method Memcpy<T>(a: array<T>, dst: nat, src: nat, n: nat)
    requires dst + n <= a.Length && src + n <= a.Length
    modifies a
    ensures a[..] == CopyAscending(old(a[..]), dst, src, n)
  {
    var i := 0;
    while i < n
      invariant i <= n
      invariant a[..] == CopyAscending(old(a[..]), dst, src, i)
    {
      a[dst + i] := a[src + i];
      i := i + 1;
    }
  }
}

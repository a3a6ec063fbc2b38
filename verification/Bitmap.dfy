/** The page bitmap of Kernel/mm/avmf.c:33-50: 64-bit words of which only the
    low eight bits are ever set or tested, so a word is modelled by those eight. */
module Bitmap {

  const BITMAP_SIZE := 131072
  const MAX_PAGES := 8 * BITMAP_SIZE

  /** There is a bit for each page of the first 4 GiB. */
  lemma {:induction false} CoversFourGiB()
    ensures MAX_PAGES * 4096 == 0x1_0000_0000
  {
  }

  /** 1 << k for the eight bits in use. */
  function Mask(k: nat): bv8
    requires k < 8
  {
    if k == 0 then 1 else if k == 1 then 2 else if k == 2 then 4 else if k == 3 then 8
    else if k == 4 then 16 else if k == 5 then 32 else if k == 6 then 64 else 128
  }

  predicate Bit(w: bv8, k: nat)
    requires k < 8
  {
    w & Mask(k) != 0
  }

  lemma {:induction false} SameMask(w: bv8, m: bv8)
    requires m != 0
    ensures (w | m) & m != 0 && (w & !m) & m == 0
  {
  }

  lemma {:induction false} OtherMask(w: bv8, m: bv8, n: bv8)
    requires m & n == 0
    ensures (w | m) & n == w & n && (w & !m) & n == w & n
  {
  }

  lemma {:induction false} MaskPair(k: nat, j: nat)
    requires k < 8 && j < 8
    ensures if k == j then Mask(k) != 0 else Mask(k) & Mask(j) == 0
  {
  }

  lemma {:induction false} SetBit(w: bv8, k: nat, j: nat)
    requires k < 8 && j < 8
    ensures Bit(w | Mask(k), j) <==> j == k || Bit(w, j)
  {
    MaskPair(k, j);
    if k == j {
      SameMask(w, Mask(k));
    } else {
      OtherMask(w, Mask(k), Mask(j));
    }
  }

  lemma {:induction false} ClearBit(w: bv8, k: nat, j: nat)
    requires k < 8 && j < 8
    ensures Bit(w & !Mask(k), j) <==> j != k && Bit(w, j)
  {
    MaskPair(k, j);
    if k == j {
      SameMask(w, Mask(k));
    } else {
      OtherMask(w, Mask(k), Mask(j));
    }
  }

  /** The pages whose bit is set. */
  ghost function Pages(words: seq<bv8>): (s: set<nat>)
    requires |words| == BITMAP_SIZE
    ensures forall p | 0 <= p < MAX_PAGES :: p in s <==> Bit(words[p / 8], p % 8)
  {
    set p | 0 <= p < MAX_PAGES && Bit(words[p / 8], p % 8)
  }

  predicate Test(words: array<bv8>, page: nat)
    requires words.Length == BITMAP_SIZE && page < MAX_PAGES
    reads words
    ensures Test(words, page) <==> page in Pages(words[..])
  {
    words[page / 8] & Mask(page % 8) != 0
  }

  lemma {:induction false} PagesSet(words: seq<bv8>, page: nat)
    requires |words| == BITMAP_SIZE && page < MAX_PAGES
    ensures Pages(words[page / 8 := words[page / 8] | Mask(page % 8)]) == Pages(words) + {page}
  {
    var after := words[page / 8 := words[page / 8] | Mask(page % 8)];
    forall p | 0 <= p < MAX_PAGES
      ensures Bit(after[p / 8], p % 8) <==> p == page || Bit(words[p / 8], p % 8)
    {
      if p / 8 == page / 8 {
        SetBit(words[page / 8], page % 8, p % 8);
      }
    }
  }

  lemma {:induction false} PagesClear(words: seq<bv8>, page: nat)
    requires |words| == BITMAP_SIZE && page < MAX_PAGES
    ensures Pages(words[page / 8 := words[page / 8] & !Mask(page % 8)]) == Pages(words) - {page}
  {
    var after := words[page / 8 := words[page / 8] & !Mask(page % 8)];
    forall p | 0 <= p < MAX_PAGES
      ensures Bit(after[p / 8], p % 8) <==> p != page && Bit(words[p / 8], p % 8)
    {
      if p / 8 == page / 8 {
        ClearBit(words[page / 8], page % 8, p % 8);
      }
    }
  }

  method Set(words: array<bv8>, page: nat)
    requires words.Length == BITMAP_SIZE && page < MAX_PAGES
    modifies words
    ensures Pages(words[..]) == old(Pages(words[..])) + {page}
  {
    PagesSet(words[..], page);
    words[page / 8] := words[page / 8] | Mask(page % 8);
    assert words[..] == old(words[..])[page / 8 := old(words[page / 8]) | Mask(page % 8)];
  }

  method Clear(words: array<bv8>, page: nat)
    requires words.Length == BITMAP_SIZE && page < MAX_PAGES
    modifies words
    ensures Pages(words[..]) == old(Pages(words[..])) - {page}
  {
    PagesClear(words[..], page);
    words[page / 8] := words[page / 8] & !Mask(page % 8);
    assert words[..] == old(words[..])[page / 8 := old(words[page / 8]) & !Mask(page % 8)];
  }

  /** Sets the bits of a run. */
  method SetRun(words: array<bv8>, page: nat, n: nat)
    requires words.Length == BITMAP_SIZE && page + n <= MAX_PAGES
    modifies words
    ensures forall p :: p in Pages(words[..]) <==> p in old(Pages(words[..])) || page <= p < page + n
  {
    for j := page to page + n
      invariant forall p :: p in Pages(words[..]) <==> p in old(Pages(words[..])) || page <= p < j
    {
      Set(words, j);
    }
  }

  /** Clears the bits of a run. */
  method ClearRun(words: array<bv8>, page: nat, n: nat)
    requires words.Length == BITMAP_SIZE && page + n <= MAX_PAGES
    modifies words
    ensures forall p :: p in Pages(words[..]) <==> p in old(Pages(words[..])) && !(page <= p < page + n)
  {
    for j := page to page + n
      invariant forall p :: p in Pages(words[..]) <==> p in old(Pages(words[..])) && !(page <= p < j)
    {
      Clear(words, j);
    }
  }
}

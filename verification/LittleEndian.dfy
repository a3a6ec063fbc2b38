/** Numbers in little-endian bytes, and a plain writer of structures: item after item, in the order of the structure. */
module LittleEndian {
  import opened Common

  /** The little-endian number in `n` bytes from `o`. */
  function Number(d: seq<Byte>, o: nat, n: nat): nat
    requires o + n <= |d|
    decreases n
  {
    if n == 0 then 0 else d[o] + 256 * Number(d, o + 1, n - 1)
  }

  function Capacity(n: nat): nat { if n == 0 then 1 else 256 * Capacity(n - 1) }

  /** `v` in `n` bytes, lowest first. */
  function Bytes(v: nat, n: nat): (b: seq<Byte>)
    ensures |b| == n
    decreases n
  {
    if n == 0 then [] else [v % 256] + Bytes(v / 256, n - 1)
  }

  lemma {:induction false} LoadBytes(d: seq<Byte>, o: nat, n: nat, v: nat)
    requires o + n <= |d| && d[o..o + n] == Bytes(v, n) && v < Capacity(n)
    ensures Number(d, o, n) == v
    decreases n
  {
    if n == 0 {
    } else {
      assert d[o] == d[o..o + n][0] == v % 256;
      assert d[o + 1..o + n] == d[o..o + n][1..] == Bytes(v / 256, n - 1);
      LoadBytes(d, o + 1, n - 1, v / 256);
    }
  }

  lemma {:induction false} LoadBound(d: seq<Byte>, o: nat, n: nat)
    requires o + n <= |d|
    ensures Number(d, o, n) < Capacity(n)
    decreases n
  {
    if n == 0 {
    } else {
      LoadBound(d, o + 1, n - 1);
    }
  }

  /** Equal bytes are equal numbers, wherever they lie. */
  lemma {:induction false} LoadSame(d: seq<Byte>, o: nat, e: seq<Byte>, p: nat, n: nat)
    requires o + n <= |d| && p + n <= |e| && d[o..o + n] == e[p..p + n]
    ensures Number(d, o, n) == Number(e, p, n)
    decreases n
  {
    if n == 0 {
    } else {
      assert d[o] == d[o..o + n][0] == e[p..p + n][0] == e[p];
      assert d[o + 1..o + n] == d[o..o + n][1..] == e[p..p + n][1..] == e[p + 1..p + n];
      LoadSame(d, o + 1, e, p + 1, n - 1);
    }
  }

  /** One member of a structure. */
  datatype Item = Item(value: nat, size: nat)

  /** The first `n` items, written one behind the other, and where they end. */
  function Serial(items: seq<Item>, n: nat): (b: seq<Byte>)
    requires n <= |items|
    ensures |b| == End(items, n)
  {
    if n == 0 then [] else Serial(items, n - 1) + Bytes(items[n - 1].value, items[n - 1].size)
  }

  function End(items: seq<Item>, n: nat): nat
    requires n <= |items|
  {
    if n == 0 then 0 else End(items, n - 1) + items[n - 1].size
  }

  lemma {:induction false} EndGrows(items: seq<Item>, i: nat, n: nat)
    requires i < n <= |items|
    ensures End(items, i) + items[i].size <= End(items, n)
  {
    if i == n - 1 {
    } else {
      EndGrows(items, i, n - 1);
    }
  }

  lemma {:induction false} ItemAt(items: seq<Item>, n: nat, i: nat)
    requires i < n <= |items|
    ensures var at := End(items, i);
            && at + items[i].size <= End(items, n)
            && Serial(items, n)[at..at + items[i].size] == Bytes(items[i].value, items[i].size)
    decreases n
  {
    EndGrows(items, i, n);
    if i < n - 1 {
      ItemAt(items, n - 1, i);
      EndGrows(items, i, n - 1);
      var front, last := Serial(items, n - 1), Bytes(items[n - 1].value, items[n - 1].size);
      var at := End(items, i);
      assert (front + last)[at..at + items[i].size] == front[at..at + items[i].size];
    }
  }

  /** An item is read back wherever the structure lies. */
  lemma {:induction false} ReadItem(d: seq<Byte>, o: nat, items: seq<Item>, i: nat)
    requires i < |items| && items[i].value < Capacity(items[i].size)
    requires o + End(items, |items|) <= |d| && d[o..o + End(items, |items|)] == Serial(items, |items|)
    ensures o + End(items, i) + items[i].size <= |d|
    ensures Number(d, o + End(items, i), items[i].size) == items[i].value
  {
    var n, at, k := |items|, End(items, i), items[i].size;
    ItemAt(items, n, i);
    SubSlice(d, o, End(items, n), at, at + k);
    LoadBytes(d, o + at, k, items[i].value);
  }

  lemma {:induction false} SubSlice<T>(d: seq<T>, o: nat, n: nat, at: nat, end: nat)
    requires o + n <= |d| && at <= end <= n
    ensures d[o..o + n][at..end] == d[o + at..o + end]
  {
    var l, r := d[o..o + n][at..end], d[o + at..o + end];
    forall k | 0 <= k < |l|
      ensures l[k] == r[k]
    {
    }
  }

  lemma {:induction false} Capacities()
    ensures Capacity(1) == 0x100 && Capacity(2) == 0x1_0000 && Capacity(4) == 0x1_0000_0000
    ensures Capacity(6) == 0x1_0000_0000_0000 && Capacity(8) == 0x1_0000_0000_0000_0000
  {
    assert Capacity(3) == 0x100_0000;
    assert Capacity(5) == 0x100_0000_0000;
    assert Capacity(7) == 0x100_0000_0000_0000;
  }
}

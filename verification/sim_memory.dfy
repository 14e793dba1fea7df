/**
 * The simulator's memory bank: a map from addresses to 16-bit signed words,
 * where an address that was never written reads as 0.
 */
module SimMemory {
  import opened Wrappers
  import opened Bits

  datatype Memory = Memory(data: map<int, int>)

  /** A new bank: nothing written yet. */
  const Blank: Memory := Memory(map[])

  /** Every stored word is a short, as the Java map's value type demands. */
  predicate ShortWords(m: Memory)
  {
    forall a | a in m.data :: IsShort(m.data[a])
  }

  /** `read(address)`: the stored word, or 0 where nothing was written. */
  function Read(m: Memory, address: int): (v: int)
    ensures ShortWords(m) ==> IsShort(v)
  {
    if address in m.data then m.data[address] else 0
  }

  /** `write(address, value)`: the map's `put`. */
  function Write(m: Memory, address: int, value: int): (r: Memory)
    requires IsShort(value)
    ensures Read(r, address) == value
    ensures forall a | a != address :: Read(r, a) == Read(m, a)
    ensures ShortWords(m) ==> ShortWords(r)
  {
    Memory(m.data[address := value])
  }

  /** A fresh bank reads 0 everywhere. */
  lemma BlankReadsZero(a: int)
    ensures Read(Blank, a) == 0 && ShortWords(Blank)
  {
  }

  /** Writing the same address twice is the same as writing only the second value. */
  lemma LastWriteWins(m: Memory, address: int, v1: int, v2: int)
    requires IsShort(v1) && IsShort(v2)
    ensures Write(Write(m, address, v1), address, v2) == Write(m, address, v2)
  {
    assert Write(Write(m, address, v1), address, v2).data == Write(m, address, v2).data;
  }

  /** Writes to two different addresses may be done in either order. */
  lemma WritesCommute(m: Memory, a1: int, v1: int, a2: int, v2: int)
    requires a1 != a2 && IsShort(v1) && IsShort(v2)
    ensures Write(Write(m, a1, v1), a2, v2) == Write(Write(m, a2, v2), a1, v1)
  {
    assert Write(Write(m, a1, v1), a2, v2).data == Write(Write(m, a2, v2), a1, v1).data;
  }

  // ---------------------------------------------------------------------------
  // A run of writes
  // ---------------------------------------------------------------------------

  /** A write of a word to an address. */
  datatype Store = Store(address: int, value: int)

  predicate ShortStores(stores: seq<Store>)
  {
    forall i | 0 <= i < |stores| :: IsShort(stores[i].value)
  }

  /** The writes done one after another, first to last. */
  function WriteAll(m: Memory, stores: seq<Store>): (r: Memory)
    requires ShortStores(stores)
    decreases |stores|
  {
    if |stores| == 0 then m
    else WriteAll(Write(m, stores[0].address, stores[0].value), stores[1..])
  }

  /** The value of the last write to an address, if any write goes there. */
  function LastStored(stores: seq<Store>, address: int): (r: Option<int>)
    ensures r.Some? <==> exists i | 0 <= i < |stores| :: stores[i].address == address
    ensures r.Some? ==> exists i | 0 <= i < |stores| ::
      stores[i].address == address && stores[i].value == r.value &&
      forall j | i < j < |stores| :: stores[j].address != address
    decreases |stores|
  {
    if |stores| == 0 then None
    else
      var last := stores[|stores| - 1];
      if last.address == address then Some(last.value)
      else
        var r := LastStored(stores[..|stores| - 1], address);
        assert forall i | 0 <= i < |stores| - 1 :: stores[..|stores| - 1][i] == stores[i];
        r
  }

  /**
   * After a run of writes, every address holds the last value written to it,
   * and an address no write touched reads as before.
   */
  lemma {:induction false} WriteAllReads(m: Memory, stores: seq<Store>, address: int)
    requires ShortStores(stores)
    ensures Read(WriteAll(m, stores), address) ==
      match LastStored(stores, address)
      case Some(v) => v
      case None => Read(m, address)
    decreases |stores|
  {
    if |stores| > 0 {
      var m1 := Write(m, stores[0].address, stores[0].value);
      var rest := stores[1..];
      WriteAllReads(m1, rest, address);
      LastStoredSplit(stores, address);
    }
  }

  /** The last write among all of them is the last among the rest, or else the first one's. */
  lemma {:induction false} LastStoredSplit(stores: seq<Store>, address: int)
    requires |stores| > 0
    ensures LastStored(stores, address) ==
      match LastStored(stores[1..], address)
      case Some(v) => Some(v)
      case None => if stores[0].address == address then Some(stores[0].value) else None
    decreases |stores|
  {
    var n := |stores|;
    if n > 1 && stores[n - 1].address != address {
      var init := stores[..n - 1];
      LastStoredSplit(init, address);
      assert init[1..] == stores[1..][..n - 2];
    }
  }
}

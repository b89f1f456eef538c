/**
 * Why the linear probe of find_bucket may stop: the key cannot lie beyond
 * an empty bucket on its probe path, nor anywhere once every bucket was
 * probed.
 */
module Probe {
  import opened Layout
  import opened KeyMap
  import opened ShardImage

  /** The bucket holding a key is on the probe path of the key's hash, and no bucket before it on that path is empty. */
  lemma HolderOnPath(img: Image, k: Key, b: nat)
    requires Inv(img) && b < HashTableEntries && SlotHolds(img, b, k)
    ensures PathOccupied(img.table, Home(k.0), Dist(Home(k.0), b))
  {
  }

  /**
   * A probe that met an empty bucket after d steps, and no bucket holding
   * the key before it, proves the key absent.
   */
  lemma ProbeStopsAtEmpty(img: Image, k: Key, d: nat)
    requires Inv(img) && d < HashTableEntries
    requires IsEmpty(img.table[Slot(Home(k.0), d)])
    requires forall j | 0 <= j < d :: !SlotHolds(img, Slot(Home(k.0), j), k)
    ensures k !in Contents(img)
  {
    if k in Contents(img) {
      var b := ContentsHeldBySlot(img, k);
      HolderOnPath(img, k, b);
      assert false;
    }
  }

  /** A probe that visited every bucket without finding one holding the key proves the key absent. */
  lemma ProbeExhausted(img: Image, k: Key)
    requires Inv(img)
    requires forall j | 0 <= j < HashTableEntries :: !SlotHolds(img, Slot(Home(k.0), j), k)
    ensures k !in Contents(img)
  {
    if k in Contents(img) {
      var b := ContentsHeldBySlot(img, k);
      assert false;
    }
  }

  /** A probe that found every bucket live has found the table full. */
  lemma PathLiveFull(t: seq<uint64>, home: nat)
    requires |t| == HashTableEntries && home < HashTableEntries
    requires PathLive(t, home, HashTableEntries)
    ensures TableFull(t)
  {
    forall b | 0 <= b < |t|
      ensures IsLive(t[b])
    {
      assert Slot(home, Dist(home, b)) == b;
    }
  }

  /** The table is full exactly when all of its buckets are counted live. */
  lemma FullCount(t: seq<uint64>)
    ensures TableFull(t) <==> CountWhere(t, IsLive) == |t|
  {
    if TableFull(t) {
      CountAll(t, IsLive);
    } else if CountWhere(t, IsLive) == |t| {
      var b :| 0 <= b < |t| && !IsLive(t[b]);
      CountMissing(t, b, IsLive);
    }
  }
}

/** Circular intrusive lists.  A ring is the sequence of its entries in Flink order, the list head among them. */
module DoublyLinkedList {

  class DListEntry {
    var Flink: DListEntry?
    var Blink: DListEntry?

    constructor ()
    {
      Flink, Blink := null, null;
    }
  }

  function Next(i: nat, n: nat): (k: nat)
    requires i < n
    ensures k < n
  {
    if i + 1 < n then i + 1 else 0
  }

  ghost function Entry(ring: seq<DListEntry>, i: nat): DListEntry
    requires i < |ring|
  {
    ring[i]
  }

  function Prev(i: nat, n: nat): (k: nat)
    requires i < n
    ensures k < n && Next(k, n) == i
  {
    if i == 0 then n - 1 else i - 1
  }

  /** The entries of `ring` are distinct, and their links run through the ring in both directions. */
  ghost predicate Ring(ring: seq<DListEntry>)
    reads ring
  {
    && ring != []
    && (forall i, j :: 0 <= i < j < |ring| ==> ring[i] != ring[j])
    && (forall i :: 0 <= i < |ring| ==> ring[i].Flink == ring[Next(i, |ring|)])
    && (forall i :: 0 <= i < |ring| ==> ring[Next(i, |ring|)].Blink == ring[i])
  }

  /** Flink and Blink are mutually inverse on a ring. */
  lemma LinksAreInverse(ring: seq<DListEntry>, e: DListEntry)
    requires Ring(ring) && e in ring
    ensures e.Flink != null && e.Flink in ring && e.Flink.Blink == e
    ensures e.Blink != null && e.Blink in ring && e.Blink.Flink == e
  {
    var i :| 0 <= i < |ring| && ring[i] == e;
    var k := Prev(i, |ring|);
    assert Next(k, |ring|) == i;
  }

  /** A ring may be read from any of its entries. */
  lemma RotatedRing(ring: seq<DListEntry>, k: nat)
    requires Ring(ring) && k < |ring|
    ensures Ring(ring[k..] + ring[..k])
  {
    var r, n := ring[k..] + ring[..k], |ring|;
    forall i | 0 <= i < n
      ensures r[i] == ring[if i + k < n then i + k else i + k - n]
      ensures r[Next(i, n)] == ring[Next(if i + k < n then i + k else i + k - n, n)]
    {
    }
  }

  /** `DList_InitializeListHead`. */
  method InitializeListHead(listHead: DListEntry)
    modifies listHead
    ensures Ring([listHead])
  {
    listHead.Flink := listHead;
    listHead.Blink := listHead;
  }

  /** `DList_IsListEmpty`. */
  method IsListEmpty(listHead: DListEntry, ghost ring: seq<DListEntry>) returns (empty: bool)
    requires Ring(ring) && ring[0] == listHead
    ensures empty <==> ring == [listHead]
  {
    assert |ring| > 1 ==> ring[1] != ring[0];
    empty := listHead.Flink == listHead;
  }

  /** `DList_InsertTailList`: append. */
  method InsertTailList(listHead: DListEntry, entry: DListEntry, ghost ring: seq<DListEntry>)
    requires Ring(ring) && ring[0] == listHead && entry !in ring
    modifies entry, listHead`Blink, Entry(ring, Prev(0, |ring|))`Flink
    ensures Ring(ring + [entry])
  {
    LinksAreInverse(ring, listHead);
    assert Next(Prev(0, |ring|), |ring|) == 0;
    var blink := listHead.Blink;
    entry.Flink := listHead;
    entry.Blink := blink;
    blink.Flink := entry;
    listHead.Blink := entry;
  }

  /** `DList_InsertHeadList`: prepend. */
  method InsertHeadList(listHead: DListEntry, entry: DListEntry, ghost ring: seq<DListEntry>)
    requires Ring(ring) && ring[0] == listHead && entry !in ring
    modifies entry, listHead`Flink, Entry(ring, Next(0, |ring|))`Blink
    ensures Ring([listHead, entry] + ring[1..])
  {
    LinksAreInverse(ring, listHead);
    entry.Blink := listHead;
    entry.Flink := listHead.Flink;
    listHead.Flink.Blink := entry;
    listHead.Flink := entry;
    RingWith(listHead, entry, ring);
  }

  /** Links that run from the head through a new entry to the old first one make a ring with it. */
  lemma RingWith(listHead: DListEntry, entry: DListEntry, ring: seq<DListEntry>)
    requires ring != [] && ring[0] == listHead && entry !in ring
    requires forall i, j :: 0 <= i < j < |ring| ==> ring[i] != ring[j]
    requires forall i :: 0 < i < |ring| ==> ring[i].Flink == ring[Next(i, |ring|)]
    requires forall i :: 0 < i < |ring| ==> ring[Next(i, |ring|)].Blink == ring[i]
    requires listHead.Flink == entry && entry.Blink == listHead
    requires entry.Flink == ring[Next(0, |ring|)] && ring[Next(0, |ring|)].Blink == entry
    ensures Ring([listHead, entry] + ring[1..])
  {
    var longer, n := [listHead, entry] + ring[1..], |ring| + 1;
    forall i | 0 <= i < n
      ensures longer[i].Flink == longer[Next(i, n)] && longer[Next(i, n)].Blink == longer[i]
    {
      if 1 < i {
        assert ring[i - 1].Flink == ring[Next(i - 1, n - 1)];
      }
    }
  }

  /** In a ring without entry `k`, the successor of the entry before the gap is the entry behind it. */
  lemma SuccessorAcrossGap(ring: seq<DListEntry>, k: nat, i: nat)
    requires k < |ring| && i < |ring| - 1
    ensures var shorter, from := ring[..k] + ring[k + 1..], if i < k then i else i + 1;
            && shorter[i] == ring[from]
            && shorter[Next(i, |shorter|)]
               == ring[if from == Prev(k, |ring|) then Next(k, |ring|) else Next(from, |ring|)]
  {
  }

  lemma StillDistinct(ring: seq<DListEntry>, k: nat)
    requires k < |ring| && forall i, j :: 0 <= i < j < |ring| ==> ring[i] != ring[j]
    ensures var shorter := ring[..k] + ring[k + 1..];
            forall i, j :: 0 <= i < j < |shorter| ==> shorter[i] != shorter[j]
  {
    var shorter := ring[..k] + ring[k + 1..];
    assert forall i :: 0 <= i < |shorter| ==> shorter[i] == ring[if i < k then i else i + 1];
  }

  /** Links that run through the ring past entry `k` make a ring without it. */
  lemma RingWithout(ring: seq<DListEntry>, k: nat)
    requires k < |ring| && |ring| > 1
    requires forall i, j :: 0 <= i < j < |ring| ==> ring[i] != ring[j]
    requires forall i {:trigger ring[i].Flink} :: 0 <= i < |ring| && i != k ==>
               ring[i].Flink == ring[if i == Prev(k, |ring|) then Next(k, |ring|) else Next(i, |ring|)]
    requires forall i {:trigger ring[i].Blink} :: 0 <= i < |ring| && i != k ==>
               ring[i].Blink == ring[if i == Next(k, |ring|) then Prev(k, |ring|) else Prev(i, |ring|)]
    ensures Ring(ring[..k] + ring[k + 1..])
  {
    var shorter, n := ring[..k] + ring[k + 1..], |ring| - 1;
    StillDistinct(ring, k);
    forall i | 0 <= i < n
      ensures shorter[i].Flink == shorter[Next(i, n)] && shorter[Next(i, n)].Blink == shorter[i]
    {
      SuccessorAcrossGap(ring, k, i);
    }
  }

  lemma LinksOf(ring: seq<DListEntry>)
    requires Ring(ring)
    ensures forall i, j :: 0 <= i < j < |ring| ==> ring[i] != ring[j]
    ensures forall i {:trigger ring[i].Flink} :: 0 <= i < |ring| ==> ring[i].Flink == ring[Next(i, |ring|)]
    ensures forall i {:trigger ring[i].Blink} :: 0 <= i < |ring| ==> ring[i].Blink == ring[Prev(i, |ring|)]
  {
    forall i | 0 <= i < |ring|
      ensures ring[i].Flink == ring[Next(i, |ring|)] && ring[i].Blink == ring[Prev(i, |ring|)]
    {
      assert Next(Prev(i, |ring|), |ring|) == i;
    }
  }

  /** `DList_RemoveEntryList`: deletes at any index; the result tells whether one entry remains.  (An entry that is
      alone in its ring stays where it is.)  The links of the removed entry are left as they were. */
  method RemoveEntryList(entry: DListEntry, ghost ring: seq<DListEntry>, ghost k: nat) returns (empty: bool)
    requires Ring(ring) && k < |ring| && ring[k] == entry
    modifies Entry(ring, Next(k, |ring|))`Blink, Entry(ring, Prev(k, |ring|))`Flink
    ensures empty <==> |ring| <= 2
    ensures |ring| > 1 ==> Ring(ring[..k] + ring[k + 1..])
    ensures |ring| > 1 ==> entry.Flink == old(entry.Flink) && entry.Blink == old(entry.Blink)
    ensures |ring| == 1 ==> Ring(ring)
  {
    LinksOf(ring);
    Neighbours(k, |ring|);
    hide Ring, Next, Prev;
    var flink := entry.Flink;
    var blink := entry.Blink;
    blink.Flink := flink;
    flink.Blink := blink;
    empty := flink == blink;
    if |ring| > 1 {
      RingWithout(ring, k);
    } else {
      AloneIsRing(ring);
    }
  }

  lemma Neighbours(k: nat, n: nat)
    requires k < n
    ensures n > 1 ==> Next(k, n) != k && Prev(k, n) != k
    ensures Next(k, n) == Prev(k, n) <==> n <= 2
    ensures n == 1 ==> Next(k, n) == k
  {
  }

  lemma AloneIsRing(ring: seq<DListEntry>)
    requires |ring| == 1 && ring[0].Flink == ring[0] && ring[0].Blink == ring[0]
    ensures Ring(ring)
  {
  }

  /** `DList_RemoveHeadList`: drops the first entry behind the head and returns it, or returns the head itself when
      the list is empty. */
  method RemoveHeadList(listHead: DListEntry, ghost ring: seq<DListEntry>) returns (entry: DListEntry)
    requires Ring(ring) && ring[0] == listHead
    modifies listHead`Flink, Entry(ring, Next(Next(0, |ring|), |ring|))`Blink
    ensures entry == if |ring| == 1 then listHead else ring[1]
    ensures Ring(if |ring| == 1 then ring else [listHead] + ring[2..])
  {
    entry := listHead.Flink;
    var flink := entry.Flink;
    listHead.Flink := flink;
    flink.Blink := listHead;
    if |ring| > 1 {
      assert ring[1] == entry && Next(0, |ring|) == 1;
      ghost var shorter, n := [listHead] + ring[2..], |ring| - 1;
      forall i | 0 <= i < n
        ensures shorter[i].Flink == shorter[Next(i, n)] && shorter[Next(i, n)].Blink == shorter[i]
      {
        ghost var from := if i == 0 then 1 else i + 1;
        assert ring[from].Flink == ring[Next(from, |ring|)];
        assert shorter[Next(i, n)] == ring[Next(from, |ring|)];
      }
    }
  }

  /** `DList_AppendTailList`: splices two disjoint rings into one. */
  method AppendTailList(listHead: DListEntry, listToAppend: DListEntry, ghost ring: seq<DListEntry>,
      ghost other: seq<DListEntry>)
    requires Ring(ring) && ring[0] == listHead
    requires Ring(other) && other[0] == listToAppend
    requires forall i, j :: 0 <= i < |ring| && 0 <= j < |other| ==> ring[i] != other[j]
    modifies listHead`Blink, listToAppend`Blink, Entry(ring, Prev(0, |ring|))`Flink,
        Entry(other, Prev(0, |other|))`Flink
    ensures Ring(ring + other)
  {
    assert Next(Prev(0, |ring|), |ring|) == 0 && Next(Prev(0, |other|), |other|) == 0;
    var listEnd := listHead.Blink;
    listHead.Blink.Flink := listToAppend;
    listHead.Blink := listToAppend.Blink;
    listToAppend.Blink.Flink := listHead;
    listToAppend.Blink := listEnd;
    ghost var joined, n, m := ring + other, |ring|, |other|;
    forall i | 0 <= i < n + m
      ensures joined[i].Flink == joined[Next(i, n + m)] && joined[Next(i, n + m)].Blink == joined[i]
    {
      if i < n - 1 {
        assert Next(i, n) == i + 1;
      } else if n <= i < n + m - 1 {
        assert Next(i - n, m) == i - n + 1;
      }
    }
    assert forall i, j :: 0 <= i < j < n + m ==> joined[i] != joined[j];
  }
}

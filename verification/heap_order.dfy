/**
 * The ordering structure of the message store: the tuples the store pushes
 * onto its heap, the order Python compares them in, and the contract of
 * `heapq.heappop` (remove and return a smallest tuple).
 */
module HeapOrder {

  /** A heap tuple `(-priority, timestamp, id)`. */
  datatype Entry = Entry(negPriority: int, timestamp: int, id: string)

  /**
   * Python's `<` on two strings: lexicographic by code point, and a proper
   * prefix is smaller than the longer string.
   */
  predicate StrLess(a: string, b: string)
    decreases |a|
  {
    if |a| == 0 then |b| > 0
    else if |b| == 0 then false
    else if a[0] != b[0] then a[0] < b[0]
    else StrLess(a[1..], b[1..])
  }

  lemma {:induction false} StrLessIrreflexive(a: string)
    ensures !StrLess(a, a)
    decreases |a|
  {
    if |a| > 0 {
      StrLessIrreflexive(a[1..]);
    }
  }

  lemma {:induction false} StrLessTransitive(a: string, b: string, c: string)
    requires StrLess(a, b) && StrLess(b, c)
    ensures StrLess(a, c)
    decreases |a|
  {
    if |a| > 0 && |b| > 0 && |c| > 0 && a[0] == b[0] && b[0] == c[0] {
      StrLessTransitive(a[1..], b[1..], c[1..]);
    }
  }

  /** Python's `<` on two `(int, int, str)` tuples: lexicographic, field by field. */
  predicate EntryLess(x: Entry, y: Entry)
  {
    || x.negPriority < y.negPriority
    || (x.negPriority == y.negPriority && x.timestamp < y.timestamp)
    || (x.negPriority == y.negPriority && x.timestamp == y.timestamp && StrLess(x.id, y.id))
  }

  lemma EntryLessIrreflexive(x: Entry)
    ensures !EntryLess(x, x)
  {
    StrLessIrreflexive(x.id);
  }

  lemma EntryLessTransitive(x: Entry, y: Entry, z: Entry)
    requires EntryLess(x, y) && EntryLess(y, z)
    ensures EntryLess(x, z)
  {
    if x.negPriority == y.negPriority == z.negPriority && x.timestamp == y.timestamp == z.timestamp {
      StrLessTransitive(x.id, y.id, z.id);
    }
  }

  /**
   * `heapq.heappop`: removes one entry that no other entry of the heap is
   * smaller than, and returns it with the remaining entries. The heap's
   * internal layout is not modelled, so the entries are kept in no
   * particular order and the smallest one is found by a scan.
   */
  method HeapPop(heap: seq<Entry>) returns (e: Entry, rest: seq<Entry>)
    requires heap != []
    ensures multiset(heap) == multiset(rest) + multiset{e}
    ensures |rest| == |heap| - 1
    ensures forall x | x in heap :: !EntryLess(x, e)
  {
    var best, i := 0, 1;
    EntryLessIrreflexive(heap[0]);
    while i < |heap|
      invariant 0 <= best < i <= |heap|
      invariant forall j | 0 <= j < i :: !EntryLess(heap[j], heap[best])
    {
      if EntryLess(heap[i], heap[best]) {
        forall j | 0 <= j < i
          ensures !EntryLess(heap[j], heap[i])
        {
          if EntryLess(heap[j], heap[i]) {
            EntryLessTransitive(heap[j], heap[i], heap[best]);
          }
        }
        EntryLessIrreflexive(heap[i]);
        best := i;
      }
      i := i + 1;
    }
    e := heap[best];
    rest := heap[..best] + heap[best + 1..];
    assert heap == heap[..best] + [e] + heap[best + 1..];
    forall x | x in heap
      ensures !EntryLess(x, e)
    {
      var j :| 0 <= j < |heap| && heap[j] == x;
    }
  }
}

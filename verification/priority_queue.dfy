/** The A* engine's priority queue: an unsorted list of (item, priority) pairs that
    insertion appends to and extraction scans linearly for the smallest priority. */
module PriorityQueue {

  datatype Entry<T> = Entry(item: T, priority: real)

  /** Entries in insertion order; the queue's `Count` is the sequence's length. */
  type Queue<T> = seq<Entry<T>>

  /** Appends exactly one pair at the end and leaves the earlier entries as they were. */
  function Enqueue<T>(q: Queue<T>, item: T, priority: real): (r: Queue<T>)
    ensures |r| == |q| + 1
    ensures r[..|q|] == q
    ensures r[|q|] == Entry(item, priority)
  {
    q + [Entry(item, priority)]
  }

  /** Position `b` holds a smallest priority, and no earlier entry has that priority. */
  ghost predicate IsFirstMin<T>(q: Queue<T>, b: int) {
    && 0 <= b < |q|
    && (forall j :: 0 <= j < |q| ==> q[b].priority <= q[j].priority)
    && (forall j :: 0 <= j < b ==> q[b].priority < q[j].priority)
  }

  /** Scans for the minimum with a strict `<` (so ties keep the earliest entry), then
      removes that entry and returns its item; the other entries keep their order. */
  method Dequeue<T>(q: Queue<T>) returns (item: T, rest: Queue<T>)
    requires |q| > 0
    ensures exists b :: IsFirstMin(q, b) && item == q[b].item && rest == q[..b] + q[b + 1..]
  {
    var bestIndex := 0;
    var i := 1;
    while i < |q|
      invariant 1 <= i <= |q|
      invariant 0 <= bestIndex < i
      invariant forall j :: 0 <= j < i ==> q[bestIndex].priority <= q[j].priority
      invariant forall j :: 0 <= j < bestIndex ==> q[bestIndex].priority < q[j].priority
    {
      if q[i].priority < q[bestIndex].priority {
        bestIndex := i;
      }
      i := i + 1;
    }
    item := q[bestIndex].item;
    rest := q[..bestIndex] + q[bestIndex + 1..];
  }

  /** The extraction position is determined by the queue alone. */
  lemma FirstMinUnique<T>(q: Queue<T>, a: int, b: int)
    requires IsFirstMin(q, a) && IsFirstMin(q, b)
    ensures a == b
  {
    assert q[a].priority == q[b].priority;
  }

  /** A newly appended pair is extracted next only if its priority is strictly below the
      current minimum; on a tie the earlier entry still wins. */
  lemma EnqueueFirstMin<T>(q: Queue<T>, b: int, item: T, priority: real)
    requires IsFirstMin(q, b)
    ensures priority < q[b].priority ==> IsFirstMin(Enqueue(q, item, priority), |q|)
    ensures priority >= q[b].priority ==> IsFirstMin(Enqueue(q, item, priority), b)
  {
    var r := Enqueue(q, item, priority);
    assert forall j :: 0 <= j < |q| ==> r[j] == q[j];
  }

  /** Extraction loses nothing but the extracted entry. */
  lemma RemovedEntry<T>(q: Queue<T>, b: int)
    requires 0 <= b < |q|
    ensures multiset(q[..b] + q[b + 1..]) + multiset{q[b]} == multiset(q)
    ensures forall j :: 0 <= j < |q| && j != b ==> q[j] in q[..b] + q[b + 1..]
  {
    assert q == q[..b] + [q[b]] + q[b + 1..];
    forall j | 0 <= j < |q| && j != b
      ensures q[j] in q[..b] + q[b + 1..]
    {
      if j < b {
        assert q[j] == (q[..b] + q[b + 1..])[j];
      } else {
        assert q[j] == (q[..b] + q[b + 1..])[j - 1];
      }
    }
  }
}

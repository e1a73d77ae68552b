/**
 * Messages of the priority store and the rules over them: admission,
 * the retrieval order, and the sorted listing of the live messages.
 */
module Messages {
  import opened HeapOrder

  datatype Option<T> = None | Some(value: T)

  /** A submitted message: its id, its priority (higher is served first) and its timestamp. */
  datatype Message = Message(id: string, priority: int, timestamp: int)

  /** The outcome of an admission: success or one of the three rejection reasons. */
  datatype AddResult = Added | DuplicateId | PriorityOutOfRange | TimestampNotIncreasing

  /** What a lookup reports about a live message. */
  datatype Found = Found(priority: int, timestamp: int)

  const MinPriority := 1
  const MaxPriority := 100

  /** The heap tuple pushed for a message. */
  function KeyOf(m: Message): Entry
  {
    Entry(-m.priority, m.timestamp, m.id)
  }

  /**
   * The retrieval order: `a` is served before `b` when its priority is
   * higher, or when the priorities are equal and its timestamp is earlier.
   */
  predicate RankLess(a: Message, b: Message)
  {
    a.priority > b.priority || (a.priority == b.priority && a.timestamp < b.timestamp)
  }

  /** No two live messages share a timestamp. */
  ghost predicate DistinctTimestamps(live: map<string, Message>)
  {
    forall a, b | a in live && b in live && a != b :: live[a].timestamp != live[b].timestamp
  }

  /** `k` is the live message served next: it is ranked before every other live message. */
  predicate IsTop(live: map<string, Message>, k: string)
  {
    k in live && forall j | j in live && j != k :: RankLess(live[k], live[j])
  }

  /**
   * The admission decision of `add_message`, with its checks in the source's
   * order: a live id, then the priority range, then the watermark.
   */
  function Admission(live: map<string, Message>, last: Option<int>, m: Message): (r: AddResult)
    ensures r == Added <==>
      m.id !in live && MinPriority <= m.priority <= MaxPriority && (last.None? || last.value < m.timestamp)
    ensures r == DuplicateId <==> m.id in live
    ensures r == PriorityOutOfRange <==> m.id !in live && !(MinPriority <= m.priority <= MaxPriority)
    ensures r == TimestampNotIncreasing <==>
      m.id !in live && MinPriority <= m.priority <= MaxPriority && last.Some? && m.timestamp <= last.value
  {
    if m.id in live then DuplicateId
    else if !(MinPriority <= m.priority <= MaxPriority) then PriorityOutOfRange
    else if last.Some? && m.timestamp <= last.value then TimestampNotIncreasing
    else Added
  }

  /** The boundary priorities 1 and 100 are admitted; 0 and 101 are not. */
  lemma PriorityBoundaries(live: map<string, Message>, last: Option<int>, id: string, t: int)
    requires id !in live && (last.None? || last.value < t)
    ensures Admission(live, last, Message(id, 1, t)) == Added
    ensures Admission(live, last, Message(id, 100, t)) == Added
    ensures Admission(live, last, Message(id, 0, t)) == PriorityOutOfRange
    ensures Admission(live, last, Message(id, 101, t)) == PriorityOutOfRange
  {
  }

  /** When all timestamps are distinct, the heap tuple order and the retrieval order agree. */
  lemma KeyOrderIsRank(a: Message, b: Message)
    requires a.timestamp != b.timestamp
    ensures EntryLess(KeyOf(a), KeyOf(b)) <==> RankLess(a, b)
    ensures !EntryLess(KeyOf(a), KeyOf(b)) ==> RankLess(b, a)
  {
  }

  /** A non-empty store with distinct timestamps has a message to serve next. */
  lemma {:induction false} TopExists(live: map<string, Message>)
    requires live != map[] && DistinctTimestamps(live)
    ensures exists k :: IsTop(live, k)
    decreases |live|
  {
    var k0 :| k0 in live;
    var rest := live - {k0};
    assert rest.Keys == live.Keys - {k0};
    if rest == map[] {
      assert rest.Keys == {};
      assert live.Keys == {k0};
      assert IsTop(live, k0);
    } else {
      TopExists(rest);
      var t :| IsTop(rest, t);
      assert live[t].timestamp != live[k0].timestamp;
      if RankLess(live[k0], live[t]) {
        forall j | j in live && j != k0
          ensures RankLess(live[k0], live[j])
        {
          if j != t {
            assert j in rest && RankLess(rest[t], rest[j]);
          }
        }
        assert IsTop(live, k0);
      } else {
        forall j | j in live && j != t
          ensures RankLess(live[t], live[j])
        {
          if j != k0 {
            assert j in rest && RankLess(rest[t], rest[j]);
          }
        }
        assert IsTop(live, t);
      }
    }
  }

  /** Removing a live id removes exactly one entry. */
  lemma RemoveOne(live: map<string, Message>, k: string)
    requires k in live
    ensures (live - {k}).Keys == live.Keys - {k}
    ensures |live - {k}| == |live| - 1
  {
    assert (live - {k}).Keys == live.Keys - {k};
  }

  /** At most one live message is served next. */
  lemma TopUnique(live: map<string, Message>, k1: string, k2: string)
    requires IsTop(live, k1) && IsTop(live, k2)
    ensures k1 == k2
  {
  }

  /** The id of the message served next from a non-empty store. */
  function NextToServe(live: map<string, Message>): (k: string)
    requires live != map[] && DistinctTimestamps(live)
    ensures IsTop(live, k)
  {
    TopExists(live);
    var k :| IsTop(live, k);
    k
  }

  /** `s` lists its ids from first served to last served. */
  ghost predicate RankSorted(live: map<string, Message>, s: seq<string>)
  {
    && (forall i | 0 <= i < |s| :: s[i] in live)
    && (forall i, j | 0 <= i < j < |s| :: RankLess(live[s[i]], live[s[j]]))
  }

  /**
   * `list_messages`: the live ids sorted by `(-priority, timestamp)`.
   * Defined by repeatedly taking the message served next.
   */
  function ListMessages(live: map<string, Message>): (r: seq<string>)
    requires DistinctTimestamps(live)
    decreases live.Keys
  {
    if live == map[] then []
    else
      var k := NextToServe(live);
      [k] + ListMessages(live - {k})
  }

  /** Putting the next message to serve in front of a sorted list of the others gives a sorted list. */
  lemma PrependTop(live: map<string, Message>, k: string, tail: seq<string>)
    requires IsTop(live, k)
    requires forall x :: x in live - {k} <==> x in tail
    requires RankSorted(live - {k}, tail)
    ensures forall x :: x in live <==> x in [k] + tail
    ensures RankSorted(live, [k] + tail)
  {
    var rest := live - {k};
    var s := [k] + tail;
    forall i | 0 <= i < |tail|
      ensures tail[i] in rest && tail[i] != k && live[tail[i]] == rest[tail[i]]
    {
    }
    forall i, j | 0 <= i < j < |s|
      ensures RankLess(live[s[i]], live[s[j]])
    {
      if i > 0 {
        assert RankLess(rest[tail[i - 1]], rest[tail[j - 1]]);
      } else {
        assert s[j] == tail[j - 1];
      }
    }
  }

  /** The list holds every live id and nothing else, from first served to last served. */
  lemma {:induction false} ListIsSortedPermutation(live: map<string, Message>)
    requires DistinctTimestamps(live)
    ensures |ListMessages(live)| == |live|
    ensures forall k :: k in live <==> k in ListMessages(live)
    ensures RankSorted(live, ListMessages(live))
    decreases |live|
  {
    if live != map[] {
      var k := NextToServe(live);
      RemoveOne(live, k);
      ListIsSortedPermutation(live - {k});
      PrependTop(live, k, ListMessages(live - {k}));
    }
  }

  /** Serving the first message leaves the rest of the list in order. */
  lemma ListWithoutTop(live: map<string, Message>, k: string)
    requires DistinctTimestamps(live) && IsTop(live, k)
    ensures ListMessages(live) == [k] + ListMessages(live - {k})
  {
    assert k in live.Keys;
    TopUnique(live, NextToServe(live), k);
  }

  /** The first id of a sorted list of all live ids is the one served next. */
  lemma SortedHeadIsTop(live: map<string, Message>, s: seq<string>)
    requires s != []
    requires forall k :: k in live <==> k in s
    requires RankSorted(live, s)
    ensures IsTop(live, s[0])
  {
    forall j | j in live && j != s[0]
      ensures RankLess(live[s[0]], live[j])
    {
      var i :| 0 <= i < |s| && s[i] == j;
    }
  }

  /** Dropping the first id of a sorted list of all live ids leaves a sorted list of the others. */
  lemma SortedTail(live: map<string, Message>, s: seq<string>)
    requires s != []
    requires forall k :: k in live <==> k in s
    requires RankSorted(live, s)
    ensures forall k :: k in live - {s[0]} <==> k in s[1..]
    ensures RankSorted(live - {s[0]}, s[1..])
  {
    var rest := live - {s[0]};
    var t := s[1..];
    forall i | 0 <= i < |t|
      ensures t[i] != s[0] && t[i] in rest && rest[t[i]] == live[t[i]]
    {
      assert RankLess(live[s[0]], live[s[i + 1]]);
    }
    forall x | x in t
      ensures x in rest
    {
      var i :| 0 <= i < |t| && t[i] == x;
    }
    forall x | x in rest
      ensures x in t
    {
      assert x in s && x != s[0];
    }
    forall i, j | 0 <= i < j < |t|
      ensures RankLess(rest[t[i]], rest[t[j]])
    {
      assert RankLess(live[s[i + 1]], live[s[j + 1]]);
    }
  }

  /**
   * The list is the only sorted arrangement of the live ids: any sequence
   * that holds every live id and is ordered by rank equals it.
   */
  lemma {:induction false} SortedListIsUnique(live: map<string, Message>, s: seq<string>)
    requires DistinctTimestamps(live)
    requires forall k :: k in live <==> k in s
    requires RankSorted(live, s)
    ensures s == ListMessages(live)
    decreases |live|
  {
    if s == [] {
      assert live.Keys == {};
    } else {
      var k := s[0];
      calc {
        ListMessages(live);
      == { SortedHeadIsTop(live, s); ListWithoutTop(live, k); }
        [k] + ListMessages(live - {k});
      == { RemoveOne(live, k); SortedTail(live, s); SortedListIsUnique(live - {k}, s[1..]); }
        [k] + s[1..];
      }
      assert s == [k] + s[1..];
    }
  }
}

/**
 * The process-wide state of the broker as one store object: the live
 * messages by id, the heap of `(-priority, timestamp, id)` tuples, and the
 * admission watermark, with the four operations over them.
 */
module Broker {
  import opened HeapOrder
  import opened Messages

  /**
   * The invariant every operation relies on: each live message is stored
   * under its own id and has a priority in range; live timestamps are
   * distinct and none is past the watermark; nothing is live before the
   * first admission; every live message has its tuple in the heap; and a
   * heap tuple whose id is live is that message's tuple. Tuples whose id is
   * no longer live (stale tuples) are tolerated.
   */
  ghost predicate StoreConsistent(live: map<string, Message>, heap: seq<Entry>, last: Option<int>)
  {
    && (forall k | k in live :: live[k].id == k && MinPriority <= live[k].priority <= MaxPriority)
    && DistinctTimestamps(live)
    && (last.None? ==> live == map[])
    && (last.Some? ==> forall k | k in live :: live[k].timestamp <= last.value)
    && (forall k {:trigger KeyOf(live[k])} | k in live :: KeyOf(live[k]) in heap)
    && (forall e | e in heap && e.id in live :: KeyOf(live[e.id]) == e)
  }

  /** The heap holds no stale tuple and no tuple twice. */
  ghost predicate NoStale(live: map<string, Message>, heap: seq<Entry>)
  {
    && (forall e | e in heap :: e.id in live)
    && (forall e | e in heap :: multiset(heap)[e] == 1)
  }

  /** Admitting a message that passes every check keeps the invariant and adds no stale tuple. */
  lemma AdmitKeepsInvariant(live: map<string, Message>, heap: seq<Entry>, last: Option<int>, m: Message)
    requires StoreConsistent(live, heap, last) && NoStale(live, heap)
    requires Admission(live, last, m) == Added
    ensures StoreConsistent(live[m.id := m], heap + [KeyOf(m)], Some(m.timestamp))
    ensures NoStale(live[m.id := m], heap + [KeyOf(m)])
  {
    var heap', live' := heap + [KeyOf(m)], live[m.id := m];
    assert KeyOf(m) !in heap;
    forall e | e in heap'
      ensures e.id in live' && KeyOf(live'[e.id]) == e
      ensures multiset(heap')[e] == 1
    {
      if e in heap {
        assert e.id != m.id;
      }
    }
    forall k | k in live'
      ensures KeyOf(live'[k]) in heap'
    {
      if k != m.id {
        assert KeyOf(live[k]) in heap;
      }
    }
  }

  /** Popping a tuple whose id is not live keeps the invariant; such a tuple is stale. */
  lemma SkipKeepsConsistent(live: map<string, Message>, heap: seq<Entry>, last: Option<int>, e: Entry, rest: seq<Entry>)
    requires StoreConsistent(live, heap, last)
    requires multiset(heap) == multiset(rest) + multiset{e}
    requires e.id !in live
    ensures StoreConsistent(live, rest, last)
    ensures !NoStale(live, heap)
  {
    assert e in multiset(heap);
    forall x | x in rest
      ensures x in heap
    {
      assert x in multiset(heap);
    }
    forall k | k in live
      ensures KeyOf(live[k]) in rest
    {
      assert KeyOf(live[k]) in multiset(heap);
    }
  }

  /** A heap tuple with a live id that no other tuple is smaller than belongs to the message served next. */
  lemma MinimalIsTop(live: map<string, Message>, heap: seq<Entry>, last: Option<int>, e: Entry)
    requires StoreConsistent(live, heap, last)
    requires e in heap && e.id in live
    requires forall x | x in heap :: !EntryLess(x, e)
    ensures IsTop(live, e.id)
  {
    forall j | j in live && j != e.id
      ensures RankLess(live[e.id], live[j])
    {
      assert KeyOf(live[j]) in heap;
      KeyOrderIsRank(live[j], live[e.id]);
    }
  }

  /** Popping a live message's tuple and removing the message keeps the invariant. */
  lemma RemoveKeepsConsistent(live: map<string, Message>, heap: seq<Entry>, last: Option<int>, e: Entry, rest: seq<Entry>)
    requires StoreConsistent(live, heap, last)
    requires multiset(heap) == multiset(rest) + multiset{e}
    requires e.id in live
    ensures StoreConsistent(live - {e.id}, rest, last)
  {
    var live' := live - {e.id};
    assert e in multiset(heap);
    forall x | x in rest
      ensures x in heap
    {
      assert x in multiset(heap);
    }
    forall k | k in live'
      ensures KeyOf(live'[k]) in rest
    {
      assert KeyOf(live[k]) in multiset(heap);
      assert KeyOf(live[k]) != e;
    }
  }

  /** Popping a live message's tuple and removing the message leaves no stale tuple behind. */
  lemma RemoveKeepsNoStale(live: map<string, Message>, heap: seq<Entry>, last: Option<int>, e: Entry, rest: seq<Entry>)
    requires StoreConsistent(live, heap, last) && NoStale(live, heap)
    requires multiset(heap) == multiset(rest) + multiset{e}
    ensures e.id in live
    ensures NoStale(live - {e.id}, rest)
  {
    assert e in multiset(heap);
    assert e !in rest by {
      assert multiset(heap)[e] == 1;
    }
    forall x | x in rest
      ensures x.id in live - {e.id}
      ensures multiset(rest)[x] == 1
    {
      assert x in multiset(heap);
      assert x.id != e.id;
    }
  }

  /**
   * Popping the smallest tuple when its id is live: it is the tuple of the
   * message served next, and removing that message keeps the invariant.
   */
  lemma PopKeepsConsistent(live: map<string, Message>, heap: seq<Entry>, last: Option<int>, e: Entry, rest: seq<Entry>)
    requires StoreConsistent(live, heap, last)
    requires multiset(heap) == multiset(rest) + multiset{e}
    requires forall x | x in heap :: !EntryLess(x, e)
    requires e.id in live
    ensures IsTop(live, e.id) && KeyOf(live[e.id]) == e
    ensures multiset(rest) == multiset(heap) - multiset{KeyOf(live[e.id])}
    ensures StoreConsistent(live - {e.id}, rest, last)
    ensures NoStale(live, heap) ==> NoStale(live - {e.id}, rest)
    ensures ListMessages(live) == [e.id] + ListMessages(live - {e.id})
  {
    assert e in multiset(heap);
    MinimalIsTop(live, heap, last, e);
    ListWithoutTop(live, e.id);
    RemoveKeepsConsistent(live, heap, last, e, rest);
    if NoStale(live, heap) {
      RemoveKeepsNoStale(live, heap, last, e, rest);
    }
  }

  /** While a message is live the heap is not empty. */
  lemma LiveMeansHeapNotEmpty(live: map<string, Message>, heap: seq<Entry>, last: Option<int>)
    requires StoreConsistent(live, heap, last)
    ensures live != map[] ==> heap != []
  {
    if live != map[] {
      var k :| k in live;
      assert KeyOf(live[k]) in heap;
    }
  }

  /** The message store of the broker. */
  class Store {
    /** The live messages by id. */
    var messages: map<string, Message>
    /** The heap tuples, in no particular order (the heap layout is not modelled). */
    var heap: seq<Entry>
    /** The timestamp of the last admitted message, if any. */
    var lastTimestamp: Option<int>

    /** The invariant every operation relies on (stale heap tuples tolerated). */
    ghost predicate Consistent()
      reads this
    {
      StoreConsistent(messages, heap, lastTimestamp)
    }

    /** The invariant the operations keep: consistent, and no stale heap tuple. */
    ghost predicate Valid()
      reads this
    {
      Consistent() && NoStale(messages, heap)
    }

    /** The store at startup: empty, and no watermark. */
    constructor ()
      ensures Valid()
      ensures messages == map[] && heap == [] && lastTimestamp == None
    {
      messages := map[];
      heap := [];
      lastTimestamp := None;
    }

    /** `find_message`: the priority and timestamp of a live message, or nothing. */
    function Find(id: string): (r: Option<Found>)
      reads this
      ensures r.Some? <==> id in messages
      ensures r.Some? ==> r.value.priority == messages[id].priority && r.value.timestamp == messages[id].timestamp
    {
      if id in messages then Some(Found(messages[id].priority, messages[id].timestamp)) else None
    }

    /**
     * `list_messages`: every live id exactly once, from first served to last
     * served (descending priority, then ascending timestamp).
     */
    function List(): (r: seq<string>)
      reads this
      requires Consistent()
      ensures |r| == |messages|
      ensures forall k :: k in messages <==> k in r
      ensures RankSorted(messages, r)
    {
      ListIsSortedPermutation(messages);
      ListMessages(messages)
    }

    /**
     * `add_message`: admits `m` when its id is not live, its priority is in
     * range and its timestamp is past the watermark; a rejected message
     * changes nothing.
     */
    method Add(m: Message) returns (res: AddResult)
      requires Valid()
      modifies this
      ensures Valid()
      ensures res == Admission(old(messages), old(lastTimestamp), m)
      ensures res == Added ==>
        && messages == old(messages)[m.id := m]
        && multiset(heap) == old(multiset(heap)) + multiset{KeyOf(m)}
        && lastTimestamp == Some(m.timestamp)
        && Find(m.id) == Some(Found(m.priority, m.timestamp))
      ensures res != Added ==>
        messages == old(messages) && heap == old(heap) && lastTimestamp == old(lastTimestamp)
    {
      if m.id in messages {
        return DuplicateId;
      }
      if !(MinPriority <= m.priority <= MaxPriority) {
        return PriorityOutOfRange;
      }
      if lastTimestamp.Some? && m.timestamp <= lastTimestamp.value {
        return TimestampNotIncreasing;
      }
      AdmitKeepsInvariant(messages, heap, lastTimestamp, m);
      messages := messages[m.id := m];
      heap := heap + [KeyOf(m)];
      lastTimestamp := Some(m.timestamp);
      return Added;
    }

    /**
     * `pop_message`: removes and returns the id of the live message served
     * next (highest priority, earliest timestamp among equal priorities),
     * or returns nothing when no message is live. Heap tuples whose id is no
     * longer live are popped and skipped on the way; a valid store has none,
     * so from a valid store exactly that message's tuple leaves the heap.
     */
    method Pop() returns (r: Option<string>)
      requires Consistent()
      modifies this
      ensures Consistent()
      ensures old(Valid()) ==> Valid()
      ensures r.None? <==> old(messages) == map[]
      ensures messages == (if r.Some? then old(messages) - {r.value} else old(messages))
      ensures lastTimestamp == old(lastTimestamp)
      ensures r.None? ==> heap == []
      ensures r.Some? ==> IsTop(old(messages), r.value) && ListMessages(old(messages)) == [r.value] + ListMessages(messages)
      ensures old(Valid()) ==>
        multiset(heap) == old(multiset(heap)) - (if r.Some? then multiset{KeyOf(old(messages)[r.value])} else multiset{})
    {
      ghost var wasValid := Valid();
      while heap != []
        invariant Consistent()
        invariant messages == old(messages) && lastTimestamp == old(lastTimestamp)
        invariant wasValid ==> heap == old(heap) && NoStale(messages, heap)
        decreases |heap|
      {
        var e, rest := HeapPop(heap);
        if e.id in messages {
          PopKeepsConsistent(messages, heap, lastTimestamp, e, rest);
          heap := rest;
          messages := messages - {e.id};
          return Some(e.id);
        }
        SkipKeepsConsistent(messages, heap, lastTimestamp, e, rest);
        heap := rest;
      }
      LiveMeansHeapNotEmpty(messages, heap, lastTimestamp);
      return None;
    }
  }

  /**
   * Pops a store until a pop returns nothing: the ids come out in
   * exactly the order `list_messages` gave beforehand, and the store is
   * left empty, so every further pop returns nothing too.
   */
  method Drain(s: Store) returns (served: seq<string>)
    requires s.Consistent()
    modifies s
    ensures s.Consistent() && s.messages == map[]
    ensures served == ListMessages(old(s.messages))
  {
    served := [];
    while true
      invariant s.Consistent()
      invariant served + ListMessages(s.messages) == ListMessages(old(s.messages))
      decreases |s.messages|
    {
      ghost var before, listed, prev := s.messages, ListMessages(s.messages), served;
      var r := s.Pop();
      if r.None? {
        return;
      }
      RemoveOne(before, r.value);
      served := served + [r.value];
      assert served + ListMessages(s.messages) == prev + listed by {
        assert listed == [r.value] + ListMessages(s.messages);
      }
    }
  }

  /** Scenario: two admissions in a fresh store, both accepted. */
  method AdmitTwo() returns (s: Store)
    ensures fresh(s) && s.Valid()
    ensures s.messages == map["a" := Message("a", 10, 100), "b" := Message("b", 50, 200)]
  {
    s := new Store();
    var a := s.Add(Message("a", 10, 100));
    var b := s.Add(Message("b", 50, 200));
    assert a == Added && b == Added;
  }

  /** Scenario: the later message, having the higher priority, is served first. */
  method ServeInOrder()
  {
    var s := AdmitTwo();
    ghost var live := s.messages;
    assert "a" in live && "b" in live;
    var p := s.Pop();
    assert p.Some? && IsTop(live, p.value);
    assert p == Some("b") by {
      assert !RankLess(live["a"], live["b"]);
    }
    ghost var rest := s.messages;
    assert rest.Keys == {"a"} by {
      assert rest == live - {"b"};
    }
    p := s.Pop();
    assert p == Some("a") by {
      assert p.Some? && p.value in rest;
    }
  }

  /** Scenario: once the last message is popped, pops return nothing. */
  method PopEmptied()
  {
    var s := new Store();
    var p := s.Pop();
    assert p == None;
    var a := s.Add(Message("a", 10, 100));
    p := s.Pop();
    assert p == Some("a");
    p := s.Pop();
    assert p == None;
    p := s.Pop();
    assert p == None;
  }

  /** Scenario: each rejection, in the order the checks are made, and the boundary priorities. */
  method RejectInOrder()
  {
    var s := new Store();
    var a := s.Add(Message("a", 5, 100));
    assert a == Added;
    var dup := s.Add(Message("a", 0, 50));
    assert dup == DuplicateId;
    var low := s.Add(Message("b", 0, 50));
    assert low == PriorityOutOfRange;
    var high := s.Add(Message("b", 101, 200));
    assert high == PriorityOutOfRange;
    var stale := s.Add(Message("b", 5, 100));
    assert stale == TimestampNotIncreasing;
    var min := s.Add(Message("b", 1, 200));
    var max := s.Add(Message("c", 100, 300));
    assert min == Added && max == Added;
  }

  /** Scenario: a popped id is no longer found and may be admitted again. */
  method ReadmitAfterPop()
  {
    var s := new Store();
    var a := s.Add(Message("a", 5, 100));
    var p := s.Pop();
    assert p == Some("a") && s.Find("a") == None;
    var again := s.Add(Message("a", 7, 200));
    assert again == Added && s.Find("a") == Some(Found(7, 200));
  }

}

/**
 * The link, index and byte-total updates of the three helpers of the LRU store as
 * the source writes them, on plain values, next to the corrected versions that the
 * class SimpleLRU uses. Each lemma here shows for which inputs the written code goes
 * wrong and that it agrees with the corrected code on all the others.
 */
module LruAsWritten {
  import opened LruModel
  import opened LruArena

  /** The node links, the list ends, the key index and the byte total of the store. */
  datatype Links = Links(prev: seq<int>, next: seq<int>, head: int, tail: int, index: map<string, nat>, size: int)

  /**
   * delTail as written: take the tail's bytes off the total, unindex its key, step
   * the tail back to its prev link and clear the next link of the new tail. That last
   * write needs the new tail to name a node; when it is NIL (a null pointer) the
   * result is None. The head is never touched.
   */
  function DelTailAsWritten(keys: seq<string>, values: seq<string>, l: Links): Option<Links>
    requires 0 <= l.tail < |keys| && |values| == |keys| && |l.prev| == |keys| && |l.next| == |keys|
  {
    var size := l.size - (|keys[l.tail]| + |values[l.tail]|);
    var t := l.prev[l.tail];
    if 0 <= t < |l.next| then Some(Links(l.prev, l.next[t := NIL], l.head, t, l.index - {keys[l.tail]}, size))
    else None
  }

  /**
   * delTail as written fails on a list of one node, and on a longer list it unlinks
   * the tail exactly as the corrected delTail does (see Unlink at the last position).
   */
  lemma DelTailAsWrittenCases(keys: seq<string>, values: seq<string>, prev: seq<int>, next: seq<int>,
                              head: int, tail: int, index: map<string, nat>, order: seq<nat>, size: int)
    requires Arena(keys, values, prev, next, head, tail, index, order) && order != []
    ensures 0 <= tail < |keys|
    ensures |order| == 1 <==> DelTailAsWritten(keys, values, Links(prev, next, head, tail, index, size)) == None
    ensures |order| > 1 ==>
      var p := Pred(order, |order| - 1);
      DelTailAsWritten(keys, values, Links(prev, next, head, tail, index, size))
        == Some(Links(prev, Relink(next, p, NIL), head, p, index - {keys[tail]},
                      size - (|keys[tail]| + |values[tail]|)))
  {
    var last := |order| - 1;
    assert tail == Slot(order, last) < |keys|;
    assert prev[tail] == Pred(order, last);
    if last > 0 {
      assert Pred(order, last) == Slot(order, last - 1) < |keys|;
    }
  }

  /**
   * putNewNode's eviction loop as written, on the stored entries: the new entry's
   * need bytes are charged first, then the tail is dropped while the total is over
   * budget. A delTail on a list of one node fails as DelTailAsWrittenCases shows, and
   * one on an empty list reads a tail pointer that names no node; both give None.
   * The loop so fails exactly when eviction would have to empty the list.
   */
  method EvictAsWritten(s: seq<Entry>, need: nat, maxSize: nat) returns (r: Option<seq<Entry>>)
    ensures need > maxSize ==> r == None
    ensures need <= maxSize ==> (r == None <==> s != [] && Evict(s, maxSize - need) == [])
    ensures need <= maxSize && r != None ==> r == Some(Evict(s, maxSize - need))
  {
    var cur := Size(s) + need;
    var live := s;
    while cur > maxSize
      invariant cur == Size(live) + need
      invariant live <= s && (s != [] ==> live != [])
      invariant need <= maxSize ==> Evict(live, maxSize - need) == Evict(s, maxSize - need)
      decreases |live|
    {
      if |live| <= 1 {
        if need <= maxSize && live != [] {
          EvictStep(live, maxSize - need);
        }
        return None;
      }
      if need <= maxSize {
        EvictStep(live, maxSize - need);
      }
      SizeWithoutLast(live);
      cur := cur - EntrySize(live[|live| - 1]);
      live := live[..|live| - 1];
    }
    return Some(live);
  }

  /**
   * eraseNode as written: the successor (if any) links back to the predecessor, the
   * predecessor (if any) links forward to the successor, the key is unindexed and the
   * node's bytes come off the total; the head and the tail are left as they were.
   * (The source reads those bytes through the iterator after erasing it; here they
   * are read from the node.)
   */
  function EraseAsWritten(keys: seq<string>, values: seq<string>, l: Links, n: nat): Links
    requires n < |keys| && |values| == |keys| && |l.prev| == |keys| && |l.next| == |keys|
  {
    var p, q := l.prev[n], l.next[n];
    Links(Relink(l.prev, q, p), Relink(l.next, p, q), l.head, l.tail, l.index - {keys[n]},
          l.size - (|keys[n]| + |values[n]|))
  }

  /**
   * eraseNode as written is right for a node inside the list, but after erasing the
   * head or the tail no list order at all makes the store well formed: that end still
   * names the erased node, whose key is no longer indexed.
   */
  lemma EraseAsWrittenCases(keys: seq<string>, values: seq<string>, prev: seq<int>, next: seq<int>,
                            head: int, tail: int, index: map<string, nat>, order: seq<nat>,
                            size: int, key: string, pos: nat, order': seq<nat>)
    requires Arena(keys, values, prev, next, head, tail, index, order)
    requires key in index && pos < |order| && Slot(order, pos) == index[key]
    ensures index[key] < |keys|
    ensures var r := EraseAsWritten(keys, values, Links(prev, next, head, tail, index, size), index[key]);
      && ((index[key] == head || index[key] == tail) ==>
            !Arena(keys, values, r.prev, r.next, r.head, r.tail, r.index, order'))
      && ((index[key] != head && index[key] != tail) ==>
            Arena(keys, values, r.prev, r.next, r.head, r.tail, r.index, order[..pos] + order[pos + 1..]))
  {
    var n := index[key];
    var r := EraseAsWritten(keys, values, Links(prev, next, head, tail, index, size), n);
    assert n < |keys| && keys[n] == key;
    if n == head || n == tail {
      if order' != [] && InArena(order', |keys|) {
        var i := if n == head then 0 else |order'| - 1;
        assert EndsOk(order', head, tail) ==> Slot(order', i) == n;
        assert LiveIndexed(order', keys, r.index) ==> keys[Slot(order', i)] in r.index;
      }
    } else {
      assert pos != 0 && pos != |order| - 1;
      assert prev[n] == Pred(order, pos) == Slot(order, pos - 1);
      assert next[n] == Succ(order, pos) == Slot(order, pos + 1);
      Erase(keys, values, prev, next, head, tail, index, order, key, pos, r.prev, r.next, head, tail,
            order[..pos] + order[pos + 1..]);
    }
  }
}

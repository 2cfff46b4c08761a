/**
 * The LRU store itself: a doubly linked recency list whose nodes live in the arena
 * of LruArena, a map from key to node slot, and the running byte total.
 *
 * New nodes are linked at the head and eviction takes the tail, so the head is the
 * most recently written entry.
 */
module SimpleLru {
  import opened LruModel
  import opened LruArena

  /** Capacity of a cache built without an explicit budget. */
  const DEFAULT_MAX_SIZE: nat := 1024

  class SimpleLRU {
    /** Budget for the total of key and value lengths. */
    const maxSize: nat
    /** Total of key and value lengths over the live nodes. */
    var curSize: nat

    // Node arena: a slot, once allocated, keeps its key and value for good.
    var keys: seq<string>
    var values: seq<string>
    var prev: seq<int>
    var next: seq<int>

    var head: int
    var tail: int

    /** Key index: key to the slot of the node carrying it. */
    var index: map<string, nat>

    /** Live slots from head to tail. */
    ghost var order: seq<nat>

    /** The list is well linked from head to tail and the index agrees with it. */
    ghost predicate Linked()
      reads this
    {
      Arena(keys, values, prev, next, head, tail, index, order)
    }

    /** The abstract value: the stored entries, most recent first. */
    ghost function Contents(): seq<Entry>
      reads this
      requires Linked()
    {
      EntriesOf(order, keys, values)
    }

    /** The object invariant: linked, byte total exact and within budget. */
    ghost predicate Valid()
      reads this
    {
      Linked() && curSize == Size(Contents()) && curSize <= maxSize
    }

    constructor (maxSize: nat := DEFAULT_MAX_SIZE)
      ensures Valid()
      ensures this.maxSize == maxSize && curSize == 0 && Contents() == []
    {
      this.maxSize := maxSize;
      curSize := 0;
      keys, values, prev, next := [], [], [], [];
      head, tail := NIL, NIL;
      index := map[];
      order := [];
    }

    /** The index and the list agree: a key is indexed iff some stored entry carries it. */
    lemma IndexMatchesContents(k: string)
      requires Linked()
      ensures k in index <==> Contains(Contents(), k)
      ensures k in index ==> exists p :: 0 <= p < |order| && Slot(order, p) == index[k]
    {
      var c := Contents();
      if k in index {
        var p :| 0 <= p < |order| && Slot(order, p) == index[k];
        assert c[p].key == k;
      }
      if Contains(c, k) {
        var p :| 0 <= p < |c| && c[p].key == k;
        assert keys[Slot(order, p)] == k;
      }
    }

    /** Keys are unique in the list, since the index holds one slot per key. */
    lemma ContentsDistinct()
      requires Linked()
      ensures DistinctKeys(Contents())
    {
      LiveKeysDistinct(order, keys, values, index);
    }

    /**
     * Write back the whole state of the store at once. The operations below compute
     * the new links, index and total first and then install them together.
     */
    method Commit(curSize': nat, keys': seq<string>, values': seq<string>, prev': seq<int>, next': seq<int>,
                  head': int, tail': int, index': map<string, nat>, ghost order': seq<nat>)
      modifies this
      ensures curSize == curSize' && keys == keys' && values == values' && prev == prev' && next == next'
      ensures head == head' && tail == tail' && index == index' && order == order'
    {
      curSize, keys, values, prev, next, head, tail, index := curSize', keys', values', prev', next', head', tail', index';
      order := order';
    }

    /**
     * delTail: unlink the tail node, drop it from the index and take its bytes off
     * the total. Unlinking the last node leaves the list empty.
     */
    method DelTail()
      requires Linked() && order != [] && curSize == Size(Contents())
      modifies this
      ensures Linked() && curSize == Size(Contents())
      ensures keys == old(keys) && values == old(values)
      ensures index.Keys <= old(index).Keys
      ensures Contents() == old(Contents())[..|old(Contents())| - 1]
    {
      ghost var pos := |order| - 1;
      var t := tail;
      var p := prev[t];
      var next' := Relink(next, p, NIL);
      var head' := if p == NIL then NIL else head;
      Unlink(keys, values, prev, next, head, tail, index, order, pos, prev, next', head', p);
      ghost var c := Contents();
      assert c[..pos] + c[pos + 1..] == c[..pos];
      Commit(curSize - (|keys[t]| + |values[t]|), keys, values, prev, next', head', p, index - {keys[t]},
             order[..pos] + order[pos + 1..]);
    }

    /**
     * eraseNode: unlink the node stored under key, patching the head or tail when
     * the node is one of them, drop it from the index and take its bytes off the total.
     */
    method EraseNode(key: string)
      requires Valid() && key in index
      modifies this
      ensures Valid()
      ensures keys == old(keys) && values == old(values)
      ensures Contents() == Remove(old(Contents()), key)
      ensures key !in index
    {
      var n := index[key];
      ghost var pos :| 0 <= pos < |order| && Slot(order, pos) == n;
      var p, q := prev[n], next[n];
      var prev', next' := Relink(prev, q, p), Relink(next, p, q);
      var head' := if p == NIL then q else head;
      var tail' := if q == NIL then p else tail;
      ghost var order' := order[..pos] + order[pos + 1..];
      Erase(keys, values, prev, next, head, tail, index, order, key, pos, prev', next', head', tail', order');
      Commit(curSize - (|key| + |values[n]|), keys, values, prev', next', head', tail', index - {key}, order');
    }

    /**
     * The eviction loop of putNewNode: drop the tail entry while the total, with need
     * further bytes charged, is over budget.
     */
    method EvictFor(need: nat)
      requires Valid() && need <= maxSize
      modifies this
      ensures Linked() && curSize == Size(Contents()) && curSize + need <= maxSize
      ensures keys == old(keys) && values == old(values)
      ensures index.Keys <= old(index).Keys
      ensures Contents() == Evict(old(Contents()), maxSize - need)
    {
      ghost var budget: nat := maxSize - need;
      ghost var kept := Evict(old(Contents()), maxSize - need);
      while curSize + need > maxSize
        invariant Linked() && curSize == Size(Contents())
        invariant keys == old(keys) && values == old(values)
        invariant index.Keys <= old(index).Keys
        invariant Evict(Contents(), budget) == kept
        decreases |order|
      {
        EvictOne(budget);
      }
      assert Evict(Contents(), budget) == Contents();
      assert Contents() == kept;
    }

    /** One turn of putNewNode's eviction loop: drop the tail, which keeps the outcome of evicting down to budget. */
    method EvictOne(ghost budget: nat)
      requires Linked() && curSize == Size(Contents()) && curSize > budget
      modifies this
      ensures Linked() && curSize == Size(Contents())
      ensures keys == old(keys) && values == old(values)
      ensures index.Keys <= old(index).Keys
      ensures Contents() == old(Contents())[..|old(Contents())| - 1]
      ensures Evict(Contents(), budget) == Evict(old(Contents()), budget)
      ensures |order| == |old(order)| - 1
    {
      EvictStep(Contents(), budget);
      DelTail();
    }

    /**
     * putNewNode: evict from the tail until the new entry's bytes fit, then link a
     * fresh node for (key, value) at the head, index it and charge its bytes. The new
     * node is not in the list while eviction runs, so it is never evicted.
     */
    method PutNewNode(key: string, value: string)
      requires Valid() && key !in index && Fits(key, value, maxSize)
      modifies this
      ensures Valid()
      ensures old(keys) <= keys && old(values) <= values
      ensures Contents() == Insert(old(Contents()), key, value, maxSize)
    {
      ghost var before := Contents();
      EvictFor(|key| + |value|);
      ghost var kept := Contents();
      assert Insert(before, key, value, maxSize) == [Entry(key, value)] + kept;
      var n: nat := |keys|;
      var h := head;
      assert h != NIL ==> h == Slot(order, 0) < |prev|;
      var prev' := if h != NIL then (prev + [NIL])[h := n] else prev + [NIL];
      var tail' := if h != NIL then tail else n;
      Push(keys, values, prev, next, head, tail, index, order, key, value, prev', tail');
      Commit(curSize + |key| + |value|, keys + [key], values + [value], prev', next + [h], n, tail',
             index[key := n], [n] + order);
      assert Contents() == [Entry(key, value)] + kept;
    }

    /** Put: insert or overwrite; refused (false, nothing changed) when the entry cannot fit. */
    method Put(key: string, value: string) returns (ok: bool)
      requires Valid()
      modifies this
      ensures Valid()
      ensures ok == LruModel.Put(old(Contents()), maxSize, key, value).ok
      ensures Contents() == LruModel.Put(old(Contents()), maxSize, key, value).entries
    {
      if |key| + |value| > maxSize {
        return false;
      }
      IndexMatchesContents(key);
      if key in index {
        EraseNode(key);
      } else {
        RemoveAbsent(Contents(), key);
      }
      PutNewNode(key, value);
      ok := true;
    }

    /** PutIfAbsent: insert only when key is absent; otherwise false and nothing changes. */
    method PutIfAbsent(key: string, value: string) returns (ok: bool)
      requires Valid()
      modifies this
      ensures Valid()
      ensures ok == LruModel.PutIfAbsent(old(Contents()), maxSize, key, value).ok
      ensures Contents() == LruModel.PutIfAbsent(old(Contents()), maxSize, key, value).entries
    {
      IndexMatchesContents(key);
      if key in index || |key| + |value| > maxSize {
        return false;
      }
      PutNewNode(key, value);
      ok := true;
    }

    /** Set: overwrite only when key is present; otherwise false and nothing changes. */
    method Set(key: string, value: string) returns (ok: bool)
      requires Valid()
      modifies this
      ensures Valid()
      ensures ok == LruModel.Set(old(Contents()), maxSize, key, value).ok
      ensures Contents() == LruModel.Set(old(Contents()), maxSize, key, value).entries
    {
      IndexMatchesContents(key);
      if key !in index || |key| + |value| > maxSize {
        return false;
      }
      EraseNode(key);
      PutNewNode(key, value);
      ok := true;
    }

    /** Delete: remove the entry for key if there is one, answering whether there was. */
    method Delete(key: string) returns (ok: bool)
      requires Valid()
      modifies this
      ensures Valid()
      ensures ok == LruModel.Delete(old(Contents()), key).ok
      ensures Contents() == LruModel.Delete(old(Contents()), key).entries
    {
      IndexMatchesContents(key);
      if key in index {
        EraseNode(key);
        return true;
      }
      RemoveAbsent(Contents(), key);
      return false;
    }

    /**
     * Get: the stored value, if any; the recency order is left as it is. The caller's
     * string is passed in as prior and comes back unchanged when key is not stored.
     */
    method Get(key: string, prior: string) returns (found: bool, value: string)
      requires Valid()
      ensures found == Contains(Contents(), key)
      ensures found ==> Lookup(Contents(), key) == Some(value)
      ensures !found ==> value == prior
    {
      IndexMatchesContents(key);
      if key in index {
        var n := index[key];
        ghost var p :| 0 <= p < |order| && Slot(order, p) == n;
        ContentsDistinct();
        LookupAt(Contents(), p);
        return true, values[n];
      }
      return false, prior;
    }
  }
}

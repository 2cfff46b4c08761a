/**
 * The node arena behind the LRU store, as plain values: slot i of keys/values/prev/next
 * is one node, links are slot numbers and NIL is the null link. Arena states when
 * these sequences, the head and tail links and the key index form one well-formed
 * doubly linked list, listed by the ghost order; Unlink and Push state how unlinking
 * a node and linking a fresh node at the head keep that shape.
 */
module LruArena {
  import opened LruModel

  /** The null link. */
  const NIL: int := -1

  /** The entries of the live slots, in list order. */
  ghost function EntriesOf(order: seq<nat>, keys: seq<string>, values: seq<string>): seq<Entry>
    requires |values| == |keys|
    requires InArena(order, |keys|)
  {
    seq(|order|, i requires 0 <= i < |order| => Entry(keys[Slot(order, i)], values[Slot(order, i)]))
  }

  /**
   * The slot at position i of the list. The list invariants below quantify over
   * Slot terms only, so they are put to use where a proof names a position.
   */
  function Slot(order: seq<nat>, i: nat): nat
    requires i < |order|
  {
    order[i]
  }

  /** The slot after position i in the list, or NIL after the tail. */
  function Succ(order: seq<nat>, i: nat): int
    requires i < |order|
  {
    if i + 1 < |order| then order[i + 1] else NIL
  }

  /** The slot before position i in the list, or NIL before the head. */
  function Pred(order: seq<nat>, i: nat): int
    requires i < |order|
  {
    if i == 0 then NIL else order[i - 1]
  }

  /** Point the link of slot at to target; a NIL slot (no neighbour) patches nothing. */
  function Relink(links: seq<int>, at: int, target: int): (r: seq<int>)
    ensures |r| == |links|
    ensures forall i :: 0 <= i < |r| ==> r[i] == if i == at then target else links[i]
  {
    if 0 <= at < |links| then links[at := target] else links
  }

  /** No slot is linked twice. */
  ghost predicate Distinct(order: seq<nat>)
  {
    forall i, j :: 0 <= i < j < |order| ==> Slot(order, i) != Slot(order, j)
  }

  /** Every live slot is a slot of an arena of the given size. */
  ghost predicate InArena(order: seq<nat>, size: nat)
  {
    forall i :: 0 <= i < |order| ==> Slot(order, i) < size
  }

  /** head is the first live slot and tail the last, both NIL when the list is empty. */
  ghost predicate EndsOk(order: seq<nat>, head: int, tail: int)
  {
    && head == (if order == [] then NIL else order[0])
    && tail == (if order == [] then NIL else order[|order| - 1])
  }

  /** Each live node's next link is its successor in the list. */
  ghost predicate NextOk(order: seq<nat>, next: seq<int>)
  {
    && InArena(order, |next|)
    && forall i :: 0 <= i < |order| ==> next[Slot(order, i)] == Succ(order, i)
  }

  /** Each live node's prev link is its predecessor in the list. */
  ghost predicate PrevOk(order: seq<nat>, prev: seq<int>)
  {
    && InArena(order, |prev|)
    && forall i :: 0 <= i < |order| ==> prev[Slot(order, i)] == Pred(order, i)
  }

  /** Every indexed key names a live slot that carries that key. */
  ghost predicate IndexLive(order: seq<nat>, keys: seq<string>, index: map<string, nat>)
  {
    forall k :: k in index ==>
      && index[k] < |keys| && keys[index[k]] == k
      && exists i :: 0 <= i < |order| && Slot(order, i) == index[k]
  }

  /** Every live slot is indexed under its own key. */
  ghost predicate LiveIndexed(order: seq<nat>, keys: seq<string>, index: map<string, nat>)
    requires InArena(order, |keys|)
  {
    forall i :: 0 <= i < |order| ==>
      keys[Slot(order, i)] in index && index[keys[Slot(order, i)]] == Slot(order, i)
  }

  /** The list order without position pos, position by position. */
  lemma WithoutAt(order: seq<nat>, pos: nat)
    requires pos < |order|
    ensures var o := order[..pos] + order[pos + 1..];
      && |o| == |order| - 1
      && forall i :: 0 <= i < |o| ==> o[i] == if i < pos then order[i] else order[i + 1]
  {
  }

  lemma UnlinkKeepsOrder(order: seq<nat>, size: nat, pos: nat)
    requires Distinct(order) && InArena(order, size) && pos < |order|
    ensures Distinct(order[..pos] + order[pos + 1..]) && InArena(order[..pos] + order[pos + 1..], size)
  {
    var o := order[..pos] + order[pos + 1..];
    WithoutAt(order, pos);
    forall i | 0 <= i < |o|
      ensures Slot(o, i) == Slot(order, if i < pos then i else i + 1)
    {
    }
  }

  /** Unlinking position pos: its predecessor (if any) now links forward to its successor. */
  lemma UnlinkKeepsNext(order: seq<nat>, next: seq<int>, pos: nat, next': seq<int>)
    requires Distinct(order) && NextOk(order, next) && pos < |order|
    requires pos > 0 ==> next' == next[Slot(order, pos - 1) := Succ(order, pos)]
    requires pos == 0 ==> next' == next
    ensures NextOk(order[..pos] + order[pos + 1..], next')
  {
    var o := order[..pos] + order[pos + 1..];
    WithoutAt(order, pos);
    UnlinkKeepsOrder(order, |next|, pos);
    forall i | 0 <= i < |o|
      ensures next'[Slot(o, i)] == Succ(o, i)
    {
      var j := if i < pos then i else i + 1;
      assert Slot(o, i) == Slot(order, j);
      assert next[Slot(order, j)] == Succ(order, j);
      if i + 1 != pos {
        assert pos > 0 ==> Slot(order, j) != Slot(order, pos - 1);
        assert i + 1 < |o| ==> o[i + 1] == order[j + 1];
      }
    }
  }

  /** Unlinking position pos: its successor (if any) now links back to its predecessor. */
  lemma UnlinkKeepsPrev(order: seq<nat>, prev: seq<int>, pos: nat, prev': seq<int>)
    requires Distinct(order) && PrevOk(order, prev) && pos < |order|
    requires pos + 1 < |order| ==> prev' == prev[Slot(order, pos + 1) := Pred(order, pos)]
    requires pos + 1 == |order| ==> prev' == prev
    ensures PrevOk(order[..pos] + order[pos + 1..], prev')
  {
    var o := order[..pos] + order[pos + 1..];
    WithoutAt(order, pos);
    UnlinkKeepsOrder(order, |prev|, pos);
    forall i | 0 <= i < |o|
      ensures prev'[Slot(o, i)] == Pred(o, i)
    {
      var j := if i < pos then i else i + 1;
      assert Slot(o, i) == Slot(order, j);
      assert prev[Slot(order, j)] == Pred(order, j);
      if i != pos {
        assert pos + 1 < |order| ==> Slot(order, j) != Slot(order, pos + 1);
        assert i > 0 ==> o[i - 1] == order[j - 1];
      }
    }
  }

  /** Unlinking the head moves the head on; unlinking the tail moves the tail back. */
  lemma UnlinkKeepsEnds(order: seq<nat>, head: int, tail: int, pos: nat, head': int, tail': int)
    requires EndsOk(order, head, tail) && pos < |order|
    requires head' == if pos == 0 then Succ(order, pos) else head
    requires tail' == if pos == |order| - 1 then Pred(order, pos) else tail
    ensures EndsOk(order[..pos] + order[pos + 1..], head', tail')
  {
    WithoutAt(order, pos);
  }

  /** Dropping the live slot at pos from the index keeps the index in step with the list. */
  lemma UnlinkKeepsIndex(order: seq<nat>, keys: seq<string>, index: map<string, nat>, pos: nat)
    requires Distinct(order) && InArena(order, |keys|) && pos < |order|
    requires IndexLive(order, keys, index) && LiveIndexed(order, keys, index)
    ensures InArena(order[..pos] + order[pos + 1..], |keys|)
    ensures IndexLive(order[..pos] + order[pos + 1..], keys, index - {keys[Slot(order, pos)]})
    ensures LiveIndexed(order[..pos] + order[pos + 1..], keys, index - {keys[Slot(order, pos)]})
  {
    var o := order[..pos] + order[pos + 1..];
    var index' := index - {keys[Slot(order, pos)]};
    WithoutAt(order, pos);
    UnlinkKeepsOrder(order, |keys|, pos);
    forall k | k in index'
      ensures exists i :: 0 <= i < |o| && Slot(o, i) == index'[k]
    {
      var i :| 0 <= i < |order| && Slot(order, i) == index[k];
      assert i != pos;
      var i' := if i < pos then i else i - 1;
      assert Slot(o, i') == index[k];
    }
    forall i | 0 <= i < |o|
      ensures keys[Slot(o, i)] in index' && index'[keys[Slot(o, i)]] == Slot(o, i)
    {
      var j := if i < pos then i else i + 1;
      assert Slot(o, i) == Slot(order, j) && Slot(order, j) != Slot(order, pos);
      assert index[keys[Slot(order, j)]] == Slot(order, j);
      assert index[keys[Slot(order, pos)]] == Slot(order, pos);
    }
  }

  lemma EntriesWithout(order: seq<nat>, keys: seq<string>, values: seq<string>, pos: nat)
    requires |values| == |keys| && Distinct(order) && InArena(order, |keys|) && pos < |order|
    ensures InArena(order[..pos] + order[pos + 1..], |keys|)
    ensures var e := EntriesOf(order, keys, values);
      EntriesOf(order[..pos] + order[pos + 1..], keys, values) == e[..pos] + e[pos + 1..]
  {
    WithoutAt(order, pos);
    UnlinkKeepsOrder(order, |keys|, pos);
  }

  /** The neighbours of a live position are live slots, or NIL exactly at the ends. */
  lemma Neighbours(order: seq<nat>, size: nat, pos: nat)
    requires InArena(order, size) && pos < |order|
    ensures Pred(order, pos) == NIL <==> pos == 0
    ensures Succ(order, pos) == NIL <==> pos + 1 == |order|
    ensures pos > 0 ==> Pred(order, pos) == Slot(order, pos - 1) < size
    ensures pos + 1 < |order| ==> Succ(order, pos) == Slot(order, pos + 1) < size
  {
  }

  /** Linking fresh slot n (the arena's old size) in front of the head keeps the list ordered. */
  lemma PushKeepsOrder(order: seq<nat>, n: nat)
    requires Distinct(order) && InArena(order, n)
    ensures Distinct([n] + order) && InArena([n] + order, n + 1)
  {
    var o := [n] + order;
    forall i | 0 < i < |o|
      ensures Slot(o, i) == Slot(order, i - 1) < n
    {
    }
  }

  /** The new node links forward to the old head; old nodes keep their next links. */
  lemma PushKeepsNext(order: seq<nat>, next: seq<int>)
    requires NextOk(order, next)
    ensures NextOk([|next|] + order, next + [if order == [] then NIL else order[0]])
  {
    var o := [|next|] + order;
    var next' := next + [if order == [] then NIL else order[0]];
    forall i | 0 < i < |o|
      ensures Slot(o, i) == Slot(order, i - 1) < |next|
      ensures next'[Slot(o, i)] == Succ(o, i)
    {
      assert next[Slot(order, i - 1)] == Succ(order, i - 1);
    }
  }

  /** The old head (if any) links back to the new node; other nodes keep their prev links. */
  lemma PushKeepsPrev(order: seq<nat>, prev: seq<int>, prev': seq<int>)
    requires Distinct(order) && PrevOk(order, prev)
    requires order == [] ==> prev' == prev + [NIL]
    requires order != [] ==> prev' == (prev + [NIL])[Slot(order, 0) := |prev|]
    ensures PrevOk([|prev|] + order, prev')
  {
    var o := [|prev|] + order;
    forall i | 0 < i < |o|
      ensures Slot(o, i) == Slot(order, i - 1) < |prev|
      ensures prev'[Slot(o, i)] == Pred(o, i)
    {
      assert prev[Slot(order, i - 1)] == Pred(order, i - 1);
      assert i > 1 ==> Slot(order, i - 1) != Slot(order, 0);
    }
  }

  /** Indexing key at fresh slot n keeps the index in step with the longer list. */
  lemma PushKeepsIndex(order: seq<nat>, keys: seq<string>, index: map<string, nat>, key: string)
    requires InArena(order, |keys|) && key !in index
    requires IndexLive(order, keys, index) && LiveIndexed(order, keys, index)
    ensures InArena([|keys|] + order, |keys + [key]|)
    ensures IndexLive([|keys|] + order, keys + [key], index[key := |keys|])
    ensures LiveIndexed([|keys|] + order, keys + [key], index[key := |keys|])
  {
    var n := |keys|;
    var o, keys', index' := [n] + order, keys + [key], index[key := n];
    forall i | 0 <= i < |o|
      ensures Slot(o, i) == if i == 0 then n else Slot(order, i - 1)
      ensures Slot(o, i) < |keys'|
    {
    }
    forall k | k in index'
      ensures index'[k] < |keys'| && keys'[index'[k]] == k
      ensures exists i :: 0 <= i < |o| && Slot(o, i) == index'[k]
    {
      if k == key {
        assert Slot(o, 0) == n;
      } else {
        var i :| 0 <= i < |order| && Slot(order, i) == index[k];
        assert Slot(o, i + 1) == index[k];
      }
    }
    forall i | 0 <= i < |o|
      ensures keys'[Slot(o, i)] in index' && index'[keys'[Slot(o, i)]] == Slot(o, i)
    {
      if i > 0 {
        assert index[keys[Slot(order, i - 1)]] == Slot(order, i - 1);
      }
    }
  }

  lemma EntriesPush(order: seq<nat>, keys: seq<string>, values: seq<string>, key: string, value: string)
    requires |values| == |keys| && InArena(order, |keys|)
    ensures InArena([|keys|] + order, |keys + [key]|)
    ensures EntriesOf([|keys|] + order, keys + [key], values + [value])
      == [Entry(key, value)] + EntriesOf(order, keys, values)
  {
    var o := [|keys|] + order;
    forall i | 0 < i < |o|
      ensures Slot(o, i) == Slot(order, i - 1) < |keys|
    {
    }
  }

  /**
   * The arena invariant: all slot sequences have one length, the live slots form a
   * doubly linked list from head to tail, and the key index maps exactly the keys of
   * the live nodes to their slots.
   */
  ghost predicate Arena(keys: seq<string>, values: seq<string>, prev: seq<int>, next: seq<int>,
                        head: int, tail: int, index: map<string, nat>, order: seq<nat>)
  {
    && |values| == |keys| && |prev| == |keys| && |next| == |keys|
    && Distinct(order) && InArena(order, |keys|)
    && EndsOk(order, head, tail) && NextOk(order, next) && PrevOk(order, prev)
    && IndexLive(order, keys, index) && LiveIndexed(order, keys, index)
  }

  /** The index holds one slot per key, so the live entries carry distinct keys. */
  lemma LiveKeysDistinct(order: seq<nat>, keys: seq<string>, values: seq<string>, index: map<string, nat>)
    requires |values| == |keys| && Distinct(order) && InArena(order, |keys|)
    requires LiveIndexed(order, keys, index)
    ensures DistinctKeys(EntriesOf(order, keys, values))
  {
    var c := EntriesOf(order, keys, values);
    forall i, j | 0 <= i < j < |c|
      ensures c[i].key != c[j].key
    {
      assert index[keys[Slot(order, i)]] == Slot(order, i);
      assert index[keys[Slot(order, j)]] == Slot(order, j);
    }
  }

  /**
   * Unlinking the live node at position pos, with its neighbours' links and the ends
   * patched, keeps the arena invariant; the stored entries lose exactly that node's
   * entry and the byte total drops by its size.
   */
  lemma Unlink(keys: seq<string>, values: seq<string>, prev: seq<int>, next: seq<int>,
               head: int, tail: int, index: map<string, nat>, order: seq<nat>, pos: nat,
               prev': seq<int>, next': seq<int>, head': int, tail': int)
    requires Arena(keys, values, prev, next, head, tail, index, order) && pos < |order|
    requires next' == Relink(next, Pred(order, pos), Succ(order, pos))
    requires prev' == Relink(prev, Succ(order, pos), Pred(order, pos))
    requires head' == if Pred(order, pos) == NIL then Succ(order, pos) else head
    requires tail' == if Succ(order, pos) == NIL then Pred(order, pos) else tail
    ensures InArena(order[..pos] + order[pos + 1..], |keys|)
    ensures Arena(keys, values, prev', next', head', tail', index - {keys[Slot(order, pos)]},
                  order[..pos] + order[pos + 1..])
    ensures var e, e' := EntriesOf(order, keys, values), EntriesOf(order[..pos] + order[pos + 1..], keys, values);
      && e[pos] == Entry(keys[Slot(order, pos)], values[Slot(order, pos)])
      && e' == e[..pos] + e[pos + 1..]
      && Size(e') == Size(e) - EntrySize(e[pos])
  {
    var e := EntriesOf(order, keys, values);
    Neighbours(order, |keys|, pos);
    UnlinkKeepsOrder(order, |keys|, pos);
    UnlinkKeepsNext(order, next, pos, next');
    UnlinkKeepsPrev(order, prev, pos, prev');
    UnlinkKeepsEnds(order, head, tail, pos, head', tail');
    UnlinkKeepsIndex(order, keys, index, pos);
    EntriesWithout(order, keys, values, pos);
    SizeWithout(e, pos);
  }

  /** Dropping the live node at pos from the entries is removing its key. */
  lemma UnlinkRemoves(keys: seq<string>, values: seq<string>, index: map<string, nat>, order: seq<nat>, pos: nat)
    requires |values| == |keys| && Distinct(order) && InArena(order, |keys|)
    requires LiveIndexed(order, keys, index) && pos < |order|
    ensures var e := EntriesOf(order, keys, values);
      e[..pos] + e[pos + 1..] == Remove(e, keys[Slot(order, pos)])
  {
    LiveKeysDistinct(order, keys, values, index);
    RemoveAt(EntriesOf(order, keys, values), keys[Slot(order, pos)], pos);
  }

  /**
   * Unlinking the node at pos, which the index lists under key, removes key from the
   * entries, keeps the arena invariant without key in the index, and takes the
   * entry's bytes off the total.
   */
  lemma Erase(keys: seq<string>, values: seq<string>, prev: seq<int>, next: seq<int>,
              head: int, tail: int, index: map<string, nat>, order: seq<nat>, key: string, pos: nat,
              prev': seq<int>, next': seq<int>, head': int, tail': int, order': seq<nat>)
    requires Arena(keys, values, prev, next, head, tail, index, order)
    requires key in index && pos < |order| && Slot(order, pos) == index[key]
    requires next' == Relink(next, Pred(order, pos), Succ(order, pos))
    requires prev' == Relink(prev, Succ(order, pos), Pred(order, pos))
    requires head' == if Pred(order, pos) == NIL then Succ(order, pos) else head
    requires tail' == if Succ(order, pos) == NIL then Pred(order, pos) else tail
    requires order' == order[..pos] + order[pos + 1..]
    ensures InArena(order', |keys|)
    ensures Arena(keys, values, prev', next', head', tail', index - {key}, order')
    ensures EntriesOf(order', keys, values) == Remove(EntriesOf(order, keys, values), key)
    ensures Size(EntriesOf(order', keys, values))
         == Size(EntriesOf(order, keys, values)) - (|key| + |values[index[key]]|)
  {
    assert keys[Slot(order, pos)] == key;
    Unlink(keys, values, prev, next, head, tail, index, order, pos, prev', next', head', tail');
    UnlinkRemoves(keys, values, index, order, pos);
  }

  /**
   * Linking a fresh node for (key, value) at the head of the list, in the next free
   * slot, keeps the arena invariant; the new entry comes first and adds its size.
   */
  lemma Push(keys: seq<string>, values: seq<string>, prev: seq<int>, next: seq<int>,
             head: int, tail: int, index: map<string, nat>, order: seq<nat>,
             key: string, value: string, prev': seq<int>, tail': int)
    requires Arena(keys, values, prev, next, head, tail, index, order) && key !in index
    requires order != [] ==> prev' == (prev + [NIL])[Slot(order, 0) := |keys|]
    requires order == [] ==> prev' == prev + [NIL]
    requires tail' == if order == [] then |keys| else tail
    ensures InArena([|keys|] + order, |keys + [key]|)
    ensures Arena(keys + [key], values + [value], prev', next + [head], |keys|, tail',
                  index[key := |keys|], [|keys|] + order)
    ensures var e, e' := EntriesOf(order, keys, values), EntriesOf([|keys|] + order, keys + [key], values + [value]);
      && e' == [Entry(key, value)] + e
      && Size(e') == |key| + |value| + Size(e)
  {
    var n := |keys|;
    PushKeepsOrder(order, n);
    PushKeepsNext(order, next);
    PushKeepsPrev(order, prev, prev');
    PushKeepsIndex(order, keys, index, key);
    EntriesPush(order, keys, values, key, value);
    var e := EntriesOf(order, keys, values);
    assert ([Entry(key, value)] + e)[1..] == e;
  }
}

/**
 * Abstract model of the byte-budgeted LRU store.
 *
 * The cache is a sequence of entries ordered most-recent-first: index 0 is the
 * head (the entry written last), the last index is the tail (the next one to be
 * evicted). Every entry is charged |key| + |value| bytes against the budget.
 */
module LruModel {

  datatype Option<T> = None | Some(value: T)

  /** One stored pair; the key of a stored entry never changes. */
  datatype Entry = Entry(key: string, value: string)

  /** Result of a state-changing operation: its boolean answer and the entries afterwards. */
  datatype Outcome = Outcome(ok: bool, entries: seq<Entry>)

  /** Operations of the storage interface, for reasoning about whole runs. */
  datatype Op =
    | PutOp(key: string, value: string)
    | PutIfAbsentOp(key: string, value: string)
    | SetOp(key: string, value: string)
    | DeleteOp(key: string)
    | GetOp(key: string)

  /** The bytes one entry is charged. */
  function EntrySize(e: Entry): nat
  {
    |e.key| + |e.value|
  }

  /** The bytes a list of entries is charged. */
  function Size(s: seq<Entry>): nat
  {
    if s == [] then 0 else EntrySize(s[0]) + Size(s[1..])
  }

  predicate Contains(s: seq<Entry>, k: string)
  {
    exists i :: 0 <= i < |s| && s[i].key == k
  }

  predicate DistinctKeys(s: seq<Entry>)
  {
    forall i, j :: 0 <= i < j < |s| ==> s[i].key != s[j].key
  }

  /** What the store keeps after every operation: unique keys, total within budget. */
  predicate Inv(s: seq<Entry>, maxSize: nat)
  {
    DistinctKeys(s) && Size(s) <= maxSize
  }

  /** An entry that could not be stored even in an empty cache is refused. */
  predicate Fits(k: string, v: string, maxSize: nat)
  {
    |k| + |v| <= maxSize
  }

  /** The value stored under k, found from the most recent end. */
  function Lookup(s: seq<Entry>, k: string): (r: Option<string>)
    ensures r.None? <==> !Contains(s, k)
    ensures r.Some? ==> Entry(k, r.value) in s
  {
    if s == [] then None
    else if s[0].key == k then Some(s[0].value)
    else
      var r := Lookup(s[1..], k);
      assert Contains(s[1..], k) ==> Contains(s, k);
      assert Contains(s, k) && s[0].key != k ==> Contains(s[1..], k);
      r
  }

  /** s with every entry for k dropped, the others in their original order. */
  function Remove(s: seq<Entry>, k: string): seq<Entry>
  {
    if s == [] then []
    else if s[0].key == k then Remove(s[1..], k)
    else [s[0]] + Remove(s[1..], k)
  }

  /**
   * Eviction: drop the tail entry, one at a time, until the total fits the budget.
   * Only a suffix (the least recent entries) is dropped, and no more than needed.
   */
  function Evict(s: seq<Entry>, budget: nat): (r: seq<Entry>)
    ensures r <= s
    ensures Size(r) <= budget
    ensures r == s || Size(s[..|r| + 1]) > budget
    decreases |s|
  {
    if Size(s) <= budget then s
    else
      var r := Evict(s[..|s| - 1], budget);
      assert s[..|s|] == s;
      assert r != s[..|s| - 1] ==> s[..|s| - 1][..|r| + 1] == s[..|r| + 1];
      r
  }

  /** Over budget, dropping the tail is one step of eviction: the end result is the same. */
  lemma EvictStep(s: seq<Entry>, budget: nat)
    requires Size(s) > budget
    ensures s != [] && Evict(s[..|s| - 1], budget) == Evict(s, budget)
  {
  }

  /**
   * Storing a new entry whose key is absent: the cache is first trimmed from the tail
   * until the new entry's bytes fit, and only then is the entry placed at the head.
   */
  function Insert(s: seq<Entry>, k: string, v: string, maxSize: nat): seq<Entry>
    requires Fits(k, v, maxSize)
  {
    [Entry(k, v)] + Evict(s, maxSize - (|k| + |v|))
  }

  /** Put: insert or overwrite; an existing entry for k is removed first. */
  function Put(s: seq<Entry>, maxSize: nat, k: string, v: string): Outcome
  {
    if !Fits(k, v, maxSize) then Outcome(false, s)
    else Outcome(true, Insert(Remove(s, k), k, v, maxSize))
  }

  /** PutIfAbsent: insert only when k is not stored. */
  function PutIfAbsent(s: seq<Entry>, maxSize: nat, k: string, v: string): Outcome
  {
    if Contains(s, k) || !Fits(k, v, maxSize) then Outcome(false, s)
    else Outcome(true, Insert(s, k, v, maxSize))
  }

  /** Set: overwrite only when k is stored; the new entry goes to the head. */
  function Set(s: seq<Entry>, maxSize: nat, k: string, v: string): Outcome
  {
    if !Contains(s, k) || !Fits(k, v, maxSize) then Outcome(false, s)
    else Outcome(true, Insert(Remove(s, k), k, v, maxSize))
  }

  /** Delete: drop the entry for k; the answer says whether there was one. */
  function Delete(s: seq<Entry>, k: string): Outcome
  {
    Outcome(Contains(s, k), Remove(s, k))
  }

  /** The entries after one operation; Get changes nothing. */
  function Apply(s: seq<Entry>, maxSize: nat, op: Op): seq<Entry>
  {
    match op
    case PutOp(k, v) => Put(s, maxSize, k, v).entries
    case PutIfAbsentOp(k, v) => PutIfAbsent(s, maxSize, k, v).entries
    case SetOp(k, v) => Set(s, maxSize, k, v).entries
    case DeleteOp(k) => Delete(s, k).entries
    case GetOp(_) => s
  }

  /** The entries after a run of operations, applied first to last. */
  function Run(s: seq<Entry>, maxSize: nat, ops: seq<Op>): seq<Entry>
    decreases |ops|
  {
    if ops == [] then s else Run(Apply(s, maxSize, ops[0]), maxSize, ops[1..])
  }

  /**
   * What a run of operations last left under k: the value of the last successful Put,
   * PutIfAbsent or Set of k, None when a Delete of k came after it, and the lookup in
   * the starting entries when the run neither wrote nor deleted k.
   */
  function LastWrite(s: seq<Entry>, maxSize: nat, ops: seq<Op>, k: string): Option<string>
    decreases |ops|
  {
    if ops == [] then Lookup(s, k)
    else
      var before := ops[..|ops| - 1];
      var pre := Run(s, maxSize, before);
      var earlier := LastWrite(s, maxSize, before, k);
      match ops[|ops| - 1]
      case PutOp(k', v) => if k' == k && Put(pre, maxSize, k', v).ok then Some(v) else earlier
      case PutIfAbsentOp(k', v) => if k' == k && PutIfAbsent(pre, maxSize, k', v).ok then Some(v) else earlier
      case SetOp(k', v) => if k' == k && Set(pre, maxSize, k', v).ok then Some(v) else earlier
      case DeleteOp(k') => if k' == k then None else earlier
      case GetOp(_) => earlier
  }

  // ---------------------------------------------------------------------------
  // Facts about sizes, lookups and removal

  lemma {:induction false} SizeAppend(a: seq<Entry>, b: seq<Entry>)
    ensures Size(a + b) == Size(a) + Size(b)
    decreases |a|
  {
    if a == [] {
      assert a + b == b;
    } else {
      assert (a + b)[1..] == a[1..] + b;
      SizeAppend(a[1..], b);
    }
  }

  /** Dropping the entry at position p lowers the total by exactly that entry's bytes. */
  lemma {:induction false} SizeWithout(s: seq<Entry>, p: nat)
    requires p < |s|
    ensures Size(s[..p] + s[p + 1..]) == Size(s) - EntrySize(s[p])
    decreases p
  {
    if p == 0 {
      assert s[..p] + s[p + 1..] == s[1..];
    } else {
      var t := s[1..];
      SizeWithout(t, p - 1);
      assert t[p - 1] == s[p];
      assert s[..p] + s[p + 1..] == [s[0]] + (t[..p - 1] + t[p..]);
    }
  }

  /** Dropping the tail lowers the total by exactly the tail's bytes. */
  lemma SizeWithoutLast(s: seq<Entry>)
    requires |s| > 0
    ensures Size(s[..|s| - 1]) == Size(s) - EntrySize(s[|s| - 1])
  {
    assert s[..|s| - 1] == s[..|s| - 1] + s[|s|..];
    SizeWithout(s, |s| - 1);
  }

  /** With unique keys, the lookup of any stored key finds that very entry. */
  lemma {:induction false} LookupAt(s: seq<Entry>, p: nat)
    requires DistinctKeys(s) && p < |s|
    ensures Lookup(s, s[p].key) == Some(s[p].value)
    decreases p
  {
    if p > 0 {
      assert s[0].key != s[p].key;
      assert s[1..][p - 1] == s[p];
      LookupAt(s[1..], p - 1);
    }
  }

  /** Removal keeps exactly the entries under other keys, so k is no longer stored. */
  lemma {:induction false} RemoveMembers(s: seq<Entry>, k: string)
    ensures forall e :: e in Remove(s, k) <==> e in s && e.key != k
    ensures !Contains(Remove(s, k), k)
    ensures |Remove(s, k)| <= |s|
    decreases |s|
  {
    if s != [] {
      RemoveMembers(s[1..], k);
      assert s == [s[0]] + s[1..];
    }
  }

  lemma {:induction false} RemoveAbsent(s: seq<Entry>, k: string)
    requires !Contains(s, k)
    ensures Remove(s, k) == s
    decreases |s|
  {
    if s != [] {
      assert s[0].key != k;
      forall i | 0 <= i < |s[1..]|
        ensures s[1..][i].key != k
      {
        assert s[1..][i] == s[i + 1];
      }
      RemoveAbsent(s[1..], k);
      assert [s[0]] + s[1..] == s;
    }
  }

  /** With unique keys, removing the key stored at p removes exactly position p. */
  lemma {:induction false} RemoveAt(s: seq<Entry>, k: string, p: nat)
    requires DistinctKeys(s) && p < |s| && s[p].key == k
    ensures Remove(s, k) == s[..p] + s[p + 1..]
    decreases p
  {
    if p == 0 {
      forall i | 0 <= i < |s[1..]|
        ensures s[1..][i].key != k
      {
        assert s[1..][i] == s[i + 1];
      }
      RemoveAbsent(s[1..], k);
    } else {
      assert s[0].key != k;
      assert s[1..][p - 1] == s[p];
      RemoveAt(s[1..], k, p - 1);
      assert s[..p] + s[p + 1..] == [s[0]] + (s[1..][..p - 1] + s[1..][p..]);
    }
  }

  /** Dropping one position keeps the other keys unique. */
  lemma DistinctWithout(s: seq<Entry>, p: nat)
    requires DistinctKeys(s) && p < |s|
    ensures DistinctKeys(s[..p] + s[p + 1..])
  {
    var t := s[..p] + s[p + 1..];
    forall i, j | 0 <= i < j < |t|
      ensures t[i].key != t[j].key
    {
      var i' := if i < p then i else i + 1;
      var j' := if j < p then j else j + 1;
      assert t[i] == s[i'] && t[j] == s[j'];
    }
  }

  /** Removal keeps the keys unique and frees exactly the removed entry's bytes. */
  lemma RemoveKeepsInv(s: seq<Entry>, k: string, maxSize: nat)
    requires Inv(s, maxSize)
    ensures Inv(Remove(s, k), maxSize) && !Contains(Remove(s, k), k)
    ensures Contains(s, k) ==> Size(Remove(s, k)) == Size(s) - (|k| + |Lookup(s, k).value|)
    ensures !Contains(s, k) ==> Remove(s, k) == s
  {
    RemoveMembers(s, k);
    if Contains(s, k) {
      var p :| 0 <= p < |s| && s[p].key == k;
      RemoveAt(s, k, p);
      LookupAt(s, p);
      DistinctWithout(s, p);
      SizeWithout(s, p);
    } else {
      RemoveAbsent(s, k);
    }
  }

  /** After removing k, k is gone and every other key looks up as before. */
  lemma LookupRemove(s: seq<Entry>, k: string, k': string)
    requires DistinctKeys(s)
    ensures Lookup(Remove(s, k), k') == if k' == k then None else Lookup(s, k')
  {
    RemoveMembers(s, k);
    if k' != k {
      var r := Remove(s, k);
      if Contains(s, k') {
        var p :| 0 <= p < |s| && s[p].key == k';
        LookupAt(s, p);
        var q :| 0 <= q < |r| && r[q] == s[p];
        RemoveKeepsInv(s, k, Size(s));
        LookupAt(r, q);
      } else {
        forall q | 0 <= q < |r|
          ensures r[q].key != k'
        {
          assert r[q] in s;
        }
      }
    }
  }

  /** A prefix of a list with unique keys finds each key as before, or not at all. */
  lemma LookupPrefix(r: seq<Entry>, s: seq<Entry>, k: string)
    requires DistinctKeys(s) && r <= s
    ensures Lookup(r, k) == Lookup(s, k) || Lookup(r, k) == None
  {
    if Contains(r, k) {
      var p :| 0 <= p < |r| && r[p].key == k;
      assert r[p] == s[p];
      LookupAt(r, p);
      LookupAt(s, p);
    }
  }

  // ---------------------------------------------------------------------------
  // Eviction and insertion

  /**
   * Inserting an absent key keeps the invariant; the new entry is the head, the
   * entries behind it are the most recent ones that were already there, and
   * eviction stopped as soon as the new entry fitted.
   */
  lemma InsertCorrect(s: seq<Entry>, k: string, v: string, maxSize: nat)
    requires Inv(s, maxSize) && !Contains(s, k) && Fits(k, v, maxSize)
    ensures var r := Insert(s, k, v, maxSize);
      && Inv(r, maxSize)
      && r[0] == Entry(k, v)
      && r[1..] <= s
      && (r[1..] == s || Size(s[..|r|]) + |k| + |v| > maxSize)
      && Lookup(r, k) == Some(v)
      && forall k' :: k' != k ==> Lookup(r, k') == Lookup(s, k') || Lookup(r, k') == None
  {
    var budget := maxSize - (|k| + |v|);
    var e := Evict(s, budget);
    var r := Insert(s, k, v, maxSize);
    assert r == [Entry(k, v)] + e && r[1..] == e;
    assert Size(r) == |k| + |v| + Size(e);
    forall i, j | 0 <= i < j < |r|
      ensures r[i].key != r[j].key
    {
      if i == 0 {
        assert r[j] == s[j - 1];
      } else {
        assert r[i] == s[i - 1] && r[j] == s[j - 1];
      }
    }
    forall k' | k' != k
      ensures Lookup(r, k') == Lookup(s, k') || Lookup(r, k') == None
    {
      assert Lookup(r, k') == Lookup(e, k');
      LookupPrefix(e, s, k');
    }
  }

  // ---------------------------------------------------------------------------
  // The five operations

  /**
   * Put succeeds exactly when the entry fits the budget on its own; then the pair is
   * the head, k is stored once with value v, and every other key keeps its value
   * unless it was evicted. A refused Put changes nothing.
   */
  lemma PutCorrect(s: seq<Entry>, maxSize: nat, k: string, v: string)
    requires Inv(s, maxSize)
    ensures var o := Put(s, maxSize, k, v);
      && o.ok == Fits(k, v, maxSize)
      && Inv(o.entries, maxSize)
      && (!o.ok ==> o.entries == s)
      && (o.ok ==> o.entries[0] == Entry(k, v) && o.entries[1..] <= Remove(s, k))
      && (o.ok ==> Lookup(o.entries, k) == Some(v))
      && (o.ok ==> forall k' :: k' != k ==>
            Lookup(o.entries, k') == Lookup(s, k') || Lookup(o.entries, k') == None)
  {
    if Fits(k, v, maxSize) {
      var t := Remove(s, k);
      RemoveKeepsInv(s, k, maxSize);
      InsertCorrect(t, k, v, maxSize);
      forall k' | k' != k
        ensures Lookup(t, k') == Lookup(s, k')
      {
        LookupRemove(s, k, k');
      }
    }
  }

  /**
   * PutIfAbsent succeeds exactly when k is absent and the entry fits; then the pair is
   * the head and the rest is a most-recent prefix of the old entries. Otherwise
   * contents, order and size are unchanged.
   */
  lemma PutIfAbsentCorrect(s: seq<Entry>, maxSize: nat, k: string, v: string)
    requires Inv(s, maxSize)
    ensures var o := PutIfAbsent(s, maxSize, k, v);
      && o.ok == (!Contains(s, k) && Fits(k, v, maxSize))
      && Inv(o.entries, maxSize)
      && (!o.ok ==> o.entries == s)
      && (o.ok ==> o.entries[0] == Entry(k, v) && o.entries[1..] <= s)
      && (Contains(s, k) ==> Lookup(o.entries, k) == Lookup(s, k))
      && (o.ok ==> Lookup(o.entries, k) == Some(v))
      && (o.ok ==> forall k' :: k' != k ==>
            Lookup(o.entries, k') == Lookup(s, k') || Lookup(o.entries, k') == None)
  {
    if !Contains(s, k) && Fits(k, v, maxSize) {
      InsertCorrect(s, k, v, maxSize);
    }
  }

  /**
   * Set succeeds exactly when k is stored and the entry fits; then the new value is at
   * the head and every other key keeps its value unless it was evicted. On an absent
   * key it changes nothing.
   */
  lemma SetCorrect(s: seq<Entry>, maxSize: nat, k: string, v: string)
    requires Inv(s, maxSize)
    ensures var o := Set(s, maxSize, k, v);
      && o.ok == (Contains(s, k) && Fits(k, v, maxSize))
      && Inv(o.entries, maxSize)
      && (!o.ok ==> o.entries == s)
      && (o.ok ==> o.entries[0] == Entry(k, v) && o.entries[1..] <= Remove(s, k))
      && (o.ok ==> Lookup(o.entries, k) == Some(v))
      && (o.ok ==> forall k' :: k' != k ==>
            Lookup(o.entries, k') == Lookup(s, k') || Lookup(o.entries, k') == None)
  {
    if Contains(s, k) && Fits(k, v, maxSize) {
      var t := Remove(s, k);
      RemoveKeepsInv(s, k, maxSize);
      InsertCorrect(t, k, v, maxSize);
      forall k' | k' != k
        ensures Lookup(t, k') == Lookup(s, k')
      {
        LookupRemove(s, k, k');
      }
    }
  }

  /**
   * Delete answers whether k was stored; afterwards k is absent, the remaining entries
   * keep their relative order (exactly one position is dropped), the total falls by
   * the removed entry's bytes, and every other key looks up as before.
   */
  lemma DeleteCorrect(s: seq<Entry>, k: string, maxSize: nat)
    requires Inv(s, maxSize)
    ensures var o := Delete(s, k);
      && o.ok == Contains(s, k)
      && Inv(o.entries, maxSize)
      && Lookup(o.entries, k) == None
      && (!o.ok ==> o.entries == s)
      && (o.ok ==> exists p :: 0 <= p < |s| && s[p].key == k && o.entries == s[..p] + s[p + 1..])
      && (o.ok ==> Size(o.entries) == Size(s) - (|k| + |Lookup(s, k).value|))
      && forall k' :: k' != k ==> Lookup(o.entries, k') == Lookup(s, k')
  {
    RemoveKeepsInv(s, k, maxSize);
    if Contains(s, k) {
      var p :| 0 <= p < |s| && s[p].key == k;
      RemoveAt(s, k, p);
    }
    forall k' | k' != k
      ensures Lookup(Remove(s, k), k') == Lookup(s, k')
    {
      LookupRemove(s, k, k');
    }
  }

  /** A second PutIfAbsent on the same key keeps the value the first one stored. */
  lemma PutIfAbsentTwice(s: seq<Entry>, maxSize: nat, k: string, v: string, v2: string)
    requires Inv(s, maxSize)
    ensures var o1 := PutIfAbsent(s, maxSize, k, v);
      var o2 := PutIfAbsent(o1.entries, maxSize, k, v2);
      o1.ok ==> !o2.ok && o2.entries == o1.entries && Lookup(o2.entries, k) == Some(v)
  {
    var o1 := PutIfAbsent(s, maxSize, k, v);
    if o1.ok {
      InsertCorrect(s, k, v, maxSize);
      assert o1.entries[0].key == k;
    }
  }

  /** No run of operations can break the invariant: the budget is never exceeded. */
  lemma {:induction false} RunKeepsInv(s: seq<Entry>, maxSize: nat, ops: seq<Op>)
    requires Inv(s, maxSize)
    ensures Inv(Run(s, maxSize, ops), maxSize)
    decreases |ops|
  {
    if ops != [] {
      match ops[0] {
        case PutOp(k, v) => PutCorrect(s, maxSize, k, v);
        case PutIfAbsentOp(k, v) => PutIfAbsentCorrect(s, maxSize, k, v);
        case SetOp(k, v) => SetCorrect(s, maxSize, k, v);
        case DeleteOp(k) => DeleteCorrect(s, k, maxSize);
        case GetOp(_) =>
      }
      RunKeepsInv(Apply(s, maxSize, ops[0]), maxSize, ops[1..]);
    }
  }

  /** Running one more operation is applying it to the entries the run left. */
  lemma {:induction false} RunSnoc(s: seq<Entry>, maxSize: nat, ops: seq<Op>, op: Op)
    ensures Run(s, maxSize, ops + [op]) == Apply(Run(s, maxSize, ops), maxSize, op)
    decreases |ops|
  {
    if ops == [] {
      assert ([] + [op])[1..] == [];
    } else {
      assert (ops + [op])[1..] == ops[1..] + [op];
      RunSnoc(Apply(s, maxSize, ops[0]), maxSize, ops[1..], op);
    }
  }

  /**
   * Get after any run of operations finds either nothing (the entry was evicted or
   * deleted) or exactly the value the run last wrote under k.
   */
  lemma {:induction false} GetSeesLastWrite(s: seq<Entry>, maxSize: nat, ops: seq<Op>, k: string)
    requires Inv(s, maxSize)
    ensures var found := Lookup(Run(s, maxSize, ops), k);
      found == None || found == LastWrite(s, maxSize, ops, k)
    decreases |ops|
  {
    if ops != [] {
      var before, op := ops[..|ops| - 1], ops[|ops| - 1];
      assert ops == before + [op];
      RunSnoc(s, maxSize, before, op);
      GetSeesLastWrite(s, maxSize, before, k);
      RunKeepsInv(s, maxSize, before);
      var pre := Run(s, maxSize, before);
      match op {
        case PutOp(k', v) => PutCorrect(pre, maxSize, k', v);
        case PutIfAbsentOp(k', v) => PutIfAbsentCorrect(pre, maxSize, k', v);
        case SetOp(k', v) => SetCorrect(pre, maxSize, k', v);
        case DeleteOp(k') => DeleteCorrect(pre, k', maxSize);
        case GetOp(_) =>
      }
    }
  }
}

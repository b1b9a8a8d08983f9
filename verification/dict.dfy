/**
 * The dictionary of dict.c: two bucket tables `ht[0]` and `ht[1]`, a rehash
 * cursor and an iterator counter. Growing installs a larger `ht[1]` and the
 * entries migrate one bucket at a time, piggy-backed on lookups, inserts and
 * deletes. What each table stores is read off its chains (`TableMap`); the
 * union of the two is the dictionary's key/value mapping.
 *
 * The type descriptor's hash function is the constant `hash`; key comparison
 * is Dafny equality. The process-wide `dict_can_resize` switch is passed to
 * the operations that read it.
 */
module Dict {
  import opened Common
  import opened DictTable

  /** A `dictEntry *`: which table, which slot, and how far down the chain. */
  datatype EntryRef = EntryRef(table: nat, slot: nat, pos: nat)

  /**
   * The chain walk shared by `dictFind`, `dictGenericDelete` and
   * `_dictKeyIndex`: the position of the first entry whose key is `key`, or -1.
   */
  method FindInChain<K(==), V>(c: Chain<K, V>, key: K) returns (j: int)
    ensures -1 <= j < |c|
    ensures j == -1 <==> key !in ChainMap(c)
    ensures j >= 0 ==> c[j].key == key && ChainMap(c)[key] == c[j].val
  {
    j := 0;
    while j < |c|
      invariant 0 <= j <= |c|
      invariant forall p :: 0 <= p < j ==> c[p].key != key
    {
      if c[j].key == key {
        ChainMapFirst(c, j);
        return;
      }
      j := j + 1;
    }
    ChainMapMiss(c, key);
    j := -1;
  }

  /**
   * The inner loop of `dictRehash`: each entry of the chain `de`, head first,
   * goes to the head of its own slot in the table `t1` (whose size mask is
   * `|t1| - 1`).
   */
  method MigrateChain<K, V>(de: Chain<K, V>, t1: seq<Chain<K, V>>, hash: K -> nat) returns (u1: seq<Chain<K, V>>)
    requires Distinct(de) && SlotsOk(t1, 0, hash) && |t1| > 0
    requires Disjoint(ChainMap(de), TableMap(t1, 0))
    ensures |u1| == |t1| && SlotsOk(u1, 0, hash)
    ensures TableMap(u1, 0) == TableMap(t1, 0) + ChainMap(de)
    ensures Count(u1, 0) == Count(t1, 0) + |de|
  {
    u1 := t1;
    var rest := de;
    while rest != []
      invariant |u1| == |t1| && SlotsOk(u1, 0, hash) && Distinct(rest)
      invariant Disjoint(ChainMap(rest), TableMap(u1, 0))
      invariant TableMap(u1, 0) + ChainMap(rest) == TableMap(t1, 0) + ChainMap(de)
      invariant Count(u1, 0) + |rest| == Count(t1, 0) + |de|
      decreases |rest|
    {
      var e := rest[0];
      var h := Slot(hash(e.key), |u1| - 1);
      PrependOk(u1, hash, e, h);
      CountUpdate(u1, h, [e] + u1[h], 0);
      ShiftKey(TableMap(u1, 0), ChainMap(rest[1..]), e.key, e.val);
      u1 := u1[h := [e] + u1[h]];
      rest := rest[1..];
    }
    assert ChainMap(rest) == map[];
    assert TableMap(u1, 0) + map[] == TableMap(u1, 0);
  }

  /**
   * The cursor walk of `dictRehash`: from slot `from`, the first slot whose
   * chain is not empty (slot `w` is one, so the walk stops by then).
   */
  method SkipEmpty<K, V>(b: seq<Chain<K, V>>, from: nat, ghost w: nat) returns (i: nat)
    requires from <= w < |b| && b[w] != []
    ensures from <= i <= w && b[i] != []
    ensures forall p :: from <= p < i ==> b[p] == []
  {
    i := from;
    while b[i] == []
      invariant from <= i <= w
      invariant forall p :: from <= p < i ==> b[p] == []
      decreases w - i
    {
      i := i + 1;
    }
  }

  class Dict<K(==), V> {
    const hash: K -> nat
    var table0: seq<Chain<K, V>>
    var sizemask0: nat
    var used0: nat
    var table1: seq<Chain<K, V>>
    var sizemask1: nat
    var used1: nat
    /** -1 when idle, otherwise the next `ht[0]` slot to migrate. */
    var rehashidx: int
    /** The number of safe iterators that have started. */
    var iterators: int

    /**
     * The dictionary invariant, with `s0` standing for the slots of `ht[0]`
     * (the bucket migration states it while one slot is half moved).
     */
    ghost predicate Consistent(s0: seq<Chain<K, V>>)
      reads this
    {
      && SizeAllowed(|s0|) && SizeAllowed(|table1|)
      && SizeOk(|s0|, sizemask0) && SizeOk(|table1|, sizemask1)
      && SlotsOk(s0, 0, hash) && SlotsOk(table1, 0, hash)
      && Disjoint(TableMap(s0, 0), TableMap(table1, 0))
      && used0 == Count(s0, 0) && used1 == Count(table1, 0)
      && (rehashidx == -1 <==> |table1| == 0)
      && (rehashidx != -1 ==>
            && 0 < |s0| && 0 <= rehashidx <= |s0|
            && forall i :: 0 <= i < rehashidx ==> s0[i] == [])
    }

    ghost predicate Valid()
      reads this
    {
      Consistent(table0)
    }

    /** The key/value mapping the dictionary represents. */
    ghost function Contents(): map<K, V>
      reads this
    {
      TableMap(table0, 0) + TableMap(table1, 0)
    }

    /** `dictIsRehashing`. */
    predicate IsRehashing(): (r: bool)
      reads this
      ensures Valid() ==> (r <==> |table1| > 0)
    {
      rehashidx != -1
    }

    /** `dictSize`: the number of keys stored. */
    function Size(): (n: nat)
      reads this
      requires Valid()
      ensures n == |Contents()|
    {
      CountIsSize(table0, hash, 0);
      CountIsSize(table1, hash, 0);
      DisjointMergeSize(TableMap(table0, 0), TableMap(table1, 0));
      used0 + used1
    }

    /** `ref` designates an entry holding `key` and `val`. */
    ghost predicate Holds(ref: EntryRef, key: K, val: V)
      reads this
    {
      if ref.table == 0 then
        ref.slot < |table0| && ref.pos < |table0[ref.slot]| && table0[ref.slot][ref.pos] == Entry(key, val)
      else
        ref.table == 1 &&
        ref.slot < |table1| && ref.pos < |table1[ref.slot]| && table1[ref.slot][ref.pos] == Entry(key, val)
    }

    /** Every entry, `ht[0]` slot by slot and then, while rehashing, `ht[1]`. */
    ghost function Entries(): seq<Entry<K, V>>
      reads this
    {
      Flatten(table0, 0) + (if rehashidx != -1 then Flatten(table1, 0) else [])
    }

    /** `dictCreate` / `_dictInit`: both tables reset, not rehashing, no iterators. */
    constructor (hash: K -> nat)
      ensures Valid() && this.hash == hash && Contents() == map[]
      ensures table0 == [] && table1 == [] && rehashidx == -1 && iterators == 0
    {
      this.hash := hash;
      table0, table1 := [], [];
      sizemask0, used0, sizemask1, used1 := 0, 0, 0, 0;
      rehashidx := -1;
      iterators := 0;
    }

    /**
     * `dictExpand`: refused while rehashing or when `size` is below the number
     * of keys in `ht[0]`; otherwise allocates an empty table of
     * `_dictNextPower(size)` slots, as `ht[0]` if there is none yet and else as
     * `ht[1]`, which starts a migration.
     */
    method Expand(size: nat) returns (ok: bool)
      requires Valid()
      modifies this
      ensures Valid() && Contents() == old(Contents()) && iterators == old(iterators)
      ensures ok <==> !old(IsRehashing()) && old(used0) <= size
      ensures !ok ==> unchanged(this)
      ensures ok && old(|table0|) == 0 ==>
                && |table0| == NextPower(size) && (forall i :: 0 <= i < |table0| ==> table0[i] == [])
                && table1 == [] && !IsRehashing()
      ensures ok && old(|table0|) != 0 ==>
                && table0 == old(table0)
                && |table1| == NextPower(size) && TableMap(table1, 0) == map[] && rehashidx == 0
    {
      if rehashidx != -1 || used0 > size {
        return false;
      }
      var realsize := NextPower(size);
      NextPowerAllowed(size);
      var n: seq<Chain<K, V>> := seq(realsize, _ => []);
      EmptySlots(n, 0, hash);
      if |table0| == 0 {
        table0, sizemask0 := n, realsize - 1;
      } else {
        table1, sizemask1 := n, realsize - 1;
        rehashidx := 0;
      }
      ok := true;
    }

    /**
     * `dictResize`: when resizing is allowed and no migration runs, resize to
     * the number of keys in `ht[0]`, but never below DICT_HT_INITIAL_SIZE.
     */
    method Resize(canResize: bool) returns (ok: bool)
      requires Valid()
      modifies this
      ensures Valid() && Contents() == old(Contents()) && iterators == old(iterators)
      ensures ok <==> canResize && !old(IsRehashing())
      ensures !ok ==> unchanged(this)
      ensures ok && old(|table0|) != 0 ==>
                |table1| == NextPower(if old(used0) < InitialSize then InitialSize else old(used0))
    {
      if !canResize || rehashidx != -1 {
        return false;
      }
      var minimal := used0;
      if minimal < InitialSize {
        minimal := InitialSize;
      }
      ok := Expand(minimal);
    }

    /**
     * `_dictExpandIfNeeded`: nothing while rehashing; an absent `ht[0]` gets
     * the initial size; a full `ht[0]` (as many keys as slots) doubles when
     * resizing is allowed or the load is above the forced ratio. It never
     * fails.
     */
    method ExpandIfNeeded(canResize: bool) returns (ok: bool)
      requires Valid()
      modifies this
      ensures ok
      ensures Valid() && Contents() == old(Contents()) && iterators == old(iterators)
      ensures |table0| > 0
      ensures old(IsRehashing()) ==> unchanged(this)
      ensures !old(IsRehashing()) && old(|table0|) == 0 ==>
                |table0| == InitialSize && !IsRehashing()
      ensures !old(IsRehashing()) && old(|table0|) != 0 ==>
                if old(used0 >= |table0| && (canResize || used0 / |table0| > ForceResizeRatio))
                then IsRehashing() && |table1| == NextPower(2 * old(used0))
                else unchanged(this)
    {
      if rehashidx != -1 {
        return true;
      }
      if |table0| == 0 {
        ok := Expand(InitialSize);
        return;
      }
      if used0 >= |table0| && (canResize || used0 / |table0| > ForceResizeRatio) {
        ok := Expand((if |table0| > used0 then |table0| else used0) * 2);
        return;
      }
      ok := true;
    }

    /**
     * One pass of `dictRehash`'s loop when `ht[0]` still holds keys: skip the
     * empty slots, then move every entry of the next non-empty slot to its
     * slot in `ht[1]` and clear the old slot.
     */
    method RehashBucket()
      requires Valid() && IsRehashing() && used0 > 0
      modifies this
      ensures Valid() && IsRehashing()
      ensures |table0| == old(|table0|) && |table1| == old(|table1|)
      ensures Contents() == old(Contents()) && used0 + used1 == old(used0 + used1)
      ensures used0 < old(used0) && rehashidx > old(rehashidx)
      ensures iterators == old(iterators)
    {
      ghost var w := NonEmptySlot(table0, 0);
      var i := SkipEmpty(table0, rehashidx, w);
      var de := table0[i];
      SlotKeys(table0, hash, i);
      var moved := MigrateChain(de, table1, hash);
      MoveSlot(table0, table1, moved, hash, i);
      table0, table1 := table0[i := []], moved;
      used0, used1 := used0 - |de|, used1 + |de|;
      rehashidx := i + 1;
    }

    /**
     * The end of a migration in `dictRehash`: `ht[0]` holds no entry, so
     * `ht[1]` takes its place, `ht[1]` is reset and the cursor returns to -1.
     */
    method FinishRehash()
      requires Valid() && IsRehashing() && used0 == 0
      modifies this
      ensures Valid() && !IsRehashing() && iterators == old(iterators)
      ensures table0 == old(table1) && used0 == old(used1) && table1 == []
      ensures TableMap(table0, 0) == old(Contents())
    {
      NoEntriesNoKeys(table0, 0);
      NoKeysMerge(TableMap(table0, 0), TableMap(table1, 0));
      table0, sizemask0, used0 := table1, sizemask1, used1;
      table1, sizemask1, used1 := [], 0, 0;
      rehashidx := -1;
    }

    /**
     * `dictRehash(d, n)`: up to `n` bucket migrations. When `ht[0]` is empty
     * the migration is over: `ht[1]` becomes `ht[0]`, `ht[1]` is reset and the
     * cursor goes back to -1. Returns 1 while keys remain to move, else 0.
     */
    method Rehash(n: nat) returns (r: int)
      requires Valid()
      modifies this
      ensures Valid() && Contents() == old(Contents()) && used0 + used1 == old(used0 + used1)
      ensures iterators == old(iterators)
      ensures r == 0 || r == 1
      ensures r == 0 <==> !IsRehashing()
      ensures !old(IsRehashing()) ==> unchanged(this)
      ensures r == 1 ==> used0 + n <= old(used0)
      ensures r == 1 ==> |table0| == old(|table0|) && |table1| == old(|table1|)
      ensures old(IsRehashing()) && r == 0 ==> |table0| == old(|table1|) && TableMap(table0, 0) == old(Contents())
      ensures old(|table0|) > 0 ==> |table0| > 0
    {
      if rehashidx == -1 {
        return 0;
      }
      var k := n;
      while k > 0
        invariant Valid() && IsRehashing()
        invariant |table0| == old(|table0|) && |table1| == old(|table1|)
        invariant Contents() == old(Contents()) && used0 + used1 == old(used0 + used1)
        invariant k <= n && used0 + (n - k) <= old(used0)
        invariant iterators == old(iterators)
        decreases k
      {
        k := k - 1;
        if used0 == 0 {
          FinishRehash();
          return 0;
        }
        RehashBucket();
      }
      return 1;
    }

    /**
     * `dictRehashMilliseconds`: batches of 100 migrations until the migration
     * ends or the clock shows more than `ms` elapsed. `now(i)` is the clock's
     * i-th reading; reading 0 is the start time. Returns 100 per batch that
     * left work to do.
     */
    method RehashMilliseconds(ms: int, now: nat -> int) returns (rehashes: nat)
      requires Valid()
      modifies this
      ensures Valid() && Contents() == old(Contents()) && iterators == old(iterators)
      ensures rehashes % 100 == 0
      ensures IsRehashing() ==> rehashes > 0 && now(rehashes / 100) - now(0) > ms
    {
      var start := now(0);
      rehashes := 0;
      var more := Rehash(100);
      while more == 1
        invariant Valid() && Contents() == old(Contents()) && iterators == old(iterators)
        invariant (more == 0 || more == 1) && (more == 0 <==> !IsRehashing())
        invariant rehashes % 100 == 0
        decreases if more == 1 then used0 + 1 else 0
      {
        rehashes := rehashes + 100;
        if now(rehashes / 100) - start > ms {
          break;
        }
        more := Rehash(100);
      }
    }

    /** `_dictRehashStep`: one migration, unless a safe iterator is live. */
    method RehashStep()
      requires Valid()
      modifies this
      ensures Valid() && Contents() == old(Contents()) && used0 + used1 == old(used0 + used1)
      ensures iterators == old(iterators)
      ensures old(iterators) != 0 ==> unchanged(this)
      ensures old(|table0|) > 0 ==> |table0| > 0
    {
      if iterators == 0 {
        var _ := Rehash(1);
      }
    }

    /**
     * `_dictKeyIndex`: after growing the table if needed, the slot where a new
     * `key` goes, in `ht[1]` while rehashing and in `ht[0]` otherwise, or -1
     * when `key` is already present in either table.
     */
    method KeyIndex(key: K, canResize: bool) returns (idx: int)
      requires Valid()
      modifies this
      ensures Valid() && Contents() == old(Contents()) && iterators == old(iterators)
      ensures idx == -1 <==> key in Contents()
      ensures idx != -1 && IsRehashing() ==> idx == Slot(hash(key), sizemask1) && idx < |table1|
      ensures idx != -1 && !IsRehashing() ==> idx == Slot(hash(key), sizemask0) && idx < |table0|
    {
      // _dictExpandIfNeeded never fails, so its DICT_ERR branch is not reachable here.
      var _ := ExpandIfNeeded(canResize);
      var h := hash(key);
      TableKey(table0, 0, hash, key);
      TableKey(table1, 0, hash, key);
      idx := Slot(h, sizemask0);
      var j := FindInChain(table0[idx], key);
      if j != -1 {
        return -1;
      }
      if rehashidx == -1 {
        return;
      }
      idx := Slot(h, sizemask1);
      j := FindInChain(table1[idx], key);
      if j != -1 {
        return -1;
      }
    }

    /**
     * `dictAddRaw` followed by `dictSetVal`: fails, changing nothing visible,
     * when `key` is present; otherwise puts a new entry at the head of its
     * chain in `ht[1]` while rehashing, else in `ht[0]`.
     */
    method AddRaw(key: K, val: V, canResize: bool) returns (r: Option<EntryRef>)
      requires Valid()
      modifies this
      ensures Valid() && iterators == old(iterators)
      ensures r.Some? <==> key !in old(Contents())
      ensures r.None? ==> Contents() == old(Contents())
      ensures r.Some? ==> Contents() == old(Contents())[key := val]
      ensures r.Some? ==> Holds(r.value, key, val) && r.value.pos == 0
      ensures r.Some? ==> r.value.table == if IsRehashing() then 1 else 0
    {
      if rehashidx != -1 {
        RehashStep();
      }
      var index := KeyIndex(key, canResize);
      if index == -1 {
        return None;
      }
      r := Link(index, Entry(key, val));
    }

    /**
     * The insertion step of `dictAddRaw`: the new entry `e` becomes the head
     * of chain `index` of `ht[1]` while rehashing and of `ht[0]` otherwise,
     * and that table counts one more entry.
     */
    method Link(index: nat, e: Entry<K, V>) returns (r: Option<EntryRef>)
      requires Valid() && e.key !in Contents()
      requires index == Slot(hash(e.key), if IsRehashing() then sizemask1 else sizemask0)
      requires |if IsRehashing() then table1 else table0| > 0
      modifies this
      ensures Valid() && iterators == old(iterators) && rehashidx == old(rehashidx)
      ensures Contents() == old(Contents())[e.key := e.val]
      ensures r.Some? && Holds(r.value, e.key, e.val) && r.value.pos == 0
      ensures r.value.table == if IsRehashing() then 1 else 0
    {
      var t: nat := if rehashidx != -1 then 1 else 0;
      var b: seq<Chain<K, V>> := Table(t);
      var c: Chain<K, V> := [e] + b[index];
      PrependOk(b, hash, e, index);
      CountUpdate(b, index, c, 0);
      if t == 0 {
        BindLeft(TableMap(table0, 0), TableMap(table1, 0), e.key, e.val);
        table0, used0 := b[index := c], used0 + 1;
      } else {
        BindRight(TableMap(table0, 0), TableMap(table1, 0), e.key, e.val);
        table1, used1 := b[index := c], used1 + 1;
      }
      r := Some(EntryRef(t, index, 0));
    }

    /**
     * `dictAdd`: DICT_OK (true) and `key` bound to `val` if `key` was absent;
     * DICT_ERR (false) and no visible change if it was present. While
     * rehashing the new key lands in `ht[1]`.
     */
    method Add(key: K, val: V, canResize: bool) returns (ok: bool)
      requires Valid()
      modifies this
      ensures Valid() && iterators == old(iterators)
      ensures ok <==> key !in old(Contents())
      ensures Contents() == if ok then old(Contents())[key := val] else old(Contents())
      ensures ok && IsRehashing() ==> key in TableMap(table1, 0)
    {
      var r := AddRaw(key, val, canResize);
      ok := r.Some?;
      if ok && r.value.table == 1 {
        TableEntry(table1, hash, r.value.slot, 0);
      }
    }

    /**
     * The walk shared by `dictFind` and `dictGenericDelete`: the chain of
     * `key`'s slot in `ht[0]` and then, while rehashing, in `ht[1]`; the
     * entry holding `key`, or none.
     */
    method Lookup(key: K) returns (r: Option<EntryRef>)
      requires Valid() && |table0| > 0
      ensures r.Some? <==> key in Contents()
      ensures r.Some? ==> Holds(r.value, key, Contents()[key])
    {
      var h := hash(key);
      TableKey(table0, 0, hash, key);
      TableKey(table1, 0, hash, key);
      var t: nat := 0;
      while t <= 1
        invariant t <= 2 && (t >= 1 ==> IsRehashing())
        invariant t >= 1 ==> key !in TableMap(table0, 0)
        invariant t == 2 ==> key !in TableMap(table1, 0)
      {
        var idx := Slot(h, if t == 0 then sizemask0 else sizemask1);
        var j := FindInChain(Table(t)[idx], key);
        if j != -1 {
          return Some(EntryRef(t, idx, j));
        }
        if rehashidx == -1 {
          return None;
        }
        t := t + 1;
      }
      return None;
    }

    /**
     * `dictFind`: NULL at once when `ht[0]` has no table; otherwise, after one
     * migration step, the entry of `key` from `ht[0]` or, while rehashing,
     * `ht[1]`, or NULL when `key` is absent.
     */
    method Find(key: K) returns (r: Option<EntryRef>)
      requires Valid()
      modifies this
      ensures Valid() && Contents() == old(Contents()) && iterators == old(iterators)
      ensures r.Some? <==> key in Contents()
      ensures r.Some? ==> Holds(r.value, key, Contents()[key])
      ensures old(|table0|) == 0 ==> unchanged(this)
    {
      if |table0| == 0 {
        return None;
      }
      if rehashidx != -1 {
        RehashStep();
      }
      r := Lookup(key);
    }

    /** `dictFetchValue`: the value bound to `key`, or NULL when it is absent. */
    method FetchValue(key: K) returns (v: Option<V>)
      requires Valid()
      modifies this
      ensures Valid() && Contents() == old(Contents()) && iterators == old(iterators)
      ensures v == if key in old(Contents()) then Some(old(Contents())[key]) else None
    {
      var r := Find(key);
      if r.None? {
        return None;
      }
      var ref := r.value;
      var e := if ref.table == 0 then table0[ref.slot][ref.pos] else table1[ref.slot][ref.pos];
      v := Some(e.val);
    }

    /** `dictSetVal` on an entry found by `dictFind`: rebinds its key to `val`. */
    method SetVal(ref: EntryRef, key: K, val: V)
      requires Valid() && key in Contents() && Holds(ref, key, Contents()[key])
      modifies this
      ensures Valid() && Contents() == old(Contents())[key := val] && iterators == old(iterators)
    {
      var b: seq<Chain<K, V>> := Table(ref.table);
      var c: Chain<K, V> := b[ref.slot][ref.pos := Entry(key, val)];
      TableEntry(b, hash, ref.slot, ref.pos);
      CountUpdate(b, ref.slot, c, 0);
      SetValOk(b, hash, ref.slot, ref.pos, val);
      if ref.table == 0 {
        BindLeft(TableMap(table0, 0), TableMap(table1, 0), key, val);
        table0 := b[ref.slot := c];
      } else {
        BindRight(TableMap(table0, 0), TableMap(table1, 0), key, val);
        table1 := b[ref.slot := c];
      }
    }

    /**
     * `dictReplace`: 1 (true) when `key` was new, 0 (false) when an existing
     * entry got the new value; either way `key` ends up bound to `val`.
     */
    method Replace(key: K, val: V, canResize: bool) returns (added: bool)
      requires Valid()
      modifies this
      ensures Valid() && iterators == old(iterators)
      ensures added <==> key !in old(Contents())
      ensures Contents() == old(Contents())[key := val]
    {
      added := Add(key, val, canResize);
      if added {
        return;
      }
      var r := Find(key);
      SetVal(r.value, key, val);
    }

    /**
     * `dictReplaceRaw`: the entry of `key`, found if present and otherwise
     * added (bound to `val`, standing in for the value the caller sets).
     */
    method ReplaceRaw(key: K, val: V, canResize: bool) returns (r: Option<EntryRef>)
      requires Valid()
      modifies this
      ensures Valid() && iterators == old(iterators)
      ensures r.Some? && key in Contents()
      ensures Contents() == if key in old(Contents()) then old(Contents()) else old(Contents())[key := val]
      ensures Holds(r.value, key, Contents()[key])
    {
      r := Find(key);
      if r.Some? {
        return;
      }
      r := AddRaw(key, val, canResize);
    }

    /** The slots of `ht[t]`. */
    function Table(t: nat): seq<Chain<K, V>>
      reads this
    {
      if t == 0 then table0 else table1
    }

    /**
     * The unlinking step of `dictGenericDelete`: the entry at position `j` of
     * slot `idx` of `ht[t]` leaves its chain, and that table counts one entry
     * fewer.
     */
    method Unlink(t: nat, idx: nat, j: nat)
      requires Valid() && t <= 1 && idx < |Table(t)| && j < |Table(t)[idx]|
      modifies this
      ensures Valid() && iterators == old(iterators)
      ensures Contents() == old(Contents()) - {old(Table(t)[idx][j].key)}
      ensures |table0| == old(|table0|)
    {
      var b: seq<Chain<K, V>> := Table(t);
      var c: Chain<K, V> := b[idx][..j] + b[idx][j + 1..];
      RemoveOk(b, hash, idx, j);
      CountUpdate(b, idx, c, 0);
      TableEntry(b, hash, idx, j);
      if t == 0 {
        UnbindLeft(TableMap(table0, 0), TableMap(table1, 0), b[idx][j].key);
        table0, used0 := b[idx := c], used0 - 1;
      } else {
        UnbindRight(TableMap(table0, 0), TableMap(table1, 0), b[idx][j].key);
        table1, used1 := b[idx := c], used1 - 1;
      }
    }

    /**
     * `dictGenericDelete`: DICT_ERR (false) when there is no table or `key` is
     * absent, with nothing else changed; otherwise unlinks the entry of `key`
     * from its chain and counts it out of the table that held it.
     */
    method Delete(key: K) returns (ok: bool)
      requires Valid()
      modifies this
      ensures Valid() && iterators == old(iterators)
      ensures ok <==> key in old(Contents())
      ensures Contents() == old(Contents()) - {key}
      ensures old(|table0|) == 0 ==> unchanged(this)
    {
      if |table0| == 0 {
        return false;
      }
      if rehashidx != -1 {
        RehashStep();
      }
      var r := Lookup(key);
      if r.None? {
        return false;
      }
      Unlink(r.value.table, r.value.slot, r.value.pos);
      return true;
    }

    /**
     * `dictGetRandomKey`: NULL for an empty dictionary; otherwise, after one
     * migration step, an entry of a non-empty slot picked across both tables
     * and then a position in its chain. The choices of `random()` are
     * arbitrary here.
     */
    method GetRandomKey() returns (r: Option<Entry<K, V>>)
      requires Valid()
      modifies this
      ensures Valid() && Contents() == old(Contents()) && iterators == old(iterators)
      ensures r.None? <==> old(Contents()) == map[]
      ensures r.Some? ==> r.value.key in Contents() && Contents()[r.value.key] == r.value.val
    {
      if used0 + used1 == 0 {
        NoEntriesNoKeys(table0, 0);
        NoEntriesNoKeys(table1, 0);
        return None;
      }
      if rehashidx != -1 {
        RehashStep();
      }
      var h: nat;
      var chain: Chain<K, V>;
      if rehashidx != -1 {
        var both := table0 + table1;
        ghost var w: nat;
        if used0 > 0 {
          w := NonEmptySlot(table0, 0);
          assert both[w] == table0[w];
        } else {
          var x := NonEmptySlot(table1, 0);
          w := |table0| + x;
          assert both[w] == table1[x];
        }
        h :| h < |both| && both[h] != [];
        chain := both[h];
      } else {
        ghost var w := NonEmptySlot(table0, 0);
        h :| h < |table0| && table0[h] != [];
        chain := table0[h];
      }
      var listele :| 0 <= listele < |chain|;
      if h < |table0| {
        assert chain == table0[h];
        TableEntry(table0, hash, h, listele);
      } else {
        assert chain == table1[h - |table0|];
        TableEntry(table1, hash, h - |table0|, listele);
      }
      r := Some(chain[listele]);
    }

    /**
     * `dictEmpty`: both tables released and reset, no migration and no
     * iterators.
     */
    method Empty()
      modifies this
      ensures Valid() && Contents() == map[]
      ensures table0 == [] && table1 == [] && rehashidx == -1 && iterators == 0
    {
      table0, table1 := [], [];
      sizemask0, used0, sizemask1, used1 := 0, 0, 0, 0;
      rehashidx := -1;
      iterators := 0;
    }

    /**
     * What an iterator started now would yield: each key of the dictionary
     * exactly once, with its value.
     */
    lemma EntriesAreContents()
      requires Valid()
      ensures Distinct(Entries())
      ensures ChainMap(Entries()) == Contents()
    {
      var f0 := Flatten(table0, 0);
      var f1 := if rehashidx != -1 then Flatten(table1, 0) else [];
      FlattenOk(table0, hash, 0);
      FlattenOk(table1, hash, 0);
      assert ChainMap(f1) == TableMap(table1, 0);
      ChainMapAppend(f0, f1);
      DistinctAppend(f0, f1);
      assert TableMap(table0, 0) + TableMap(table1, 0) == TableMap(table1, 0) + TableMap(table0, 0);
    }
  }

  /**
   * A `dictIterator`. `entry` is the chain whose head was returned last (empty
   * for NULL) and `nextEntry` the rest of that chain, saved before returning
   * so that the caller may delete the returned entry.
   */
  class DictIterator<K(==), V> {
    const d: Dict<K, V>
    const safe: bool
    var table: int
    var index: int
    var entry: Chain<K, V>
    var nextEntry: Chain<K, V>

    ghost predicate Valid()
      reads `table, `index, `entry
    {
      (table == 0 || table == 1) && index >= -1 && (index == -1 ==> table == 0 && entry == [])
    }

    /** The table the iterator is walking. */
    function Table(): seq<Chain<K, V>>
      reads `table, d`table0, d`table1
    {
      if table == 0 then d.table0 else d.table1
    }

    /** The entries of the slots after the current one, and then of `ht[1]` if it is still to be walked. */
    ghost function Later(): seq<Entry<K, V>>
      reads `table, `index, `entry, d`table0, d`table1, d`rehashidx
      requires Valid()
    {
      Flatten(Table(), index + 1) + (if table == 0 && d.rehashidx != -1 then Flatten(d.table1, 0) else [])
    }

    /** The entries still to be returned, if the dictionary is left alone. */
    ghost function Pending(): seq<Entry<K, V>>
      reads `table, `index, `entry, `nextEntry, d`table0, d`table1, d`rehashidx
      requires Valid()
    {
      (if entry == [] then [] else nextEntry) + Later()
    }

    /**
     * `dictGetIterator` (`safe` false) and `dictGetSafeIterator` (`safe`
     * true): positioned before the first slot of `ht[0]`.
     */
    constructor (d: Dict<K, V>, safe: bool)
      ensures Valid() && this.d == d && this.safe == safe
      ensures table == 0 && index == -1 && entry == []
      ensures Pending() == d.Entries()
    {
      this.d := d;
      this.safe := safe;
      table, index := 0, -1;
      entry, nextEntry := [], [];
    }

    /**
     * `dictNext`: the next entry, walking `ht[0]` slot by slot and then, if
     * rehashing, `ht[1]`; NULL when both are exhausted. A safe iterator
     * counts itself in `d.iterators` on its first call.
     */
    method Next() returns (r: Option<Entry<K, V>>)
      requires Valid()
      requires d.IsRehashing() ==> |d.table1| > 0
      modifies this, d`iterators
      ensures Valid() && index != -1
      ensures d.iterators == old(d.iterators) + (if safe && old(index) == -1 then 1 else 0)
      ensures r.None? ==> old(Pending()) == [] && Pending() == []
      ensures r.Some? ==> old(Pending()) == [r.value] + Pending()
    {
      while true
        invariant Valid() && d.table0 == old(d.table0) && d.table1 == old(d.table1)
        invariant d.rehashidx == old(d.rehashidx)
        invariant Pending() == old(Pending())
        invariant d.iterators == old(d.iterators) + (if safe && old(index) == -1 && index != -1 then 1 else 0)
        invariant old(index) != -1 ==> index != -1
        decreases if table == 0 then 1 else 0, |Table()| - index, if entry == [] then 0 else 1
      {
        if entry == [] {
          var done := NextSlot();
          if done {
            return None;
          }
        } else {
          entry := nextEntry;
        }
        assert old(Pending()) == entry + Later();
        if entry != [] {
          ConsAppend(entry, Later());
          nextEntry := entry[1..];
          return Some(entry[0]);
        }
      }
    }

    /**
     * The `entry == NULL` branch of `dictNext`: counts a safe iterator in on
     * its first move, steps to the next slot, passing from `ht[0]` to `ht[1]`
     * while rehashing, and loads that slot's chain; `done` when both tables
     * are exhausted.
     */
    method NextSlot() returns (done: bool)
      requires Valid() && entry == []
      requires d.IsRehashing() ==> |d.table1| > 0
      modifies this, d`iterators
      ensures Valid() && index != -1
      ensures d.iterators == old(d.iterators) + (if safe && old(index) == -1 then 1 else 0)
      ensures done ==> old(Later()) == [] && Pending() == []
      ensures !done ==> old(Later()) == entry + Later()
      ensures !done ==> (table, index) != old((table, index)) && (table == 1 || old(table) == 0)
      ensures !done ==> table == old(table) ==> index > old(index)
      ensures !done ==> index < |Table()|
    {
      if safe && index == -1 && table == 0 {
        d.iterators := d.iterators + 1;
      }
      index := index + 1;
      if index >= |Table()| {
        if d.rehashidx != -1 && table == 0 {
          assert Flatten(d.table0, index) == [];
          table, index := 1, 0;
        } else {
          return true;
        }
      }
      entry := Table()[index];
      ghost var rest := if table == 0 && d.rehashidx != -1 then Flatten(d.table1, 0) else [];
      assert Flatten(Table(), index) == entry + Flatten(Table(), index + 1);
      assert (entry + Flatten(Table(), index + 1)) + rest == entry + (Flatten(Table(), index + 1) + rest);
      done := false;
    }

    /** `dictReleaseIterator`: a safe iterator that has started stops counting itself. */
    method Release()
      modifies d`iterators
      ensures d.iterators == old(d.iterators) - (if safe && !(index == -1 && table == 0) then 1 else 0)
    {
      if safe && !(index == -1 && table == 0) {
        d.iterators := d.iterators - 1;
      }
    }
  }
}

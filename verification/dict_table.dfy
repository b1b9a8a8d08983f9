/**
 * The value-level layer of the incremental-rehashing hash table: entries,
 * chains, the sizing rule of `_dictNextPower`, and the invariant that ties one
 * bucket array to the key/value mapping it stores. The `Dict` class in
 * dict.dfy keeps two such arrays and proves its operations with the lemmas
 * here.
 */
module DictTable {

  /** DICT_HT_INITIAL_SIZE: the size of a table created on first insert. */
  const InitialSize: nat := 4
  /** LONG_MAX on an LP64 platform: `_dictNextPower` returns it for huge requests. */
  const LongMax: nat := 0x7fff_ffff_ffff_ffff
  /** dict_force_resize_ratio: grow even when resizing is disabled past this load. */
  const ForceResizeRatio: nat := 5

  /** One hash entry; the chain link is the position in the chain sequence. */
  datatype Entry<K, V> = Entry(key: K, val: V)

  /** A bucket: the entries chained from one slot, head first. */
  type Chain<K, V> = seq<Entry<K, V>>

  /** `n` is a power of two. */
  ghost predicate IsPow2(n: nat)
    decreases n
  {
    n == 1 || (n >= 2 && n % 2 == 0 && IsPow2(n / 2))
  }

  /**
   * The sizes a table may have: none, a power of two, or the `LONG_MAX` cap
   * that `_dictNextPower` returns for requests at or above it.
   */
  ghost predicate SizeAllowed(size: nat)
  {
    size == 0 || IsPow2(size) || size == LongMax
  }

  /** The mask that goes with a table of `size` slots: `size - 1`, or 0 for no table. */
  ghost predicate SizeOk(size: nat, sizemask: nat)
  {
    sizemask == if size == 0 then 0 else size - 1
  }

  /**
   * The slot of hash `h` in a table whose mask is `sizemask`. The source
   * computes `h & sizemask`; for the power-of-two sizes the table uses this is
   * the remainder of `h` by `sizemask + 1` (`MaskIsRemainder`), which is what
   * is modelled.
   */
  function Slot(h: nat, sizemask: nat): (i: nat)
    ensures i <= sizemask
  {
    h % (sizemask + 1)
  }

  /** The loop of `_dictNextPower`: double `i` until it reaches `size`. */
  function NextPowerFrom(i: nat, size: nat): (r: nat)
    requires i >= 1
    ensures r >= i && r >= size
    decreases size - i
  {
    if i >= size then i else NextPowerFrom(i * 2, size)
  }

  /**
   * `_dictNextPower`: the table size actually allocated for a request of
   * `size`; never below DICT_HT_INITIAL_SIZE, and LONG_MAX for requests of
   * LONG_MAX or more.
   */
  function NextPower(size: nat): (r: nat)
    ensures r >= InitialSize
    ensures size >= LongMax ==> r == LongMax
  {
    if size >= LongMax then LongMax else NextPowerFrom(InitialSize, size)
  }

  lemma {:induction false} NextPowerFromIsLeast(i: nat, size: nat)
    requires i >= 1 && IsPow2(i)
    ensures IsPow2(NextPowerFrom(i, size))
    ensures NextPowerFrom(i, size) >= size && NextPowerFrom(i, size) >= i
    ensures NextPowerFrom(i, size) == i || NextPowerFrom(i, size) / 2 < size
    decreases size - i
  {
    if i < size {
      assert IsPow2(i * 2) by { assert (i * 2) / 2 == i; }
      NextPowerFromIsLeast(i * 2, size);
    }
  }

  /**
   * Below the cap, `_dictNextPower(size)` is the least power of two that is at
   * least `size` and at least DICT_HT_INITIAL_SIZE.
   */
  lemma NextPowerIsLeast(size: nat)
    requires size < LongMax
    ensures IsPow2(NextPower(size))
    ensures NextPower(size) >= size && NextPower(size) >= InitialSize
    ensures NextPower(size) == InitialSize || NextPower(size) / 2 < size
  {
    assert IsPow2(InitialSize) by { assert IsPow2(2) by { assert IsPow2(1); } }
    NextPowerFromIsLeast(InitialSize, size);
  }

  /** Every size `_dictNextPower` hands out is one a table may have. */
  lemma NextPowerAllowed(size: nat)
    ensures SizeAllowed(NextPower(size)) && NextPower(size) > 0
  {
    if size < LongMax {
      NextPowerIsLeast(size);
    }
  }

  /** `h & m` on naturals, bit by bit from the lowest. */
  function AndMask(h: nat, m: nat): (r: nat)
    ensures r <= h && r <= m
    decreases h
  {
    if h == 0 || m == 0 then 0
    else 2 * AndMask(h / 2, m / 2) + (if h % 2 == 1 && m % 2 == 1 then 1 else 0)
  }

  /** Splitting off the lowest bit: `h % n` for even `n` from `(h / 2) % (n / 2)`. */
  lemma HalveRemainder(h: nat, n: nat)
    requires n >= 2 && n % 2 == 0
    ensures h % n == 2 * ((h / 2) % (n / 2)) + h % 2
  {
    var q, r0 := h / 2, h % 2;
    var k, s := q / (n / 2), q % (n / 2);
    assert h == n * k + (2 * s + r0) by {
      assert h == 2 * q + r0;
      assert q == (n / 2) * k + s;
      assert 2 * ((n / 2) * k) == n * k;
    }
    assert 0 <= 2 * s + r0 < n;
    ModUnique(h, n, k, 2 * s + r0);
  }

  /** The remainder is fixed by any decomposition `h == n * k + r` with `0 <= r < n`. */
  lemma ModUnique(h: nat, n: nat, k: nat, r: nat)
    requires n > 0 && h == n * k + r && r < n
    ensures h % n == r
  {
    var k', r' := h / n, h % n;
    assert h == n * k' + r';
    if k' < k {
      MulStep(n, k', k);
    } else if k' > k {
      MulStep(n, k, k');
    }
  }

  /** A larger multiplier adds at least one more `n`. */
  lemma MulStep(n: nat, a: nat, b: nat)
    requires a < b
    ensures n * a + n <= n * b
  {
    var d := b - a - 1;
    assert n * b == n * a + n + n * d;
  }

  /**
   * Why a remainder models the source's `h & sizemask`: for a table whose size
   * is a power of two, masking with `size - 1` keeps exactly `h % size`.
   */
  lemma {:induction false} MaskIsRemainder(h: nat, size: nat)
    requires IsPow2(size)
    ensures AndMask(h, size - 1) == Slot(h, size - 1)
    decreases size
  {
    if size >= 2 && h != 0 {
      var half := size / 2;
      assert size == 2 * half && IsPow2(half);
      assert (size - 1) / 2 == half - 1 && (size - 1) % 2 == 1;
      assert AndMask(h, size - 1) == 2 * AndMask(h / 2, half - 1) + h % 2;
      MaskIsRemainder(h / 2, half);
      HalveRemainder(h, size);
    }
  }

  /**
   * The mapping a walk down chain `c` sees: `dictFind` stops at the first
   * entry whose key matches, so an earlier entry hides a later one.
   */
  ghost function ChainMap<K, V>(c: Chain<K, V>): map<K, V>
    decreases |c|
  {
    if c == [] then map[] else ChainMap(c[1..])[c[0].key := c[0].val]
  }

  /** No key occurs twice in the run of entries `c`. */
  ghost predicate Distinct<K, V>(c: seq<Entry<K, V>>)
    decreases |c|
  {
    c != [] ==> c[0].key !in ChainMap(c[1..]) && Distinct(c[1..])
  }

  /**
   * Chain `c` may hang from slot `s` of a table of `n` slots: every key in it
   * hashes to `s`, and no key occurs twice.
   */
  ghost predicate ChainOk<K, V>(c: Chain<K, V>, s: nat, n: nat, hash: K -> nat)
    decreases |c|
  {
    c != [] ==>
      && n > 0 && Slot(hash(c[0].key), n - 1) == s
      && c[0].key !in ChainMap(c[1..]) && ChainOk(c[1..], s, n, hash)
  }

  /** Every slot of `b` from `i` on holds a chain that may hang from it. */
  ghost predicate SlotsOk<K, V>(b: seq<Chain<K, V>>, i: nat, hash: K -> nat)
    decreases |b| - i
  {
    i < |b| ==> ChainOk(b[i], i, |b|, hash) && SlotsOk(b, i + 1, hash)
  }

  /** The mapping stored in slots `i`, `i+1`, ... of the bucket array `b`. */
  ghost function TableMap<K, V>(b: seq<Chain<K, V>>, i: nat): map<K, V>
    decreases |b| - i
  {
    if i >= |b| then map[] else ChainMap(b[i]) + TableMap(b, i + 1)
  }

  /** The number of entries in slots `i`, `i+1`, ...: what a table's `used` counts. */
  ghost function Count<K, V>(b: seq<Chain<K, V>>, i: nat): nat
    decreases |b| - i
  {
    if i >= |b| then 0 else |b[i]| + Count(b, i + 1)
  }

  /** A walk that meets `c[j]` before any other entry with its key returns its value. */
  lemma {:induction false} ChainMapFirst<K, V>(c: Chain<K, V>, j: nat)
    requires j < |c| && forall p :: 0 <= p < j ==> c[p].key != c[j].key
    ensures c[j].key in ChainMap(c) && ChainMap(c)[c[j].key] == c[j].val
  {
    if j > 0 {
      assert c[1..][j - 1] == c[j];
      assert forall p :: 0 <= p < j - 1 ==> c[1..][p] == c[p + 1];
      ChainMapFirst(c[1..], j - 1);
    }
  }

  /** A walk that meets no entry with key `k` does not find it. */
  lemma {:induction false} ChainMapMiss<K, V>(c: Chain<K, V>, k: K)
    requires forall p :: 0 <= p < |c| ==> c[p].key != k
    ensures k !in ChainMap(c)
  {
    if c != [] {
      assert forall p :: 0 <= p < |c[1..]| ==> c[1..][p] == c[p + 1];
      ChainMapMiss(c[1..], k);
    }
  }

  /** Each entry of an admissible chain hashes to its slot and is what the walk finds. */
  lemma {:induction false} ChainEntry<K, V>(c: Chain<K, V>, s: nat, n: nat, hash: K -> nat, j: nat)
    requires ChainOk(c, s, n, hash) && j < |c|
    ensures c[j].key in ChainMap(c) && ChainMap(c)[c[j].key] == c[j].val
    ensures n > 0 && Slot(hash(c[j].key), n - 1) == s
  {
    if j > 0 {
      assert c[1..][j - 1] == c[j];
      ChainEntry(c[1..], s, n, hash, j - 1);
    }
  }

  /** Every key an admissible chain maps hashes to the chain's slot. */
  lemma {:induction false} ChainSlot<K, V>(c: Chain<K, V>, s: nat, n: nat, hash: K -> nat, k: K)
    requires ChainOk(c, s, n, hash) && k in ChainMap(c)
    ensures n > 0 && Slot(hash(k), n - 1) == s
  {
    if c[0].key != k {
      ChainSlot(c[1..], s, n, hash, k);
    }
  }

  /** An admissible chain repeats no key. */
  lemma {:induction false} ChainOkDistinct<K, V>(c: Chain<K, V>, s: nat, n: nat, hash: K -> nat)
    requires ChainOk(c, s, n, hash)
    ensures Distinct(c)
  {
    if c != [] {
      ChainOkDistinct(c[1..], s, n, hash);
    }
  }

  /** Unlinking position `j` of an admissible chain drops exactly its key. */
  lemma {:induction false} ChainRemove<K, V>(c: Chain<K, V>, s: nat, n: nat, hash: K -> nat, j: nat)
    requires ChainOk(c, s, n, hash) && j < |c|
    ensures ChainOk(c[..j] + c[j + 1..], s, n, hash)
    ensures ChainMap(c[..j] + c[j + 1..]) == ChainMap(c) - {c[j].key}
  {
    var r := c[..j] + c[j + 1..];
    if j == 0 {
      assert r == c[1..];
    } else {
      var t := c[1..];
      ChainRemove(t, s, n, hash, j - 1);
      var r' := t[..j - 1] + t[j..];
      assert r == [c[0]] + r';
      assert r[1..] == r';
      assert t[j - 1] == c[j];
      ChainEntry(t, s, n, hash, j - 1);
      assert c[0].key != c[j].key;
      assert (ChainMap(t) - {c[j].key})[c[0].key := c[0].val] == ChainMap(t)[c[0].key := c[0].val] - {c[j].key};
    }
  }

  /** Overwriting the value at position `j` of an admissible chain rebinds its key. */
  lemma {:induction false} ChainSetVal<K, V>(c: Chain<K, V>, s: nat, n: nat, hash: K -> nat, j: nat, v: V)
    requires ChainOk(c, s, n, hash) && j < |c|
    ensures ChainOk(c[j := Entry(c[j].key, v)], s, n, hash)
    ensures ChainMap(c[j := Entry(c[j].key, v)]) == ChainMap(c)[c[j].key := v]
  {
    var r := c[j := Entry(c[j].key, v)];
    if j == 0 {
      assert r[1..] == c[1..];
    } else {
      var t := c[1..];
      ChainSetVal(t, s, n, hash, j - 1, v);
      assert t[j - 1] == c[j];
      assert r[1..] == t[j - 1 := Entry(c[j].key, v)];
      ChainEntry(t, s, n, hash, j - 1);
      assert c[0].key != c[j].key;
      assert ChainMap(t)[c[j].key := v][c[0].key := c[0].val] == ChainMap(t)[c[0].key := c[0].val][c[j].key := v];
    }
  }

  /** Slot `x` of a well-formed table holds a chain that may hang from it. */
  lemma {:induction false} SlotsOkAt<K, V>(b: seq<Chain<K, V>>, i: nat, hash: K -> nat, x: nat)
    requires SlotsOk(b, i, hash) && i <= x < |b|
    ensures ChainOk(b[x], x, |b|, hash)
    decreases x - i
  {
    if i < x {
      SlotsOkAt(b, i + 1, hash, x);
    }
  }

  /** Putting an admissible chain in slot `x` keeps the table well-formed. */
  lemma {:induction false} SlotsOkUpdate<K, V>(b: seq<Chain<K, V>>, i: nat, hash: K -> nat, x: nat, c: Chain<K, V>)
    requires SlotsOk(b, i, hash) && x < |b| && ChainOk(c, x, |b|, hash)
    ensures SlotsOk(b[x := c], i, hash)
    decreases |b| - i
  {
    if i < |b| {
      SlotsOkUpdate(b, i + 1, hash, x, c);
    }
  }

  /** A freshly allocated table, every slot NULL, is well-formed and stores nothing. */
  lemma {:induction false} EmptySlots<K, V>(b: seq<Chain<K, V>>, i: nat, hash: K -> nat)
    requires forall x :: 0 <= x < |b| ==> b[x] == []
    ensures SlotsOk(b, i, hash) && TableMap(b, i) == map[] && Count(b, i) == 0
    decreases |b| - i
  {
    if i < |b| {
      EmptySlots(b, i + 1, hash);
    }
  }

  /**
   * The slots from `i` on store key `k` exactly when `k`'s own slot is one of
   * them and the chain there maps `k`; the value is the one that chain gives.
   */
  lemma {:induction false} TableKey<K, V>(b: seq<Chain<K, V>>, i: nat, hash: K -> nat, k: K)
    requires SlotsOk(b, i, hash)
    ensures k in TableMap(b, i) <==>
              |b| > 0 && i <= Slot(hash(k), |b| - 1) && k in ChainMap(b[Slot(hash(k), |b| - 1)])
    ensures k in TableMap(b, i) ==> TableMap(b, i)[k] == ChainMap(b[Slot(hash(k), |b| - 1)])[k]
    decreases |b| - i
  {
    if i < |b| {
      TableKey(b, i + 1, hash, k);
      if k in ChainMap(b[i]) {
        ChainSlot(b[i], i, |b|, hash, k);
      }
    }
  }

  /** Putting chain `c` in slot `x` changes the entry count by the difference in length. */
  lemma {:induction false} CountUpdate<K, V>(b: seq<Chain<K, V>>, x: nat, c: Chain<K, V>, i: nat)
    requires x < |b|
    ensures Count(b[x := c], i) == if i <= x then Count(b, i) - |b[x]| + |c| else Count(b, i)
    decreases |b| - i
  {
    if i < |b| {
      CountUpdate(b, x, c, i + 1);
    }
  }

  /** Some slot from `i` on is non-empty when there are entries there. */
  lemma {:induction false} NonEmptySlot<K, V>(b: seq<Chain<K, V>>, i: nat) returns (x: nat)
    requires Count(b, i) > 0
    ensures i <= x < |b| && b[x] != []
    decreases |b| - i
  {
    if b[i] != [] {
      x := i;
    } else {
      x := NonEmptySlot(b, i + 1);
    }
  }

  /** Slots without entries store nothing. */
  lemma {:induction false} NoEntriesNoKeys<K, V>(b: seq<Chain<K, V>>, i: nat)
    requires Count(b, i) == 0
    ensures TableMap(b, i) == map[]
    decreases |b| - i
  {
    if i < |b| {
      NoEntriesNoKeys(b, i + 1);
      assert b[i] == [];
    }
  }

  /** A chain without repeated keys maps as many keys as it has entries. */
  lemma {:induction false} ChainMapSize<K, V>(c: seq<Entry<K, V>>)
    requires Distinct(c)
    ensures |ChainMap(c)| == |c|
  {
    if c != [] {
      ChainMapSize(c[1..]);
    }
  }

  /** In a well-formed table `used`, the number of entries, is the number of keys stored. */
  lemma {:induction false} CountIsSize<K, V>(b: seq<Chain<K, V>>, hash: K -> nat, i: nat)
    requires SlotsOk(b, i, hash)
    ensures |TableMap(b, i)| == Count(b, i)
    decreases |b| - i
  {
    if i < |b| {
      var m0, m1 := ChainMap(b[i]), TableMap(b, i + 1);
      CountIsSize(b, hash, i + 1);
      ChainOkDistinct(b[i], i, |b|, hash);
      ChainMapSize(b[i]);
      SlotDisjoint(b, hash, i);
      DisjointMergeSize(m0, m1);
      assert TableMap(b, i) == m0 + m1;
    }
  }

  /** The keys of slot `i` are stored in no later slot. */
  lemma SlotDisjoint<K, V>(b: seq<Chain<K, V>>, hash: K -> nat, i: nat)
    requires SlotsOk(b, i, hash) && i < |b|
    ensures forall k :: k in ChainMap(b[i]) ==> k !in TableMap(b, i + 1)
  {
    forall k | k in ChainMap(b[i])
      ensures k !in TableMap(b, i + 1)
    {
      ChainSlot(b[i], i, |b|, hash, k);
      TableKey(b, i + 1, hash, k);
    }
  }

  /** Every entry of a well-formed table is stored, with its value. */
  lemma TableEntry<K, V>(b: seq<Chain<K, V>>, hash: K -> nat, x: nat, j: nat)
    requires SlotsOk(b, 0, hash) && x < |b| && j < |b[x]|
    ensures b[x][j].key in TableMap(b, 0) && TableMap(b, 0)[b[x][j].key] == b[x][j].val
  {
    SlotsOkAt(b, 0, hash, x);
    ChainEntry(b[x], x, |b|, hash, j);
    TableKey(b, 0, hash, b[x][j].key);
  }

  /** A well-formed table that stores some key has a non-empty slot. */
  lemma KeyInSlot<K, V>(b: seq<Chain<K, V>>, hash: K -> nat, k: K)
    requires SlotsOk(b, 0, hash) && k in TableMap(b, 0)
    ensures |b| > 0 && b[Slot(hash(k), |b| - 1)] != []
  {
    TableKey(b, 0, hash, k);
  }

  /** Changing a slot before `i` does not change what the slots from `i` on store. */
  lemma {:induction false} TableMapAfter<K, V>(b: seq<Chain<K, V>>, x: nat, c: Chain<K, V>, i: nat)
    requires x < i && x < |b|
    ensures TableMap(b[x := c], i) == TableMap(b, i)
    decreases |b| - i
  {
    if i < |b| {
      TableMapAfter(b, x, c, i + 1);
    }
  }

  /** What slots `i`.. store is what they store with slot `x` emptied, plus slot `x`'s chain. */
  lemma {:induction false} SplitSlot<K, V>(b: seq<Chain<K, V>>, hash: K -> nat, x: nat, i: nat)
    requires SlotsOk(b, i, hash) && i <= x < |b|
    ensures TableMap(b, i) == TableMap(b[x := []], i) + ChainMap(b[x])
    decreases x - i
  {
    var e: seq<Chain<K, V>> := b[x := []];
    if i == x {
      TableMapAfter(b, x, [], x + 1);
      SlotDisjoint(b, hash, x);
      assert ChainMap(b[x]) + TableMap(b, x + 1) == TableMap(b, x + 1) + ChainMap(b[x]);
    } else {
      SplitSlot(b, hash, x, i + 1);
      assert e[i] == b[i];
      assert ChainMap(b[i]) + (TableMap(e, i + 1) + ChainMap(b[x])) == (ChainMap(b[i]) + TableMap(e, i + 1)) + ChainMap(b[x]);
    }
  }

  /**
   * Putting another admissible chain `c` in slot `x` keeps the table
   * well-formed, and the other slots, which store no key of slot `x`, keep
   * what they store.
   */
  lemma ReplaceSlot<K, V>(b: seq<Chain<K, V>>, hash: K -> nat, x: nat, c: Chain<K, V>)
    requires SlotsOk(b, 0, hash) && x < |b| && ChainOk(c, x, |b|, hash)
    ensures SlotsOk(b[x := c], 0, hash)
    ensures TableMap(b, 0) == TableMap(b[x := []], 0) + ChainMap(b[x])
    ensures TableMap(b[x := c], 0) == TableMap(b[x := []], 0) + ChainMap(c)
    ensures forall k :: k in TableMap(b[x := []], 0) ==> Slot(hash(k), |b| - 1) != x
  {
    SlotsOkUpdate(b, 0, hash, x, c);
    SlotsOkUpdate(b, 0, hash, x, []);
    SplitSlot(b, hash, x, 0);
    SplitSlot(b[x := c], hash, x, 0);
    assert b[x := c][x := []] == b[x := []];
    forall k | k in TableMap(b[x := []], 0)
      ensures Slot(hash(k), |b| - 1) != x
    {
      TableKey(b[x := []], 0, hash, k);
    }
  }

  /** `dictAddRaw`'s insertion: a new key at the head of its slot's chain is added to the mapping. */
  lemma PrependOk<K, V>(b: seq<Chain<K, V>>, hash: K -> nat, e: Entry<K, V>, x: nat)
    requires SlotsOk(b, 0, hash) && |b| > 0 && x == Slot(hash(e.key), |b| - 1)
    requires e.key !in TableMap(b, 0)
    ensures SlotsOk(b[x := [e] + b[x]], 0, hash)
    ensures TableMap(b[x := [e] + b[x]], 0) == TableMap(b, 0)[e.key := e.val]
  {
    SlotsOkAt(b, 0, hash, x);
    TableKey(b, 0, hash, e.key);
    var c := [e] + b[x];
    assert c[1..] == b[x];
    ReplaceSlot(b, hash, x, c);
    MergeUpdateRight(TableMap(b[x := []], 0), ChainMap(b[x]), e.key, e.val);
  }

  /** `dictGenericDelete`'s unlink: dropping entry `j` of slot `x` removes exactly its key. */
  lemma RemoveOk<K, V>(b: seq<Chain<K, V>>, hash: K -> nat, x: nat, j: nat)
    requires SlotsOk(b, 0, hash) && x < |b| && j < |b[x]|
    ensures SlotsOk(b[x := b[x][..j] + b[x][j + 1..]], 0, hash)
    ensures TableMap(b[x := b[x][..j] + b[x][j + 1..]], 0) == TableMap(b, 0) - {b[x][j].key}
  {
    SlotsOkAt(b, 0, hash, x);
    ChainRemove(b[x], x, |b|, hash, j);
    ChainEntry(b[x], x, |b|, hash, j);
    ReplaceSlot(b, hash, x, b[x][..j] + b[x][j + 1..]);
    MergeRemoveRight(TableMap(b[x := []], 0), ChainMap(b[x]), b[x][j].key);
  }

  /** `dictSetVal` on a stored entry: its key is rebound to the new value. */
  lemma SetValOk<K, V>(b: seq<Chain<K, V>>, hash: K -> nat, x: nat, j: nat, v: V)
    requires SlotsOk(b, 0, hash) && x < |b| && j < |b[x]|
    ensures SlotsOk(b[x := b[x][j := Entry(b[x][j].key, v)]], 0, hash)
    ensures TableMap(b[x := b[x][j := Entry(b[x][j].key, v)]], 0) == TableMap(b, 0)[b[x][j].key := v]
  {
    SlotsOkAt(b, 0, hash, x);
    ChainSetVal(b[x], x, |b|, hash, j, v);
    ReplaceSlot(b, hash, x, b[x][j := Entry(b[x][j].key, v)]);
    MergeUpdateRight(TableMap(b[x := []], 0), ChainMap(b[x]), b[x][j].key, v);
  }

  /** No key is bound in both mappings. */
  ghost predicate Disjoint<K, V>(m0: map<K, V>, m1: map<K, V>)
  {
    forall k :: k in m0 ==> k !in m1
  }

  /** Keys present in only one operand: the union has as many keys as both together. */
  lemma DisjointMergeSize<K, V>(m0: map<K, V>, m1: map<K, V>)
    requires forall k :: k in m0 ==> k !in m1
    ensures |m0 + m1| == |m0| + |m1|
  {
    assert (m0 + m1).Keys == m0.Keys + m1.Keys;
    assert m0.Keys * m1.Keys == {};
  }

  /** Changing one table's mapping changes the union as the same change would. */
  lemma MergeUpdate<K, V>(m0: map<K, V>, m1: map<K, V>, k: K, v: V)
    requires k !in m1
    ensures m0[k := v] + m1 == (m0 + m1)[k := v]
  {
  }

  lemma MergeUpdateRight<K, V>(m0: map<K, V>, m1: map<K, V>, k: K, v: V)
    ensures m0 + m1[k := v] == (m0 + m1)[k := v]
  {
  }

  lemma MergeRemove<K, V>(m0: map<K, V>, m1: map<K, V>, k: K)
    requires k !in m1
    ensures (m0 - {k}) + m1 == (m0 + m1) - {k}
  {
  }

  lemma MergeRemoveRight<K, V>(m0: map<K, V>, m1: map<K, V>, k: K)
    requires k !in m0
    ensures m0 + (m1 - {k}) == (m0 + m1) - {k}
  {
  }

  /**
   * Binding a key absent from the second of two disjoint mappings in the
   * first keeps them disjoint and binds it in their union.
   */
  lemma BindLeft<K, V>(m0: map<K, V>, m1: map<K, V>, k: K, v: V)
    requires Disjoint(m0, m1) && k !in m1
    ensures Disjoint(m0[k := v], m1)
    ensures m0[k := v] + m1 == (m0 + m1)[k := v]
  {
  }

  /** The same, binding in the second mapping a key absent from the first. */
  lemma BindRight<K, V>(m0: map<K, V>, m1: map<K, V>, k: K, v: V)
    requires Disjoint(m0, m1) && k !in m0
    ensures Disjoint(m0, m1[k := v])
    ensures m0 + m1[k := v] == (m0 + m1)[k := v]
  {
  }

  /**
   * A key moved from the mapping `r[k := v]` into a mapping `a` disjoint
   * from it: still disjoint, same union.
   */
  lemma ShiftKey<K, V>(a: map<K, V>, r: map<K, V>, k: K, v: V)
    requires Disjoint(r[k := v], a) && k !in r
    ensures Disjoint(r, a[k := v])
    ensures a[k := v] + r == a + r[k := v]
  {
  }

  /** Removing a key of the first of two disjoint mappings removes it from their union. */
  lemma UnbindLeft<K, V>(m0: map<K, V>, m1: map<K, V>, k: K)
    requires Disjoint(m0, m1) && k in m0
    ensures Disjoint(m0 - {k}, m1)
    ensures (m0 - {k}) + m1 == (m0 + m1) - {k}
  {
  }

  /** Removing a key of the second of two disjoint mappings removes it from their union. */
  lemma UnbindRight<K, V>(m0: map<K, V>, m1: map<K, V>, k: K)
    requires Disjoint(m0, m1) && k in m1
    ensures Disjoint(m0, m1 - {k})
    ensures m0 + (m1 - {k}) == (m0 + m1) - {k}
  {
  }

  /** When the first table holds nothing the union is the second table. */
  lemma NoKeysMerge<K, V>(m0: map<K, V>, m1: map<K, V>)
    requires |m0| == 0
    ensures m0 + m1 == m1
  {
    assert m0 == map[];
  }

  /** Moving a key from the first table to the second leaves the union alone. */
  lemma MergeMove<K, V>(m0: map<K, V>, m1: map<K, V>, k: K)
    requires k in m0 && k !in m1
    ensures (m0 - {k}) + m1[k := m0[k]] == m0 + m1
  {
  }

  /** A slot's chain has no repeated key and only keys its table stores. */
  lemma SlotKeys<K, V>(b: seq<Chain<K, V>>, hash: K -> nat, x: nat)
    requires SlotsOk(b, 0, hash) && x < |b|
    ensures Distinct(b[x])
    ensures ChainMap(b[x]).Keys <= TableMap(b, 0).Keys
  {
    SlotsOkAt(b, 0, hash, x);
    ChainOkDistinct(b[x], x, |b|, hash);
    SplitSlot(b, hash, x, 0);
  }

  /**
   * A whole slot migrated: once `u1` holds what `t1` held plus the chain of
   * slot `x` of `t0`, clearing that slot leaves two well-formed disjoint
   * tables whose union is what it was, with the slot's entries counted out
   * of `t0`.
   */
  lemma MoveSlot<K, V>(t0: seq<Chain<K, V>>, t1: seq<Chain<K, V>>, u1: seq<Chain<K, V>>, hash: K -> nat, x: nat)
    requires SlotsOk(t0, 0, hash) && SlotsOk(t1, 0, hash) && SlotsOk(u1, 0, hash)
    requires Disjoint(TableMap(t0, 0), TableMap(t1, 0))
    requires x < |t0| && TableMap(u1, 0) == TableMap(t1, 0) + ChainMap(t0[x])
    ensures SlotsOk(t0[x := []], 0, hash)
    ensures Disjoint(TableMap(t0[x := []], 0), TableMap(u1, 0))
    ensures TableMap(t0[x := []], 0) + TableMap(u1, 0) == TableMap(t0, 0) + TableMap(t1, 0)
    ensures Count(t0[x := []], 0) + |t0[x]| == Count(t0, 0)
  {
    ReplaceSlot(t0, hash, x, []);
    assert ChainMap<K, V>([]) == map[];
    SlotDisjointAll(t0, hash, x);
    MoveKeys(TableMap(t0, 0), TableMap(t1, 0), TableMap(t0[x := []], 0), ChainMap(t0[x]));
    CountUpdate(t0, x, [], 0);
  }

  /**
   * Keys `c` split off the first of two disjoint mappings and added to the
   * second: the two stay disjoint and their union is unchanged.
   */
  lemma MoveKeys<K, V>(m0: map<K, V>, m1: map<K, V>, r: map<K, V>, c: map<K, V>)
    requires m0 == r + map[] + c && Disjoint(r, c) && Disjoint(m0, m1)
    ensures Disjoint(r, m1 + c)
    ensures r + (m1 + c) == m0 + m1
  {
    assert r + map[] == r;
    assert r + c == c + r;
  }

  /** The keys of slot `x` are stored in no other slot. */
  lemma SlotDisjointAll<K, V>(b: seq<Chain<K, V>>, hash: K -> nat, x: nat)
    requires SlotsOk(b, 0, hash) && x < |b|
    ensures Disjoint(ChainMap(b[x]), TableMap(b[x := []], 0))
  {
    forall k | k in ChainMap(b[x])
      ensures k !in TableMap(b[x := []], 0)
    {
      SlotsOkAt(b, 0, hash, x);
      ChainSlot(b[x], x, |b|, hash, k);
      SlotsOkUpdate(b, 0, hash, x, []);
      TableKey(b[x := []], 0, hash, k);
    }
  }

  /** The entries of slots `i`, `i+1`, ... in slot order, each chain head first. */
  ghost function Flatten<K, V>(b: seq<Chain<K, V>>, i: nat): seq<Entry<K, V>>
    decreases |b| - i
  {
    if i >= |b| then [] else b[i] + Flatten(b, i + 1)
  }

  /** A walk down `c + r` sees `c`'s entries first. */
  lemma {:induction false} ChainMapAppend<K, V>(c: seq<Entry<K, V>>, r: seq<Entry<K, V>>)
    ensures ChainMap(c + r) == ChainMap(r) + ChainMap(c)
  {
    if c == [] {
      assert c + r == r;
    } else {
      assert (c + r)[1..] == c[1..] + r;
      ChainMapAppend(c[1..], r);
      MergeUpdateRight(ChainMap(r), ChainMap(c[1..]), c[0].key, c[0].val);
    }
  }

  /** Joining two runs without repeats and without a common key gives a run without repeats. */
  lemma {:induction false} DistinctAppend<K, V>(c: seq<Entry<K, V>>, r: seq<Entry<K, V>>)
    requires Distinct(c) && Distinct(r)
    requires forall k :: k in ChainMap(c) ==> k !in ChainMap(r)
    ensures Distinct(c + r)
  {
    if c == [] {
      assert c + r == r;
    } else {
      assert (c + r)[1..] == c[1..] + r;
      DistinctAppend(c[1..], r);
      ChainMapAppend(c[1..], r);
    }
  }

  /**
   * Walking the slots from `i` onwards, chain by chain, meets every key the
   * table stores there exactly once, with its value.
   */
  lemma {:induction false} FlattenOk<K, V>(b: seq<Chain<K, V>>, hash: K -> nat, i: nat)
    requires SlotsOk(b, i, hash)
    ensures ChainMap(Flatten(b, i)) == TableMap(b, i)
    ensures Distinct(Flatten(b, i))
    decreases |b| - i
  {
    if i < |b| {
      var r := Flatten(b, i + 1);
      FlattenOk(b, hash, i + 1);
      ChainMapAppend(b[i], r);
      ChainOkDistinct(b[i], i, |b|, hash);
      SlotDisjoint(b, hash, i);
      DistinctAppend(b[i], r);
      assert ChainMap(b[i]) + TableMap(b, i + 1) == TableMap(b, i + 1) + ChainMap(b[i]);
    }
  }
}

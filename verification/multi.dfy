/**
 * Transactions: MULTI / DISCARD / EXEC and the WATCH registry (multi.c).
 *
 * Every client has a flag word, a queue of commands collected between MULTI
 * and EXEC, and the list of (key, database) pairs it watches. Every database
 * maps each watched key to the list of clients watching it; the model keeps
 * the watch dicts of all databases in one map keyed by the (key, database)
 * pair. The two watch indexes must agree with each other, like the channel
 * indexes of the publish/subscribe registry.
 *
 * Clients are numbers; replies, reference counting, replication of the MULTI
 * block and the effect of the queued commands on the data set are not part
 * of this model.
 */
module Multi {
  import opened Common

  type ClientId = nat
  type DbId = nat
  type Key = string

  /** The client flag word (`c->flags`). */
  type Flags = bv32

  /** The client is between MULTI and EXEC. */
  const REDIS_MULTI: Flags := 8
  /** A watched key was touched: the next EXEC must fail. */
  const REDIS_DIRTY_CAS: Flags := 32

  /** A queued command (`multiCmd`): the command and its arguments; `argc` is `|argv|`. */
  datatype MultiCmd = MultiCmd(cmd: string, argv: seq<string>)

  /** An entry of a client's watch list (`watchedKey`). */
  datatype WatchedKey = WatchedKey(key: Key, db: DbId)

  /** What a command sends back to the client, as far as this model distinguishes it. */
  datatype Reply =
    | Ok
    | Error(message: string)
    /** EXEC of a transaction whose watched keys were touched (`shared.nullmultibulk`). */
    | NullMultiBulk
    /** A successful EXEC: the queued commands in the order they were handed to `call`. */
    | Executed(ran: seq<MultiCmd>)

  const MultiNestedError := "MULTI calls can not be nested"
  const DiscardWithoutMultiError := "DISCARD without MULTI"
  const ExecWithoutMultiError := "EXEC without MULTI"
  const WatchInsideMultiError := "WATCH inside MULTI is not allowed"

  predicate InMulti(f: Flags)
  {
    f & REDIS_MULTI != 0
  }

  predicate DirtyCas(f: Flags)
  {
    f & REDIS_DIRTY_CAS != 0
  }

  /** The flag word with MULTI set; the other bits are kept. */
  function WithMulti(f: Flags): (r: Flags)
    ensures InMulti(r) && r & !REDIS_MULTI == f & !REDIS_MULTI
  {
    f | REDIS_MULTI
  }

  /** The flag word with MULTI and DIRTY_CAS cleared; the other bits are kept. */
  function WithoutTransaction(f: Flags): (r: Flags)
    ensures !InMulti(r) && !DirtyCas(r)
    ensures r & !(REDIS_MULTI | REDIS_DIRTY_CAS) == f & !(REDIS_MULTI | REDIS_DIRTY_CAS)
  {
    f & !(REDIS_MULTI | REDIS_DIRTY_CAS)
  }

  /** The flag word with DIRTY_CAS cleared; the other bits are kept. */
  function WithoutDirtyCas(f: Flags): (r: Flags)
    ensures !DirtyCas(r) && r & !REDIS_DIRTY_CAS == f & !REDIS_DIRTY_CAS
  {
    f & !REDIS_DIRTY_CAS
  }

  /** The flag word with DIRTY_CAS set; the other bits are kept. */
  function WithDirtyCas(f: Flags): (r: Flags)
    ensures DirtyCas(r) && r & !REDIS_DIRTY_CAS == f & !REDIS_DIRTY_CAS
  {
    f | REDIS_DIRTY_CAS
  }

  /** The flags of a client that has no entry are all clear. */
  function FlagsOf(flags: map<ClientId, Flags>, c: ClientId): Flags
  {
    if c in flags then flags[c] else 0
  }

  function QueueOf(queued: map<ClientId, seq<MultiCmd>>, c: ClientId): seq<MultiCmd>
  {
    if c in queued then queued[c] else []
  }

  /** The keys client `c` watches (`c->watched_keys`). */
  function WatchedOf(cw: map<ClientId, seq<WatchedKey>>, c: ClientId): seq<WatchedKey>
  {
    if c in cw then cw[c] else []
  }

  /** The clients watching `wk` (`wk.db->watched_keys[wk.key]`, none when absent). */
  function Watchers(kw: map<WatchedKey, seq<ClientId>>, wk: WatchedKey): seq<ClientId>
  {
    if wk in kw then kw[wk] else []
  }

  /**
   * The two watch indexes agree: `c` watches `wk` exactly when it is on the
   * database's list for that key; lists hold no repeats and a database keeps
   * no empty list.
   */
  ghost predicate WatchAgree(cw: map<ClientId, seq<WatchedKey>>, kw: map<WatchedKey, seq<ClientId>>)
  {
    && (forall wk :: wk in kw ==> kw[wk] != [] && NoDup(kw[wk]))
    && (forall c :: NoDup(WatchedOf(cw, c)))
    && (forall c, wk :: wk in WatchedOf(cw, c) <==> c in Watchers(kw, wk))
  }

  /**
   * The watch list of a client after WATCH of `keys` in database `db`: each
   * key not yet watched there is appended, in argument order.
   */
  function WatchAll(ws: seq<WatchedKey>, db: DbId, keys: seq<Key>): seq<WatchedKey>
    decreases |keys|
  {
    if keys == [] then ws
    else
      var wk := WatchedKey(keys[0], db);
      WatchAll(if wk in ws then ws else ws + [wk], db, keys[1..])
  }

  /** After WATCH a key is watched exactly when it was before or is one of the arguments. */
  lemma {:induction false} WatchAllContents(ws: seq<WatchedKey>, db: DbId, keys: seq<Key>)
    ensures forall wk :: wk in WatchAll(ws, db, keys) <==> wk in ws || (wk.db == db && wk.key in keys)
    decreases |keys|
  {
    if keys != [] {
      var wk := WatchedKey(keys[0], db);
      var ws' := if wk in ws then ws else ws + [wk];
      WatchAllContents(ws', db, keys[1..]);
      assert keys == [keys[0]] + keys[1..];
    }
  }

  /** WATCH keeps the earlier list as a prefix and never repeats an entry. */
  lemma {:induction false} WatchAllExtends(ws: seq<WatchedKey>, db: DbId, keys: seq<Key>)
    requires NoDup(ws)
    ensures NoDup(WatchAll(ws, db, keys))
    ensures |ws| <= |WatchAll(ws, db, keys)| && WatchAll(ws, db, keys)[..|ws|] == ws
    decreases |keys|
  {
    if keys != [] {
      var wk := WatchedKey(keys[0], db);
      var ws' := if wk in ws then ws else ws + [wk];
      if wk !in ws {
        NoDupAppend(ws, wk);
      }
      WatchAllExtends(ws', db, keys[1..]);
      assert WatchAll(ws, db, keys)[..|ws'|][..|ws|] == ws;
    }
  }

  /** Watching the same keys again changes nothing. */
  lemma {:induction false} WatchAllIdempotent(ws: seq<WatchedKey>, db: DbId, keys: seq<Key>)
    ensures WatchAll(WatchAll(ws, db, keys), db, keys) == WatchAll(ws, db, keys)
  {
    WatchAllContents(ws, db, keys);
    WatchAllUnchanged(WatchAll(ws, db, keys), db, keys);
  }

  /** WATCH of keys that are all watched already leaves the list as it is. */
  lemma {:induction false} WatchAllUnchanged(ws: seq<WatchedKey>, db: DbId, keys: seq<Key>)
    requires forall k :: k in keys ==> WatchedKey(k, db) in ws
    ensures WatchAll(ws, db, keys) == ws
  {
    if keys != [] {
      assert keys[0] in keys;
      forall k | k in keys[1..] ensures WatchedKey(k, db) in ws {
        assert k in keys;
      }
      WatchAllUnchanged(ws, db, keys[1..]);
    }
  }

  /** The database index once `c` is taken off the list of `wk` (the entry goes when it empties). */
  function DropWatcher(kw: map<WatchedKey, seq<ClientId>>, wk: WatchedKey, c: ClientId): map<WatchedKey, seq<ClientId>>
  {
    var rest := RemoveFirst(Watchers(kw, wk), c);
    if rest == [] then kw - {wk} else kw[wk := rest]
  }

  /** A new watch, recorded on both sides, keeps the indexes in agreement. */
  lemma WatchKeepsAgreement(cw: map<ClientId, seq<WatchedKey>>, kw: map<WatchedKey, seq<ClientId>>, c: ClientId, wk: WatchedKey)
    requires WatchAgree(cw, kw) && wk !in WatchedOf(cw, c)
    ensures WatchAgree(cw[c := WatchedOf(cw, c) + [wk]], kw[wk := Watchers(kw, wk) + [c]])
  {
    var cw', kw' := cw[c := WatchedOf(cw, c) + [wk]], kw[wk := Watchers(kw, wk) + [c]];
    assert c !in Watchers(kw, wk);
    NoDupAppend(Watchers(kw, wk), c);
    NoDupAppend(WatchedOf(cw, c), wk);
    forall d ensures NoDup(WatchedOf(cw', d)) {
      if d != c {
        assert WatchedOf(cw', d) == WatchedOf(cw, d);
      }
    }
    forall d, w ensures w in WatchedOf(cw', d) <==> d in Watchers(kw', w) {
      assert w in WatchedOf(cw, d) <==> d in Watchers(kw, w);
      if d != c {
        assert WatchedOf(cw', d) == WatchedOf(cw, d);
      }
    }
  }

  /**
   * Dropping the first watch of a client on both sides keeps the indexes in
   * agreement; the client's list loses its head.
   */
  lemma UnwatchKeepsAgreement(cw: map<ClientId, seq<WatchedKey>>, kw: map<WatchedKey, seq<ClientId>>, c: ClientId)
    requires WatchAgree(cw, kw) && WatchedOf(cw, c) != []
    ensures WatchAgree(cw[c := WatchedOf(cw, c)[1..]], DropWatcher(kw, WatchedOf(cw, c)[0], c))
  {
    var mine := WatchedOf(cw, c);
    var wk := mine[0];
    var cw', kw' := cw[c := mine[1..]], DropWatcher(kw, wk, c);
    RemoveFirstNoDup(Watchers(kw, wk), c);
    assert NoDup(mine[1..]) by {
      forall p, q | 0 <= p < q < |mine| - 1 ensures mine[1..][p] != mine[1..][q] {
        assert mine[1..][p] == mine[p + 1] && mine[1..][q] == mine[q + 1];
      }
    }
    assert wk !in mine[1..] by {
      forall p | 0 <= p < |mine| - 1 ensures mine[1..][p] != wk {
        assert mine[1..][p] == mine[p + 1];
      }
    }
    forall d ensures NoDup(WatchedOf(cw', d)) {
      if d != c {
        assert WatchedOf(cw', d) == WatchedOf(cw, d);
      }
    }
    forall d, w ensures w in WatchedOf(cw', d) <==> d in Watchers(kw', w) {
      assert w in WatchedOf(cw, d) <==> d in Watchers(kw, w);
      if d != c {
        assert WatchedOf(cw', d) == WatchedOf(cw, d);
      }
      if w == wk {
        assert Watchers(kw', w) == RemoveFirst(Watchers(kw, wk), c);
      } else {
        assert Watchers(kw', w) == Watchers(kw, w);
        if d == c {
          assert w in mine <==> w in mine[1..] by {
            assert mine == [wk] + mine[1..];
          }
        }
      }
    }
  }

  /** Every client's transaction state and the watch dicts of every database. */
  class Transactions {
    /** `c->flags` of every client. */
    var flags: map<ClientId, Flags>
    /** `c->mstate` of every client: the queued commands, `count` being the queue's length. */
    var queued: map<ClientId, seq<MultiCmd>>
    /** `c->watched_keys` of every client. */
    var watchedKeys: map<ClientId, seq<WatchedKey>>
    /** `db->watched_keys` of every database, keyed by (key, database). */
    var keyWatchers: map<WatchedKey, seq<ClientId>>
    /** `server.dirty`: changes since the last save. */
    var dirty: nat

    ghost predicate Valid()
      reads this
    {
      WatchAgree(watchedKeys, keyWatchers)
    }

    /** No client has flags, queued commands or watched keys. */
    constructor ()
      ensures Valid()
      ensures flags == map[] && queued == map[] && watchedKeys == map[] && keyWatchers == map[]
      ensures dirty == 0
    {
      flags, queued, watchedKeys, keyWatchers, dirty := map[], map[], map[], map[], 0;
    }

    /** `queueMultiCommand`: the current command joins the client's queue at position `count`. */
    method QueueMultiCommand(c: ClientId, current: MultiCmd)
      modifies this
      ensures QueueOf(queued, c) == QueueOf(old(queued), c) + [current]
      ensures forall d :: d != c ==> QueueOf(queued, d) == QueueOf(old(queued), d)
      ensures flags == old(flags) && watchedKeys == old(watchedKeys) && keyWatchers == old(keyWatchers)
      ensures dirty == old(dirty)
    {
      queued := queued[c := QueueOf(queued, c) + [current]];
    }

    /** `multiCommand`: enters MULTI, unless the client is in MULTI already (an error, no change). */
    method MultiCommand(c: ClientId) returns (reply: Reply)
      modifies this
      ensures InMulti(FlagsOf(old(flags), c)) ==> reply == Error(MultiNestedError) && flags == old(flags)
      ensures !InMulti(FlagsOf(old(flags), c)) ==>
        && reply == Ok
        && FlagsOf(flags, c) == WithMulti(FlagsOf(old(flags), c))
        && forall d :: d != c ==> FlagsOf(flags, d) == FlagsOf(old(flags), d)
      ensures queued == old(queued) && watchedKeys == old(watchedKeys) && keyWatchers == old(keyWatchers)
      ensures dirty == old(dirty)
    {
      if InMulti(FlagsOf(flags, c)) {
        return Error(MultiNestedError);
      }
      flags := flags[c := WithMulti(FlagsOf(flags, c))];
      reply := Ok;
    }

    /**
     * `unwatchAllKeys`: the client leaves the list of every key it watched,
     * keys left without watchers leave their database's dict, and the
     * client's own list ends empty. Flags are the caller's business.
     */
    method UnwatchAllKeys(c: ClientId)
      requires Valid()
      modifies this
      ensures Valid()
      ensures WatchedOf(watchedKeys, c) == []
      ensures forall wk :: Watchers(keyWatchers, wk) == RemoveFirst(Watchers(old(keyWatchers), wk), c)
      ensures forall d :: d != c ==> WatchedOf(watchedKeys, d) == WatchedOf(old(watchedKeys), d)
      ensures flags == old(flags) && queued == old(queued) && dirty == old(dirty)
    {
      if |WatchedOf(watchedKeys, c)| == 0 {
        forall wk ensures Watchers(keyWatchers, wk) == RemoveFirst(Watchers(old(keyWatchers), wk), c) {
          assert c !in Watchers(keyWatchers, wk);
        }
        return;
      }
      while WatchedOf(watchedKeys, c) != []
        invariant Valid()
        invariant forall wk :: wk in WatchedOf(watchedKeys, c) ==> Watchers(keyWatchers, wk) == Watchers(old(keyWatchers), wk)
        invariant forall wk :: wk !in WatchedOf(watchedKeys, c) ==> Watchers(keyWatchers, wk) == RemoveFirst(Watchers(old(keyWatchers), wk), c)
        invariant forall d :: d != c ==> WatchedOf(watchedKeys, d) == WatchedOf(old(watchedKeys), d)
        invariant flags == old(flags) && queued == old(queued) && dirty == old(dirty)
        decreases |WatchedOf(watchedKeys, c)|
      {
        UnwatchFirst(c);
      }
    }

    /** One step of `unwatchAllKeys`: the head of the client's watch list is undone on both sides. */
    method UnwatchFirst(c: ClientId)
      requires Valid() && WatchedOf(watchedKeys, c) != []
      modifies this
      ensures Valid()
      ensures WatchedOf(watchedKeys, c) == WatchedOf(old(watchedKeys), c)[1..]
      ensures var wk := WatchedOf(old(watchedKeys), c)[0];
        && Watchers(keyWatchers, wk) == RemoveFirst(Watchers(old(keyWatchers), wk), c)
        && wk !in WatchedOf(watchedKeys, c)
        && forall w :: w != wk ==> Watchers(keyWatchers, w) == Watchers(old(keyWatchers), w)
      ensures forall d :: d != c ==> WatchedOf(watchedKeys, d) == WatchedOf(old(watchedKeys), d)
      ensures flags == old(flags) && queued == old(queued) && dirty == old(dirty)
    {
      var mine := watchedKeys[c];
      var wk := mine[0];
      UnwatchKeepsAgreement(watchedKeys, keyWatchers, c);
      assert c in Watchers(keyWatchers, wk);
      var clients := keyWatchers[wk];
      clients := RemoveFirst(clients, c);
      if |clients| == 0 {
        keyWatchers := keyWatchers - {wk};
      } else {
        keyWatchers := keyWatchers[wk := clients];
      }
      watchedKeys := watchedKeys[c := mine[1..]];
    }

    /**
     * `watchForKey`: nothing happens when the client already watches `key`
     * in database `db` (its selected database); otherwise the client is
     * appended to the key's list, created for the first watcher, and the
     * pair to the client's list.
     */
    method WatchForKey(c: ClientId, db: DbId, key: Key)
      requires Valid()
      modifies this
      ensures Valid()
      ensures WatchedOf(watchedKeys, c) == WatchAll(WatchedOf(old(watchedKeys), c), db, [key])
      ensures var wk := WatchedKey(key, db);
        Watchers(keyWatchers, wk) ==
          if wk in WatchedOf(old(watchedKeys), c) then Watchers(old(keyWatchers), wk)
          else Watchers(old(keyWatchers), wk) + [c]
      ensures forall w :: w != WatchedKey(key, db) ==> Watchers(keyWatchers, w) == Watchers(old(keyWatchers), w)
      ensures forall d :: d != c ==> WatchedOf(watchedKeys, d) == WatchedOf(old(watchedKeys), d)
      ensures flags == old(flags) && queued == old(queued) && dirty == old(dirty)
    {
      var wk := WatchedKey(key, db);
      var mine := WatchedOf(watchedKeys, c);
      assert [key][1..] == [];
      var i := 0;
      while i < |mine|
        invariant i <= |mine| && wk !in mine[..i]
      {
        if mine[i] == wk {
          return;
        }
        assert mine[..i + 1] == mine[..i] + [mine[i]];
        i := i + 1;
      }
      assert mine[..i] == mine;
      WatchKeepsAgreement(watchedKeys, keyWatchers, c, wk);
      var clients := [];
      if wk in keyWatchers {
        clients := keyWatchers[wk];
      }
      keyWatchers := keyWatchers[wk := clients + [c]];
      watchedKeys := watchedKeys[c := mine + [wk]];
    }

    /**
     * `watchCommand`: an error inside MULTI; otherwise every argument key is
     * watched in the client's selected database `db`.
     */
    method WatchCommand(c: ClientId, db: DbId, keys: seq<Key>) returns (reply: Reply)
      requires Valid()
      modifies this
      ensures Valid()
      ensures InMulti(FlagsOf(flags, c)) ==> reply == Error(WatchInsideMultiError) && watchedKeys == old(watchedKeys) && keyWatchers == old(keyWatchers)
      ensures !InMulti(FlagsOf(flags, c)) ==> reply == Ok && WatchedOf(watchedKeys, c) == WatchAll(WatchedOf(old(watchedKeys), c), db, keys)
      ensures forall d :: d != c ==> WatchedOf(watchedKeys, d) == WatchedOf(old(watchedKeys), d)
      ensures flags == old(flags) && queued == old(queued) && dirty == old(dirty)
    {
      if InMulti(FlagsOf(flags, c)) {
        return Error(WatchInsideMultiError);
      }
      var j := 0;
      while j < |keys|
        invariant Valid()
        invariant j <= |keys|
        invariant WatchedOf(watchedKeys, c) == WatchAll(WatchedOf(old(watchedKeys), c), db, keys[..j])
        invariant forall d :: d != c ==> WatchedOf(watchedKeys, d) == WatchedOf(old(watchedKeys), d)
        invariant flags == old(flags) && queued == old(queued) && dirty == old(dirty)
      {
        ghost var before := WatchedOf(watchedKeys, c);
        WatchForKey(c, db, keys[j]);
        WatchAllSnoc(WatchedOf(old(watchedKeys), c), db, keys[..j], keys[j]);
        assert keys[..j + 1] == keys[..j] + [keys[j]];
        j := j + 1;
      }
      assert keys[..j] == keys;
      reply := Ok;
    }

    /** `unwatchCommand`: all keys are unwatched and DIRTY_CAS is cleared. */
    method UnwatchCommand(c: ClientId) returns (reply: Reply)
      requires Valid()
      modifies this
      ensures Valid() && reply == Ok
      ensures WatchedOf(watchedKeys, c) == []
      ensures forall wk :: c !in Watchers(keyWatchers, wk)
      ensures FlagsOf(flags, c) == WithoutDirtyCas(FlagsOf(old(flags), c))
      ensures forall d :: d != c ==> FlagsOf(flags, d) == FlagsOf(old(flags), d)
      ensures forall wk :: Watchers(keyWatchers, wk) == RemoveFirst(Watchers(old(keyWatchers), wk), c)
      ensures forall d :: d != c ==> WatchedOf(watchedKeys, d) == WatchedOf(old(watchedKeys), d)
      ensures queued == old(queued) && dirty == old(dirty)
    {
      UnwatchAllKeys(c);
      flags := flags[c := WithoutDirtyCas(FlagsOf(flags, c))];
      reply := Ok;
    }

    /**
     * `discardTransaction`: the queue is emptied, MULTI and DIRTY_CAS are
     * cleared and every watch of the client is undone.
     */
    method DiscardTransaction(c: ClientId)
      requires Valid()
      modifies this
      ensures Valid()
      ensures QueueOf(queued, c) == [] && WatchedOf(watchedKeys, c) == []
      ensures forall wk :: c !in Watchers(keyWatchers, wk)
      ensures FlagsOf(flags, c) == WithoutTransaction(FlagsOf(old(flags), c))
      ensures forall d :: d != c ==> FlagsOf(flags, d) == FlagsOf(old(flags), d) && QueueOf(queued, d) == QueueOf(old(queued), d)
      ensures forall wk :: Watchers(keyWatchers, wk) == RemoveFirst(Watchers(old(keyWatchers), wk), c)
      ensures forall d :: d != c ==> WatchedOf(watchedKeys, d) == WatchedOf(old(watchedKeys), d)
      ensures dirty == old(dirty)
    {
      queued := queued[c := []];
      flags := flags[c := WithoutTransaction(FlagsOf(flags, c))];
      UnwatchAllKeys(c);
    }

    /** `discardCommand`: an error without MULTI (no change); otherwise the transaction is discarded. */
    method DiscardCommand(c: ClientId) returns (reply: Reply)
      requires Valid()
      modifies this
      ensures Valid()
      ensures !InMulti(FlagsOf(old(flags), c)) ==>
        && reply == Error(DiscardWithoutMultiError)
        && flags == old(flags) && queued == old(queued)
        && watchedKeys == old(watchedKeys) && keyWatchers == old(keyWatchers)
      ensures InMulti(FlagsOf(old(flags), c)) ==>
        && reply == Ok
        && QueueOf(queued, c) == [] && WatchedOf(watchedKeys, c) == []
        && FlagsOf(flags, c) == WithoutTransaction(FlagsOf(old(flags), c))
        && (forall wk :: Watchers(keyWatchers, wk) == RemoveFirst(Watchers(old(keyWatchers), wk), c))
      ensures forall d :: d != c ==> FlagsOf(flags, d) == FlagsOf(old(flags), d) && QueueOf(queued, d) == QueueOf(old(queued), d)
      ensures forall d :: d != c ==> WatchedOf(watchedKeys, d) == WatchedOf(old(watchedKeys), d)
      ensures dirty == old(dirty)
    {
      if !InMulti(FlagsOf(flags, c)) {
        return Error(DiscardWithoutMultiError);
      }
      DiscardTransaction(c);
      reply := Ok;
    }

    /**
     * `execCommand`: an error without MULTI; a transaction whose watched keys
     * were touched is discarded without running anything; otherwise the
     * watches are dropped, the queued commands are handed to `call` in queue
     * order, the transaction state is reset and the dirty counter grows.
     */
    method ExecCommand(c: ClientId) returns (reply: Reply)
      requires Valid()
      modifies this
      ensures Valid()
      ensures !InMulti(FlagsOf(old(flags), c)) ==>
        && reply == Error(ExecWithoutMultiError)
        && flags == old(flags) && queued == old(queued)
        && watchedKeys == old(watchedKeys) && keyWatchers == old(keyWatchers) && dirty == old(dirty)
      ensures InMulti(FlagsOf(old(flags), c)) && DirtyCas(FlagsOf(old(flags), c)) ==>
        reply == NullMultiBulk && dirty == old(dirty)
      ensures InMulti(FlagsOf(old(flags), c)) && !DirtyCas(FlagsOf(old(flags), c)) ==>
        reply == Executed(QueueOf(old(queued), c)) && dirty == old(dirty) + 1
      ensures InMulti(FlagsOf(old(flags), c)) ==>
        && QueueOf(queued, c) == [] && WatchedOf(watchedKeys, c) == []
        && (forall wk :: c !in Watchers(keyWatchers, wk))
        && FlagsOf(flags, c) == WithoutTransaction(FlagsOf(old(flags), c))
        && (forall wk :: Watchers(keyWatchers, wk) == RemoveFirst(Watchers(old(keyWatchers), wk), c))
      ensures forall d :: d != c ==> FlagsOf(flags, d) == FlagsOf(old(flags), d) && QueueOf(queued, d) == QueueOf(old(queued), d)
      ensures forall d :: d != c ==> WatchedOf(watchedKeys, d) == WatchedOf(old(watchedKeys), d)
    {
      if !InMulti(FlagsOf(flags, c)) {
        return Error(ExecWithoutMultiError);
      }
      if DirtyCas(FlagsOf(flags, c)) {
        DiscardTransaction(c);
        return NullMultiBulk;
      }
      UnwatchAllKeys(c);
      var commands := QueueOf(queued, c);
      var ran: seq<MultiCmd> := [];
      var j := 0;
      while j < |commands|
        invariant j <= |commands| && ran == commands[..j]
      {
        ran := ran + [commands[j]];
        assert commands[..j + 1] == commands[..j] + [commands[j]];
        j := j + 1;
      }
      assert commands[..j] == commands;
      queued := queued[c := []];
      flags := flags[c := WithoutTransaction(FlagsOf(flags, c))];
      dirty := dirty + 1;
      reply := Executed(ran);
    }

    /**
     * `touchWatchedKey`: every client watching `key` in database `db` gets
     * DIRTY_CAS, and nothing else changes.
     */
    method TouchWatchedKey(db: DbId, key: Key)
      requires Valid()
      modifies this
      ensures Valid()
      ensures forall d ::
        FlagsOf(flags, d) ==
          if d in Watchers(keyWatchers, WatchedKey(key, db)) then WithDirtyCas(FlagsOf(old(flags), d))
          else FlagsOf(old(flags), d)
      ensures queued == old(queued) && watchedKeys == old(watchedKeys) && keyWatchers == old(keyWatchers)
      ensures dirty == old(dirty)
    {
      if |keyWatchers| == 0 {
        return;
      }
      var wk := WatchedKey(key, db);
      if wk !in keyWatchers {
        return;
      }
      var clients := keyWatchers[wk];
      var i := 0;
      while i < |clients|
        invariant i <= |clients|
        invariant forall d ::
          FlagsOf(flags, d) == if d in clients[..i] then WithDirtyCas(FlagsOf(old(flags), d)) else FlagsOf(old(flags), d)
        invariant queued == old(queued) && watchedKeys == old(watchedKeys) && keyWatchers == old(keyWatchers)
        invariant dirty == old(dirty)
      {
        var c := clients[i];
        flags := flags[c := WithDirtyCas(FlagsOf(flags, c))];
        assert clients[..i + 1] == clients[..i] + [c];
        i := i + 1;
      }
      assert clients[..i] == clients;
    }

    /**
     * `touchWatchedKeysOnFlush`: a client of `clients` (`server.clients`)
     * gets DIRTY_CAS when it watches a key that exists (is in `present`) in
     * the flushed database `dbid`, or in any database when `dbid` is -1.
     */
    method TouchWatchedKeysOnFlush(dbid: int, clients: seq<ClientId>, present: set<WatchedKey>)
      modifies this
      ensures forall d ::
        FlagsOf(flags, d) ==
          if d in clients && WatchesFlushed(WatchedOf(watchedKeys, d), dbid, present)
          then WithDirtyCas(FlagsOf(old(flags), d))
          else FlagsOf(old(flags), d)
      ensures queued == old(queued) && watchedKeys == old(watchedKeys) && keyWatchers == old(keyWatchers)
      ensures dirty == old(dirty)
    {
      var i := 0;
      while i < |clients|
        invariant i <= |clients|
        invariant forall d ::
          FlagsOf(flags, d) ==
            if d in clients[..i] && WatchesFlushed(WatchedOf(watchedKeys, d), dbid, present)
            then WithDirtyCas(FlagsOf(old(flags), d))
            else FlagsOf(old(flags), d)
        invariant queued == old(queued) && watchedKeys == old(watchedKeys) && keyWatchers == old(keyWatchers)
        invariant dirty == old(dirty)
      {
        var c := clients[i];
        TouchClientOnFlush(c, dbid, present);
        assert clients[..i + 1] == clients[..i] + [c];
        i := i + 1;
      }
      assert clients[..i] == clients;
    }

    /** The inner loop of `touchWatchedKeysOnFlush`: the watch list of one client is scanned. */
    method TouchClientOnFlush(c: ClientId, dbid: int, present: set<WatchedKey>)
      modifies this
      ensures FlagsOf(flags, c) ==
        if WatchesFlushed(WatchedOf(watchedKeys, c), dbid, present) then WithDirtyCas(FlagsOf(old(flags), c))
        else FlagsOf(old(flags), c)
      ensures forall d :: d != c ==> FlagsOf(flags, d) == FlagsOf(old(flags), d)
      ensures queued == old(queued) && watchedKeys == old(watchedKeys) && keyWatchers == old(keyWatchers)
      ensures dirty == old(dirty)
    {
      var mine := WatchedOf(watchedKeys, c);
      var j := 0;
      while j < |mine|
        invariant j <= |mine|
        invariant forall d :: d != c ==> FlagsOf(flags, d) == FlagsOf(old(flags), d)
        invariant FlagsOf(flags, c) ==
          if WatchesFlushed(mine[..j], dbid, present) then WithDirtyCas(FlagsOf(old(flags), c))
          else FlagsOf(old(flags), c)
        invariant queued == old(queued) && watchedKeys == old(watchedKeys) && keyWatchers == old(keyWatchers)
        invariant dirty == old(dirty)
      {
        var wk := mine[j];
        if dbid == -1 || wk.db == dbid {
          if wk in present {
            flags := flags[c := WithDirtyCas(FlagsOf(flags, c))];
          }
        }
        assert mine[..j + 1] == mine[..j] + [wk];
        j := j + 1;
      }
      assert mine[..j] == mine;
    }
  }

  /** Some watched key in `ws` is in a flushed database and exists there. */
  predicate WatchesFlushed(ws: seq<WatchedKey>, dbid: int, present: set<WatchedKey>)
  {
    exists wk :: wk in ws && (dbid == -1 || wk.db == dbid) && wk in present
  }

  /** WATCH of one more key extends WATCH of the earlier ones. */
  lemma {:induction false} WatchAllSnoc(ws: seq<WatchedKey>, db: DbId, keys: seq<Key>, key: Key)
    ensures WatchAll(ws, db, keys + [key]) == WatchAll(WatchAll(ws, db, keys), db, [key])
    decreases |keys|
  {
    if keys != [] {
      var wk := WatchedKey(keys[0], db);
      var ws' := if wk in ws then ws else ws + [wk];
      assert (keys + [key])[1..] == keys[1..] + [key];
      WatchAllSnoc(ws', db, keys[1..], key);
    }
  }
}

/**
 The part of Redis the rate limiter relies on: keys that vanish when their time to live runs
 out, and scripts that run over a batch of keys without interruption.
 */
module RedisServer {
  import opened Outcomes

  /** What the scripts are told about a dimension. */
  datatype Dim = Dim(limit: nat, windowSecs: nat)

  /** One key of a batch and the arguments that go with it. */
  datatype Op<A> = Op(key: string, args: A)

  /** A stored value and the server time, in seconds, at which it is gone. */
  datatype Entry<V> = Entry(value: V, expireAt: Option<int>)

  function LiveAt<V>(e: Option<Entry<V>>, now: int): Option<Entry<V>> {
    if e.Some? && e.value.expireAt.Some? && e.value.expireAt.value <= now then None else e
  }

  /** `TTL`: seconds left, -1 for a key without expiry. */
  function Ttl<V>(e: Entry<V>, now: int): int {
    if e.expireAt.Some? then e.expireAt.value - now else -1
  }

  /** What a script does to one key: the entry it finds, if any, to the entry it leaves, if any, and its reply. */
  type Script<!V, !A, !R> = (Option<Entry<V>>, A) -> (Option<Entry<V>>, R)

  type Db<V> = map<string, Entry<V>>

  function Find<V>(db: Db<V>, k: string): Option<Entry<V>> {
    if k in db then Some(db[k]) else None
  }

  function Put<V>(db: Db<V>, k: string, e: Option<Entry<V>>): Db<V> {
    if e.Some? then db[k := e.value] else db - {k}
  }

  /** The keys one by one, each seeing what the ones before it left. */
  function RunBatch<V, A, R>(script: Script<V, A, R>, db: Db<V>, ops: seq<Op<A>>): (Db<V>, seq<R>) {
    if ops == [] then (db, [])
    else
      var n := |ops| - 1;
      var (db', replies) := RunBatch(script, db, ops[..n]);
      var (e, reply) := script(Find(db', ops[n].key), ops[n].args);
      (Put(db', ops[n].key, e), replies + [reply])
  }

  class Server<V> {
    var db: Db<V>

    constructor ()
      ensures db == map[]
    {
      db := map[];
    }

    method Eval<A, R>(script: Script<V, A, R>, ops: seq<Op<A>>) returns (replies: seq<R>)
      modifies this
      ensures (db, replies) == RunBatch(script, old(db), ops)
    {
      replies := [];
      for i := 0 to |ops|
        invariant (db, replies) == RunBatch(script, old(db), ops[..i])
      {
        var (e, reply) := script(Find(db, ops[i].key), ops[i].args);
        db := Put(db, ops[i].key, e);
        replies := replies + [reply];
        assert ops[..i + 1][..i] == ops[..i];
      }
      assert ops[..|ops|] == ops;
    }
  }

  ghost predicate DistinctKeys<A>(ops: seq<Op<A>>) {
    forall i, j :: 0 <= i < j < |ops| ==> ops[i].key != ops[j].key
  }

  /** With distinct keys a batch is as many independent runs: no key sees another. */
  lemma {:induction false} BatchIndependent<V, A, R>(script: Script<V, A, R>, db: Db<V>, ops: seq<Op<A>>)
    requires DistinctKeys(ops)
    ensures var (db', replies) := RunBatch(script, db, ops);
            && |replies| == |ops|
            && (forall i :: 0 <= i < |ops| ==>
                  && replies[i] == script(Find(db, ops[i].key), ops[i].args).1
                  && Find(db', ops[i].key) == script(Find(db, ops[i].key), ops[i].args).0)
            && (forall k :: (forall i :: 0 <= i < |ops| ==> ops[i].key != k) ==> Find(db', k) == Find(db, k))
  {
    if ops != [] {
      var n := |ops| - 1;
      BatchIndependent(script, db, ops[..n]);
      var db1 := RunBatch(script, db, ops[..n]).0;
      assert Find(db1, ops[n].key) == Find(db, ops[n].key);
      forall k | forall i :: 0 <= i < |ops| ==> ops[i].key != k
        ensures Find(RunBatch(script, db, ops).0, k) == Find(db, k)
      {
        assert ops[n].key != k;
        assert forall i :: 0 <= i < n ==> ops[..n][i].key != k;
      }
    }
  }
}

/**
 * The handler a polling trigger runs at every tick. It calls the scheduler's method
 * with a database connection and a block; the method yields a triggering key to
 * the block, and the block answers whether that key differs from the one seen last
 * time. Only a change triggers: the handler is an edge detector over the keys.
 *
 * `K` is the type of the triggering keys; `None` is a yielded `nil`.
 */
module PollingHandlers {
  import opened Common

  /**
   * One evaluation of the block: from the stored key `last` and the yielded `key`,
   * the key stored afterwards and whether the call triggers.
   */
  function Observe<K(==)>(last: Option<K>, key: Option<K>): (r: (Option<K>, bool))
    ensures r.1 <==> key != last
    ensures !r.1 ==> r.0 == last
    ensures r.0 == key
  {
    if key == last then (last, false) else (key, true)
  }

  class PollingHandler<K(==)> {
    /** `@last_triggering_key`. */
    var lastTriggeringKey: Option<K>

    /** `initialize`: no key has been seen yet, so the stored key is nil. */
    constructor ()
      ensures lastTriggeringKey == None
    {
      lastTriggeringKey := None;
    }

    /**
     * `call` at one tick. `key` is what the scheduler's method yields on this tick:
     * it queries the database through the connection the adapter's `open` yields,
     * so successive ticks may yield different keys. A yielded key equal to the
     * stored one makes `call` return false and changes nothing; a different key
     * is stored and the block answers true.
     */
    method Call(key: Option<K>) returns (triggered: bool)
      modifies this
      ensures (lastTriggeringKey, triggered) == Observe(old(lastTriggeringKey), key)
      ensures triggered <==> key != old(lastTriggeringKey)
      ensures !triggered ==> lastTriggeringKey == old(lastTriggeringKey)
      ensures triggered ==> lastTriggeringKey == key
    {
      var triggeringKey := key;
      if triggeringKey == lastTriggeringKey {
        return false;
      }
      lastTriggeringKey := triggeringKey;
      triggered := true;
    }

    /**
     * The handler run at successive ticks whose scheduler's method yields `keys`
     * in turn: the answers are `Triggers` and the stored key ends as `StoredAfter`.
     */
    method CallEach(keys: seq<Option<K>>) returns (answers: seq<bool>)
      modifies this
      ensures answers == Triggers(old(lastTriggeringKey), keys)
      ensures lastTriggeringKey == StoredAfter(old(lastTriggeringKey), keys)
    {
      answers := [];
      for n := 0 to |keys|
        invariant Triggers(old(lastTriggeringKey), keys) == answers + Triggers(lastTriggeringKey, keys[n..])
        invariant StoredAfter(old(lastTriggeringKey), keys) == StoredAfter(lastTriggeringKey, keys[n..])
      {
        assert keys[n..][1..] == keys[n + 1..];
        var triggered := Call(keys[n]);
        answers := answers + [triggered];
      }
    }
  }

  /** The answers of successive calls that yield `keys` in turn, starting from the stored key `last`. */
  function Triggers<K(==)>(last: Option<K>, keys: seq<Option<K>>): (answers: seq<bool>)
    ensures |answers| == |keys|
    decreases |keys|
  {
    if keys == [] then []
    else
      var (stored, triggered) := Observe(last, keys[0]);
      [triggered] + Triggers(stored, keys[1..])
  }

  /** The stored key after successive calls that yield `keys` in turn, starting from `last`. */
  function StoredAfter<K(==)>(last: Option<K>, keys: seq<Option<K>>): Option<K>
    decreases |keys|
  {
    if keys == [] then last else StoredAfter(Observe(last, keys[0]).0, keys[1..])
  }

  /**
   * Edge triggering: a call triggers exactly when its key differs from the key the
   * previous call yielded (or, for the first call, from the stored key).
   */
  lemma {:induction false} TriggersOnChange<K>(last: Option<K>, keys: seq<Option<K>>)
    ensures forall i | 0 <= i < |keys| ::
      Triggers(last, keys)[i] <==> keys[i] != (if i == 0 then last else keys[i - 1])
    decreases |keys|
  {
    if keys != [] {
      var rest := keys[1..];
      TriggersOnChange(keys[0], rest);
      assert Triggers(last, keys) == [keys[0] != last] + Triggers(keys[0], rest);
      forall i | 1 <= i < |keys|
        ensures Triggers(last, keys)[i] <==> keys[i] != keys[i - 1]
      {
        assert keys[i] == rest[i - 1];
        assert i >= 2 ==> keys[i - 1] == rest[i - 2];
      }
    }
  }

  /** After at least one call, the stored key is the key the last call yielded. */
  lemma {:induction false} StoredIsLastYielded<K>(last: Option<K>, keys: seq<Option<K>>)
    requires keys != []
    ensures StoredAfter(last, keys) == keys[|keys| - 1]
    decreases |keys|
  {
    if |keys| > 1 {
      StoredIsLastYielded(keys[0], keys[1..]);
    }
  }

  /** Calls that keep yielding the same key trigger at most once, on the first of them. */
  lemma {:induction false} RepeatedKeyTriggersOnce<K>(last: Option<K>, key: Option<K>, keys: seq<Option<K>>)
    requires keys != []
    requires forall i | 0 <= i < |keys| :: keys[i] == key
    ensures Triggers(last, keys)[0] <==> key != last
    ensures forall i | 1 <= i < |keys| :: !Triggers(last, keys)[i]
  {
    TriggersOnChange(last, keys);
    forall i | 1 <= i < |keys|
      ensures !Triggers(last, keys)[i]
    {
      assert keys[i] == key && keys[i - 1] == key;
    }
  }

  /** A fresh handler, whose stored key is nil, does not trigger on a yielded nil. */
  lemma {:induction false} FreshHandlerIgnoresNil<K>(keys: seq<Option<K>>)
    requires keys != [] && keys[0] == None
    ensures !Triggers(None, keys)[0]
  {
    TriggersOnChange(None, keys);
  }
}

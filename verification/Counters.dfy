/** Maps used as counters: a key that was never counted stands at zero. */
module Counters {
  function At<K>(counts: map<K, nat>, key: K): nat {
    if key in counts then counts[key] else 0
  }
}

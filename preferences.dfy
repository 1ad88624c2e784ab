/**
 * The persistent key-value backend (the Arduino `Preferences` library over
 * non-volatile storage), abstracted as a map from namespace to a map from key
 * to the bytes stored there. Whether `begin` opens a namespace and whether a
 * `putBytes` takes effect are decided by the backend and are passed in by the
 * caller as booleans.
 */
module Preferences {

  type Store = map<string, map<string, seq<bv8>>>

  /** The bytes stored under `key` in namespace `ns`; an absent key reads as no bytes. */
  function Lookup(s: Store, ns: string, key: string): seq<bv8> {
    if ns in s && key in s[ns] then s[ns][key] else []
  }

  /** `s` with `v` written under `key` in `ns`, creating the namespace if needed. */
  function Put(s: Store, ns: string, key: string, v: seq<bv8>): (t: Store)
    ensures Lookup(t, ns, key) == v
    ensures forall ns', key' :: (ns', key') != (ns, key) ==> Lookup(t, ns', key') == Lookup(s, ns', key')
  {
    var keys := if ns in s then s[ns] else map[];
    s[ns := keys[key := v]]
  }

  /** `s` with every key of `ns` removed. */
  function Cleared(s: Store, ns: string): (t: Store)
    ensures forall key :: Lookup(t, ns, key) == []
    ensures forall ns', key :: ns' != ns ==> Lookup(t, ns', key) == Lookup(s, ns', key)
  {
    s[ns := map[]]
  }

  /** The non-volatile storage shared by every `Config` object of the program. */
  class Nvs {
    var store: Store

    constructor (initial: Store)
      ensures store == initial
    {
      store := initial;
    }

    /** `getBytesLength`: the stored length of `key`, 0 when it is absent. */
    function GetBytesLength(ns: string, key: string): (n: nat)
      reads this
      ensures n == |Lookup(store, ns, key)|
      ensures (ns !in store || key !in store[ns]) ==> n == 0
    {
      if ns in store && key in store[ns] then |store[ns][key]| else 0
    }

    /**
     * `getBytes`: copies the value of `key` into `buf` when it fits in `len`
     * bytes and returns its length; otherwise copies nothing and returns 0.
     */
    method GetBytes(ns: string, key: string, buf: array<bv8>, len: nat) returns (n: nat)
      requires len <= buf.Length
      modifies buf
      ensures var v := Lookup(store, ns, key);
        if |v| <= len then n == |v| && buf[..|v|] == v && buf[|v|..] == old(buf[|v|..])
        else n == 0 && buf[..] == old(buf[..])
    {
      var v := Lookup(store, ns, key);
      if |v| <= len {
        forall i | 0 <= i < |v| {
          buf[i] := v[i];
        }
        n := |v|;
      } else {
        n := 0;
      }
    }

    /**
     * `putBytes`: stores the first `len` bytes of `buf` under `key` and returns
     * `len`, or, when the backend refuses, changes nothing and returns 0.
     */
    method PutBytes(ns: string, key: string, buf: array<bv8>, len: nat, accepted: bool) returns (n: nat)
      requires len <= buf.Length
      modifies this
      ensures store == if accepted then Put(old(store), ns, key, buf[..len]) else old(store)
      ensures n == if accepted then len else 0
    {
      if accepted {
        store := Put(store, ns, key, buf[..len]);
        n := len;
      } else {
        n := 0;
      }
    }

    /** `clear`: removes every key of namespace `ns`. */
    method Clear(ns: string)
      modifies this
      ensures store == Cleared(old(store), ns)
    {
      store := Cleared(store, ns);
    }
  }
}

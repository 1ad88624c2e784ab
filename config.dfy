/**
 * `Olon::Config<T>`: a fixed-size configuration record kept in one namespace
 * of the non-volatile store under the key "config", guarded by a checksum,
 * with a fall-back to the record's default value.
 *
 * The record type `T` is modelled by its bytes: `size` is `sizeof(T)` and
 * `defaults` the bytes of a default-constructed `T`.
 */
module OlonConfig {
  import opened Crc16
  import opened Blob
  import opened Preferences

  /** The single key every configuration is stored under. */
  const ConfigKey: string := "config"

  /**
   * The record that `read` accepts from store `s` for namespace `name`:
   * none when the read-only open fails, otherwise what `Decode` accepts of
   * the stored blob.
   */
  function Loaded(s: Store, name: string, size: nat, roOpens: bool): Option<seq<bv8>> {
    if !roOpens then None else Decode(Lookup(s, name, ConfigKey), size)
  }

  /** The store after `write` of record `d` to namespace `name`. */
  function Saved(s: Store, name: string, d: seq<bv8>, rwOpens: bool, putAccepted: bool): Store {
    if rwOpens && putAccepted then Put(s, name, ConfigKey, Encode(d)) else s
  }

  /** `read` accepts exactly a blob that `write` could have stored. */
  lemma LoadedIff(s: Store, name: string, size: nat, roOpens: bool, d: seq<bv8>)
    ensures Loaded(s, name, size, roOpens) == Some(d)
        <==> roOpens && |d| == size && Lookup(s, name, ConfigKey) == Encode(d)
  {
    DecodeOnlyEncodings(Lookup(s, name, ConfigKey), size, d);
  }

  /** After a successful `write`, a `read` of the same namespace gives back the record. */
  lemma WriteThenRead(s: Store, name: string, d: seq<bv8>)
    ensures Loaded(Saved(s, name, d, true, true), name, |d|, true) == Some(d)
  {
    DecodeEncode(d);
  }

  /** A `write` to another namespace does not change what `read` finds. */
  lemma WriteElsewhere(s: Store, name: string, other: string, d: seq<bv8>, rwOpens: bool,
                       putAccepted: bool, size: nat, roOpens: bool)
    requires other != name
    ensures Loaded(Saved(s, other, d, rwOpens, putAccepted), name, size, roOpens)
         == Loaded(s, name, size, roOpens)
  {
  }

  /** After the namespace is cleared, `read` finds nothing, as for an absent key. */
  lemma ClearedReadsNothing(s: Store, name: string, size: nat, roOpens: bool)
    ensures Lookup(Cleared(s, name), name, ConfigKey) == []
    ensures Loaded(Cleared(s, name), name, size, roOpens) == None
  {
  }

  /** Writing the same record twice leaves the store as writing it once. */
  lemma SavedTwice(s: Store, name: string, d: seq<bv8>, rwOpens: bool, putAccepted: bool)
    ensures Saved(Saved(s, name, d, rwOpens, putAccepted), name, d, rwOpens, putAccepted)
         == Saved(s, name, d, rwOpens, putAccepted)
  {
    if rwOpens && putAccepted {
      var once := Put(s, name, ConfigKey, Encode(d));
      var keys := once[name];
      assert keys[ConfigKey := Encode(d)] == keys;
    }
  }

  /**
   * A failed `read` whose fall-back `write` goes through leaves the defaults
   * stored, so the next `read` that opens the namespace accepts them.
   */
  lemma FailedReadRepairs(s: Store, name: string, defaults: seq<bv8>, roOpens: bool)
    ensures Loaded(Saved(s, name, defaults, true, true), name, |defaults|, roOpens)
         == if roOpens then Some(defaults) else None
  {
    if roOpens {
      WriteThenRead(s, name, defaults);
    }
  }

  class Config {
    const name: string
    /** `sizeof(T)`. */
    const size: nat
    /** The bytes of a default-constructed `T`. */
    const defaults: seq<bv8>
    /** The non-volatile storage the namespace lives in. */
    const nvs: Nvs
    /** The record, public in the source and changed by the caller between `read` and `write`. */
    var data: seq<bv8>
    /** `_valid`. */
    var validFlag: bool

    ghost predicate Wellformed()
      reads this
    {
      size >= 1 && |defaults| == size && |data| == size
    }

    /** `Config(name)`: binds the namespace; `data` holds the default record and is not yet valid. */
    constructor (name: string, defaults: seq<bv8>, nvs: Nvs)
      requires |defaults| >= 1
      ensures Wellformed()
      ensures this.name == name && this.size == |defaults| && this.defaults == defaults && this.nvs == nvs
      ensures data == defaults && !validFlag
    {
      this.name := name;
      this.size := |defaults|;
      this.defaults := defaults;
      this.nvs := nvs;
      data := defaults;
      validFlag := false;
    }

    /**
     * `write`: when the namespace opens read-write, builds the blob of the
     * record followed by its checksum, low byte first, and hands it to
     * `putBytes`; returns whether the namespace opened, whatever `putBytes`
     * reported. `data` and `validFlag` are untouched.
     */
    method Write(rwOpens: bool, putAccepted: bool) returns (ok: bool)
      requires Wellformed()
      modifies nvs
      ensures ok == rwOpens
      ensures nvs.store == Saved(old(nvs.store), name, data, rwOpens, putAccepted)
      ensures rwOpens && putAccepted ==> Lookup(nvs.store, name, ConfigKey) == Encode(data)
      ensures forall ns, key :: (ns, key) != (name, ConfigKey) ==>
        Lookup(nvs.store, ns, key) == Lookup(old(nvs.store), ns, key)
    {
      if !rwOpens {
        return false;
      }
      var memBytes := new bv8[size + 2];
      forall i | 0 <= i < size {
        memBytes[i] := data[i];
      }
      assert memBytes[..size] == data;
      var crc := Compute(memBytes, size);
      memBytes[size] := (crc & 0xFF) as bv8;
      memBytes[size + 1] := ((crc >> 8) & 0xFF) as bv8;
      assert memBytes[..size] == data;
      assert memBytes[..] == Encode(data) by {
        assert memBytes[..] == memBytes[..size] + [memBytes[size], memBytes[size + 1]];
      }
      assert memBytes[..size + 2] == Encode(data);
      var savedBytes := nvs.PutBytes(name, ConfigKey, memBytes, size + 2, putAccepted);
      return true;
    }

    /**
     * `writeDefaults`: resets `data` to the default record, tries to store it,
     * and marks the record valid whether or not storing succeeded.
     */
    method WriteDefaults(rwOpens: bool, putAccepted: bool)
      requires Wellformed()
      modifies this, nvs
      ensures Wellformed()
      ensures data == defaults && validFlag
      ensures nvs.store == Saved(old(nvs.store), name, defaults, rwOpens, putAccepted)
    {
      data := defaults;
      var _ := Write(rwOpens, putAccepted);
      validFlag := true;
    }

    /**
     * `read`: opens the namespace read-only; checks that the stored length is
     * exactly `size + 2`; reads the blob and compares its little-endian
     * checksum with the checksum of its first `size` bytes. Only when all of
     * that passes does `data` take the stored record; every failure resets to
     * the defaults through `writeDefaults`. Either way the record ends valid.
     */
    method Read(roOpens: bool, rwOpens: bool, putAccepted: bool) returns (ok: bool)
      requires Wellformed()
      modifies this, nvs
      ensures Wellformed() && validFlag
      ensures ok == Loaded(old(nvs.store), name, size, roOpens).Some?
      ensures ok ==> data == Loaded(old(nvs.store), name, size, roOpens).value
      ensures ok ==> nvs.store == old(nvs.store)
      ensures !ok ==> data == defaults
      ensures !ok ==> nvs.store == Saved(old(nvs.store), name, defaults, rwOpens, putAccepted)
      ensures !roOpens ==> !ok
      ensures |Lookup(old(nvs.store), name, ConfigKey)| != size + 2 ==> !ok
      ensures var blob := Lookup(old(nvs.store), name, ConfigKey);
        |blob| == size + 2 && StoredCrc(blob) != Checksum(blob[..size]) ==> !ok
    {
      validFlag := false;
      if !roOpens {
        WriteDefaults(rwOpens, putAccepted);
        return false;
      }
      var configLen := nvs.GetBytesLength(name, ConfigKey);
      if size + 2 != configLen {
        WriteDefaults(rwOpens, putAccepted);
        return false;
      }
      var memBytes := new bv8[configLen];
      var _ := nvs.GetBytes(name, ConfigKey, memBytes, configLen);
      assert memBytes[..] == Lookup(nvs.store, name, ConfigKey);
      var savedCrc := (memBytes[configLen - 2] as bv16) | ((memBytes[configLen - 1] as bv16) << 8);
      var calculatedCrc := Compute(memBytes, configLen - 2);
      if savedCrc != calculatedCrc {
        WriteDefaults(rwOpens, putAccepted);
        return false;
      }
      data := memBytes[..size];
      validFlag := true;
      return true;
    }

    /** `valid`: whether the record is valid. */
    method Valid() returns (v: bool)
      ensures v == validFlag
    {
      return validFlag;
    }

    /**
     * `deleteConfig`: when the namespace opens read-write, removes every key
     * in it; `data` and `validFlag` are untouched.
     */
    method DeleteConfig(rwOpens: bool)
      modifies nvs
      ensures nvs.store == if rwOpens then Cleared(old(nvs.store), name) else old(nvs.store)
    {
      if !rwOpens {
        return;
      }
      nvs.Clear(name);
    }
  }

  /**
   * Saving through one `Config` and loading through another bound to the
   * same namespace (or the same one) yields the saved record, valid.
   */
  method SaveThenLoad(writer: Config, reader: Config, rwOpens: bool, putAccepted: bool) returns (ok: bool)
    requires writer.Wellformed() && reader.Wellformed()
    requires writer.nvs == reader.nvs && writer.name == reader.name && writer.size == reader.size
    modifies writer.nvs, reader
    ensures ok && reader.data == old(writer.data) && reader.validFlag
  {
    var saved := writer.Write(true, true);
    WriteThenRead(old(writer.nvs.store), writer.name, writer.data);
    ok := reader.Read(true, rwOpens, putAccepted);
  }

  /** After `deleteConfig`, `read` fails as for an absent key and leaves the defaults. */
  method DeleteThenLoad(c: Config, roOpens: bool, rwOpens: bool, putAccepted: bool) returns (ok: bool)
    requires c.Wellformed()
    modifies c, c.nvs
    ensures !ok && c.data == c.defaults && c.validFlag
    ensures c.nvs.store == Saved(Cleared(old(c.nvs.store), c.name), c.name, c.defaults, rwOpens, putAccepted)
  {
    c.DeleteConfig(true);
    ClearedReadsNothing(old(c.nvs.store), c.name, c.size, roOpens);
    ok := c.Read(roOpens, rwOpens, putAccepted);
  }

  /** Two successive `writeDefaults` leave the same record and the same store as one. */
  method WriteDefaultsTwice(c: Config, rwOpens: bool, putAccepted: bool)
    requires c.Wellformed()
    modifies c, c.nvs
    ensures c.data == c.defaults && c.validFlag
    ensures c.nvs.store == Saved(old(c.nvs.store), c.name, c.defaults, rwOpens, putAccepted)
  {
    c.WriteDefaults(rwOpens, putAccepted);
    ghost var once := c.data;
    c.WriteDefaults(rwOpens, putAccepted);
    assert c.data == once;
    SavedTwice(old(c.nvs.store), c.name, c.defaults, rwOpens, putAccepted);
  }
}

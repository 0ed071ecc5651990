/** The per-bucket key store and the file behind it. */
module KeyStore {
  import opened Bytes
  import opened Environment

  const KEY_LEN := 32

  datatype KeyErr = KeyOk | KeyExists | KeyNotFound | FlushFailed

  /** keys is what the process holds, disk what the keys file holds. */
  class Store {
    var keys: map<string, Bytes>
    var disk: map<string, Bytes>

    ghost predicate Valid()
      reads this
    {
      disk == keys && forall b :: b in keys ==> |keys[b]| == KEY_LEN
    }

    constructor ()
      ensures Valid() && keys == map[]
    {
      keys, disk := map[], map[];
    }

    /** Writes the whole file through a temporary file and a rename: all of it or nothing of it. */
    method FlushLocked(calm: bool) returns (ok: bool)
      modifies this`disk
      ensures disk == if ok then keys else old(disk)
      ensures calm ==> ok
    {
      var fails := Fails(calm);
      ok := !fails;
      if ok {
        disk := keys;
      }
    }

    method Create(bucket: string, random: Bytes, calm: bool) returns (err: KeyErr)
      requires Valid() && |random| == KEY_LEN
      modifies this
      ensures Valid()
      ensures err == KeyExists <==> bucket in old(keys)
      ensures err != KeyNotFound && (calm ==> err != FlushFailed)
      ensures keys == if err == KeyOk then old(keys)[bucket := random] else old(keys)
    {
      if bucket in keys {
        return KeyExists;
      }
      keys := keys[bucket := random];
      var ok := FlushLocked(calm);
      if !ok {
        keys := keys - {bucket};
        return FlushFailed;
      }
      return KeyOk;
    }

    method Remove(bucket: string, calm: bool) returns (err: KeyErr)
      requires Valid()
      modifies this
      ensures Valid()
      ensures err == KeyNotFound <==> bucket !in old(keys)
      ensures err != KeyExists && (calm ==> err != FlushFailed)
      ensures keys == if err == KeyOk then old(keys) - {bucket} else old(keys)
    {
      if bucket !in keys {
        return KeyNotFound;
      }
      var saved := keys[bucket];
      keys := keys - {bucket};
      var ok := FlushLocked(calm);
      if !ok {
        keys := keys[bucket := saved];
        return FlushFailed;
      }
      return KeyOk;
    }

    /** Load, as a restarted process does it. */
    method Reload()
      requires Valid()
      modifies this
      ensures Valid() && keys == old(keys)
    {
      keys := disk;
    }
  }
}

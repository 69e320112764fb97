/** Physical row keys: the bytes of a path, and how many of them lead up to the row's own key. */
module Keys {
  import opened Bytes

  datatype DbKey = DbKey(path: Bytes, prefixLen: nat) {
    function AddBucket(bucket: Bytes): DbKey {
      DbKey(path + bucket, prefixLen + |bucket|)
    }

    function AddKey(key: Bytes): DbKey {
      DbKey(path + key, prefixLen + |key|)
    }

    function AddSuffix(suffix: Bytes): DbKey {
      DbKey(path + suffix, prefixLen)
    }
  }

  function New(prefix: Bytes, key: Bytes): DbKey {
    DbKey(prefix + key, |prefix|)
  }

  function PrefixOnly(prefix: Bytes): DbKey {
    New(prefix, [])
  }

  function NewWithBucket(prefix: Bytes, bucket: Bytes, key: Bytes): DbKey {
    PrefixOnly(prefix).AddBucket(bucket).AddKey(key)
  }
}

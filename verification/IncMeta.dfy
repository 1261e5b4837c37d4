/** The metadata of incremental tables: records stored as values of the key-value table. */
module IncMeta {
  import opened Bytes
  import opened Codec
  import K = KvTable

  /** The bytes of a name. */
  function ToBytes(s: string): (b: seq<byte>)
    ensures |b| == |s| && forall i :: 0 <= i < |s| ==> b[i] == s[i] as int % 256
  {
    seq(|s|, i requires 0 <= i < |s| => s[i] as int % 256)
  }

  /** The name of the file that holds the rows of a table. */
  function FileName(key: string): seq<byte> {
    ToBytes("inc_table_" + key + ".tbl")
  }

  /** Metadata with a longer name could not be read back; see MetaThroughFrameExactly. */
  predicate NameFits(key: string) { |FileName(key)| < 0xffff_fffe }

  class MetaStore {
    const kv: K.KvTable
    /** The entry sizes of the tables that have metadata here. */
    ghost var sizes: map<string, uint64>

    ghost function Footprint(): set<object> {
      {this, kv, kv.file, kv.freeList, kv.index, kv.index.shards}
    }

    ghost predicate StoredAt(key: string)
      reads this`sizes, kv`values
      requires key in sizes
    {
      NameFits(key) && key in kv.values && kv.values[key] == MetaBytes(TableMeta(sizes[key], FileName(key)))
    }

    ghost predicate Stored()
      reads this`sizes, kv`values
    {
      forall key {:trigger StoredAt(key)} :: key in sizes ==> StoredAt(key)
    }

    ghost predicate Valid()
      reads Footprint()
    {
      kv.Valid() && Stored()
    }

    /** Nothing but metadata or nothing at all is stored under the key. */
    ghost predicate Reserved(key: string)
      reads this`sizes, kv`values
    {
      NameFits(key) && (key in kv.values ==> key in sizes)
    }

    constructor (kv: K.KvTable)
      requires kv.Valid()
      ensures Valid() && sizes == map[] && this.kv == kv
    {
      this.kv, sizes := kv, map[];
    }

    method Exists(key: string) returns (found: bool)
      requires Valid() && Reserved(key)
      ensures found <==> key in sizes
    {
      var extent := kv.index.LoadEntry(key);
      found := extent.Some?;
      assert key in sizes ==> StoredAt(key);
    }

    method Create(key: string, entrySize: uint64)
      requires Valid() && NameFits(key) && key !in sizes
      modifies Footprint()
      ensures Valid() && sizes == old(sizes)[key := entrySize]
      ensures kv.values == old(kv.values)[key := MetaBytes(TableMeta(entrySize, ToBytes("inc_table_" + key + ".tbl")))]
    {
      var body := StructToBytes(TableMeta(entrySize, FileName(key)));
      assert forall k :: k in sizes ==> StoredAt(k);
      var _ := kv.Put(key, body.value);
      sizes := sizes[key := entrySize];
    }

    /** Through the extent and the frame back to the record. */
    method EntrySize(key: string) returns (entrySize: uint64)
      requires Valid() && key in sizes
      ensures entrySize == sizes[key]
    {
      assert StoredAt(key);
      var meta := TableMeta(sizes[key], FileName(key));
      MetaThroughFrameExactly(meta);
      UnframeFrame(MetaBytes(meta));
      var raw := kv.Read(key);
      var info := BytesToStruct(raw.data);
      entrySize := info.value.entrySize;
    }

    method Drop(key: string)
      requires Valid() && key in sizes
      modifies Footprint()
      ensures Valid() && sizes == old(sizes) - {key} && kv.values == old(kv.values) - {key}
    {
      assert forall k :: k in sizes ==> StoredAt(k);
      var found := kv.Free(key);
      sizes := sizes - {key};
    }
  }
}

/** The metadata files of the vault: a JSON payload followed by its 32-byte HMAC,
    stored under the item's own id. */
module Metadata {
  import opened Wrappers
  import opened Crypto
  import opened Names

  type Files = map<Name, Bytes>

  /** Every metadata file is long enough to be sliced into payload and HMAC. */
  predicate Readable(files: Files) {
    forall name | name in files :: IsMetadataName(name) ==> |files[name]| >= 32
  }

  function Frame(p: Primitives, secret: Bytes, item: Item): Bytes {
    p.encodeItem(item) + p.hmac(secret, p.encodeItem(item))
  }

  /** What reading one metadata file gives. */
  function Unframe(p: Primitives, secret: Bytes, name: Name, data: Bytes): Option<Item>
    requires |data| >= 32
  {
    var payload := data[..|data| - 32];
    if p.hmac(secret, payload) != data[|data| - 32..] then None
    else match p.decodeItem(payload)
      case None => None
      case Some(item) => if name == MetadataFile(item.id) then Some(item) else None
  }

  /** The item the metadata file of `id` holds, if it is genuine. */
  function GenuineItem(p: Primitives, secret: Bytes, files: Files, id: Uuid): Option<Item> {
    var name := MetadataFile(id);
    if name in files && |files[name]| >= 32 then Unframe(p, secret, name, files[name]) else None
  }

  /** The index the files describe. */
  function Index(p: Primitives, secret: Bytes, files: Files): map<Uuid, Item> {
    map name | name in files && name.MetadataFile? && GenuineItem(p, secret, files, name.id).Some? ::
      name.id := GenuineItem(p, secret, files, name.id).value
  }

  lemma IndexLookup(p: Primitives, secret: Bytes, files: Files, id: Uuid)
    ensures Find(Index(p, secret, files), id) == GenuineItem(p, secret, files, id)
  {
    if GenuineItem(p, secret, files, id).Some? {
      assert MetadataFile(id) in files;
    }
  }

  /** Writing an item's metadata and reading it back gives the item. */
  lemma FrameRoundTrip(p: Primitives, secret: Bytes, item: Item)
    requires Lawful(p)
    ensures |Frame(p, secret, item)| >= 32
    ensures Unframe(p, secret, MetadataFile(item.id), Frame(p, secret, item)) == Some(item)
  {
    var data := Frame(p, secret, item);
    assert data[..|data| - 32] == p.encodeItem(item);
    assert data[|data| - 32..] == p.hmac(secret, p.encodeItem(item));
  }

  /** An item is indexed under its own id. */
  lemma IndexedUnderOwnId(p: Primitives, secret: Bytes, files: Files, id: Uuid)
    requires id in Index(p, secret, files)
    ensures Index(p, secret, files)[id].id == id
  {
    IndexLookup(p, secret, files, id);
  }

  /** The index holds precisely the items whose file is a payload followed by its HMAC,
      decodes, and is named after the item's own id. */
  lemma IndexIsExact(p: Primitives, secret: Bytes, files: Files, id: Uuid, item: Item)
    requires Lawful(p)
    ensures Find(Index(p, secret, files), id) == Some(item) <==>
            item.id == id &&
            exists payload :: Find(files, MetadataFile(id)) == Some(payload + p.hmac(secret, payload)) &&
                              p.decodeItem(payload) == Some(item)
  {
    hide Index;
    IndexLookup(p, secret, files, id);
    var data := Find(files, MetadataFile(id));
    if GenuineItem(p, secret, files, id) == Some(item) {
      var payload := data.value[..|data.value| - 32];
      assert data.value == payload + data.value[|data.value| - 32..];
      assert data == Some(payload + p.hmac(secret, payload)) && p.decodeItem(payload) == Some(item);
    }
    if payload :| data == Some(payload + p.hmac(secret, payload)) && p.decodeItem(payload) == Some(item) {
      assert data.value[..|data.value| - 32] == payload;
      assert data.value[|data.value| - 32..] == p.hmac(secret, payload);
    }
  }

  /** The index is the one given entry by entry. */
  lemma IndexFromEntries(p: Primitives, secret: Bytes, files: Files, index: map<Uuid, Item>)
    requires forall id :: GenuineItem(p, secret, files, id) == Find(index, id)
    ensures Index(p, secret, files) == index
  {
    forall id: Uuid
      ensures id in index <==> id in Index(p, secret, files)
      ensures id in index ==> index[id] == Index(p, secret, files)[id]
    {
      IndexLookup(p, secret, files, id);
    }
  }

  lemma IndexAfterMetadataWrite(p: Primitives, secret: Bytes, files: Files, item: Item)
    requires Lawful(p)
    ensures var files' := files[MetadataFile(item.id) := Frame(p, secret, item)];
      && Index(p, secret, files') == Index(p, secret, files)[item.id := item]
      && (Readable(files) ==> Readable(files'))
  {
    var files' := files[MetadataFile(item.id) := Frame(p, secret, item)];
    FrameRoundTrip(p, secret, item);
    var index := Index(p, secret, files)[item.id := item];
    forall id ensures GenuineItem(p, secret, files', id) == Find(index, id) {
      IndexLookup(p, secret, files, id);
    }
    IndexFromEntries(p, secret, files', index);
  }

  /** Only the metadata files matter. */
  lemma SameIndex(p: Primitives, secret: Bytes, files: Files, files': Files)
    requires forall name :: IsMetadataName(name) ==> Find(files', name) == Find(files, name)
    ensures Index(p, secret, files') == Index(p, secret, files)
    ensures Readable(files') <==> Readable(files)
  {
    var index := Index(p, secret, files);
    forall id ensures GenuineItem(p, secret, files', id) == Find(index, id) {
      IndexLookup(p, secret, files, id);
      assert Find(files', MetadataFile(id)) == Find(files, MetadataFile(id));
    }
    IndexFromEntries(p, secret, files', index);
    forall name | IsMetadataName(name) ensures name in files <==> name in files' {
      assert Find(files', name) == Find(files, name);
    }
  }

  lemma IndexAfterOtherWrite(p: Primitives, secret: Bytes, files: Files, name: Name, data: Bytes)
    requires !IsMetadataName(name)
    ensures Index(p, secret, files[name := data]) == Index(p, secret, files)
    ensures Readable(files[name := data]) <==> Readable(files)
  {
    SameIndex(p, secret, files, files[name := data]);
  }

  lemma IndexAfterDelete(p: Primitives, secret: Bytes, files: Files, name: Name)
    ensures Index(p, secret, files - {name}) ==
            if name.MetadataFile? then Index(p, secret, files) - {name.id} else Index(p, secret, files)
    ensures Readable(files) ==> Readable(files - {name})
  {
    var index := if name.MetadataFile? then Index(p, secret, files) - {name.id} else Index(p, secret, files);
    forall id ensures GenuineItem(p, secret, files - {name}, id) == Find(index, id) {
      IndexLookup(p, secret, files, id);
    }
    IndexFromEntries(p, secret, files - {name}, index);
  }
}

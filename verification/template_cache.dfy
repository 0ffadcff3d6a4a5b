// The expiring snapshot cache of src/modules/email/email-template-cache.service.ts and
// the rows it shadows.
module TemplateCache {
  import opened Wrappers
  import opened TemplateRegistry
  import opened TemplateValidation

  datatype Container = Container(id: string, name: string, htmlShell: string, isDefault: bool)

  datatype Content = Content(id: string, key: TemplateKey, name: string, fields: ContentFields,
                             containerId: string, enabled: bool)

  datatype CacheEntry = CacheEntry(content: Option<Content>, container: Option<Container>)

  datatype CacheRecord = CacheRecord(entry: CacheEntry, expiresAt: int)

  class EmailTemplateCacheService {
    const ttlMs: int
    var store: map<TemplateKey, CacheRecord>

    constructor (ttlMs: int)
      ensures this.ttlMs == ttlMs && store == map[]
    {
      this.ttlMs := ttlMs;
      store := map[];
    }

    /** A record is served strictly before it expires and dropped afterwards. */
    method Get(key: TemplateKey, now: int) returns (r: Option<CacheEntry>)
      modifies this
      ensures r == if key in old(store) && now < old(store)[key].expiresAt then Some(old(store)[key].entry) else None
      ensures store == if r.Some? then old(store) else old(store) - {key}
    {
      if key !in store {
        assert store - {key} == store;
        return None;
      }
      var record := store[key];
      if now >= record.expiresAt {
        store := store - {key};
        return None;
      }
      return Some(record.entry);
    }

    method Set(key: TemplateKey, entry: CacheEntry, now: int)
      modifies this
      ensures store == old(store)[key := CacheRecord(entry, now + ttlMs)]
    {
      store := store[key := CacheRecord(entry, now + ttlMs)];
    }

    method InvalidateKey(key: TemplateKey)
      modifies this
      ensures store == old(store) - {key}
    {
      store := store - {key};
    }

    method InvalidateAll()
      modifies this
      ensures store == map[]
    {
      store := map[];
    }
  }

  // ---- Rows -------------------------------------------------------------------

  ghost predicate UniqueKeys(contents: map<string, Content>) {
    forall i, j :: i in contents && j in contents && contents[i].key == contents[j].key ==> i == j
  }

  /** `contentRepo.findOne({ where: { key } })` */
  ghost function ContentRow(contents: map<string, Content>, key: TemplateKey): Option<Content> {
    if id :| id in contents && contents[id].key == key then Some(contents[id]) else None
  }

  function ContainerRow(containers: map<string, Container>, id: string): Option<Container> {
    if id in containers then Some(containers[id]) else None
  }

  /** What an uncached read of the two tables yields for `key`. */
  ghost function FreshEntry(contents: map<string, Content>, containers: map<string, Container>,
                            key: TemplateKey): CacheEntry {
    var content := ContentRow(contents, key);
    CacheEntry(content, if content.Some? then ContainerRow(containers, content.value.containerId) else None)
  }

  lemma ContentRowIs(contents: map<string, Content>, id: string)
    requires UniqueKeys(contents) && id in contents
    ensures ContentRow(contents, contents[id].key) == Some(contents[id])
  {
  }

  /** Rewriting one row without changing its key leaves every other key's row alone. */
  lemma OtherKeysUnaffected(contents: map<string, Content>, id: string, row: Content, key: TemplateKey)
    requires UniqueKeys(contents) && id in contents && row.key == contents[id].key && key != row.key
    ensures UniqueKeys(contents[id := row]) && ContentRow(contents[id := row], key) == ContentRow(contents, key)
  {
    var after := contents[id := row];
    if j :| j in contents && contents[j].key == key {
      assert after[j] == contents[j];
      ContentRowIs(contents, j);
      ContentRowIs(after, j);
    } else if j :| j in after && after[j].key == key {
      assert false;
    }
  }

  /** Every record of the store, expired or not, is what a fresh read would give. */
  ghost predicate Coherent(store: map<TemplateKey, CacheRecord>, contents: map<string, Content>,
                           containers: map<string, Container>)
  {
    forall key :: key in store ==> store[key].entry == FreshEntry(contents, containers, key)
  }

  // ---- The default container --------------------------------------------------

  /** `update({ isDefault: true }, { isDefault: false })` */
  function ClearDefaults(containers: map<string, Container>): map<string, Container> {
    map id | id in containers :: containers[id].(isDefault := false)
  }

  ghost predicate AtMostOneDefault(containers: map<string, Container>) {
    forall i, j :: i in containers && j in containers && containers[i].isDefault && containers[j].isDefault ==> i == j
  }

  ghost predicate HasDefault(containers: map<string, Container>) {
    exists i :: i in containers && containers[i].isDefault
  }

  /** `containerRepo.findOne({ where: { isDefault: true } })` */
  ghost function DefaultContainer(containers: map<string, Container>): Option<Container> {
    if id :| id in containers && containers[id].isDefault then Some(containers[id]) else None
  }
}

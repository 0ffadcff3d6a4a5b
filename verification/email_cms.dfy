// Content management writes and rendering over one database and one cache
// (src/modules/email/email-cms.service.ts, src/modules/email/email-template-renderer.service.ts).
// Each method is one atomic step; `now` is the clock at that step.
module EmailCms {
  import opened Wrappers
  import opened Text
  import opened TemplateMerge
  import opened ContentSlot
  import opened SlotSpelling
  import opened TemplateRegistry
  import opened TemplateValidation
  import opened TemplateRenderer
  import opened TemplateCache

  datatype FallbackReason = Missing | Disabled | ContainerMissing

  datatype Rendered = Fallback(reason: FallbackReason) | Merged(result: EmailTemplateResult)

  datatype SaveResult = Saved | NotFound | Rejected(code: string) | DefaultRequired | StorageError

  /** The rows at rest: each was validated when it was saved. */
  ghost predicate RowsValid(contents: map<string, Content>, containers: map<string, Container>,
                            scan: string -> seq<string>) {
    && UniqueKeys(contents)
    && (forall id :: id in contents ==>
          contents[id].id == id && ContentAccepted(contents[id].key, contents[id].fields, scan))
    && (forall id :: id in contents ==> contents[id].containerId in containers)
    && (forall id :: id in containers ==> containers[id].id == id && ShellAccepted(containers[id].htmlShell, scan))
    && AtMostOneDefault(containers)
  }

  /** Rendering with no cache at all. */
  ghost function RenderFromRows(contents: map<string, Content>, containers: map<string, Container>, key: TemplateKey,
                                vars: Vars, logoUrl: string, toPlain: string -> string): Rendered
  {
    match ContentRow(contents, key)
    case None => Fallback(Missing)
    case Some(c) =>
      if !c.enabled then Fallback(Disabled)
      else
        var own := ContainerRow(containers, c.containerId);
        var container := if own.Some? then own else DefaultContainer(containers);
        if container.None? then Fallback(ContainerMissing)
        else Merged(MergeResult(c.key, c.fields, container.value.htmlShell, vars, logoUrl, toPlain))
  }

  class EmailService {
    var contents: map<string, Content>
    var containers: map<string, Container>
    const cache: EmailTemplateCacheService
    const logoUrl: string
    const scan: string -> seq<string>
    const toPlain: string -> string

    ghost predicate Valid()
      reads this, cache
    {
      RowsValid(contents, containers, scan) && Coherent(cache.store, contents, containers)
    }

    /** Starts from seeded rows and an empty cache. */
    constructor (contents: map<string, Content>, containers: map<string, Container>, ttlMs: int, logoUrl: string,
                 scan: string -> seq<string>, toPlain: string -> string)
      requires RowsValid(contents, containers, scan)
      ensures Valid() && fresh(cache)
      ensures this.contents == contents && this.containers == containers
      ensures this.logoUrl == logoUrl && this.scan == scan && this.toPlain == toPlain
    {
      this.contents, this.containers := contents, containers;
      this.logoUrl, this.scan, this.toPlain := logoUrl, scan, toPlain;
      this.cache := new EmailTemplateCacheService(ttlMs);
    }

    // ---- Rendering ------------------------------------------------------------

    /** `contentRepo.findOne({ where: { key } })` */
    method FindContent(key: TemplateKey) returns (r: Option<Content>)
      requires UniqueKeys(contents)
      ensures r == ContentRow(contents, key)
    {
      if id :| id in contents && contents[id].key == key {
        ContentRowIs(contents, id);
        return Some(contents[id]);
      }
      return None;
    }

    method LoadEntry(key: TemplateKey, now: int) returns (entry: CacheEntry)
      requires Valid()
      modifies cache
      ensures Valid() && entry == FreshEntry(contents, containers, key)
    {
      hide ContentRow, RowsValid;
      assert UniqueKeys(contents) by { KeysAreUnique(contents, containers, scan); }
      var cached := cache.Get(key, now);
      if cached.Some? {
        return cached.value;
      }
      var content := FindContent(key);
      var container := if content.Some? then ContainerRow(containers, content.value.containerId) else None;
      entry := CacheEntry(content, container);
      cache.Set(key, entry, now);
    }

    /** Rendering through the cache gives what rendering from the current rows gives. */
    method RenderForSend(key: TemplateKey, vars: Vars, now: int) returns (r: Rendered)
      requires Valid()
      modifies cache
      ensures Valid()
      ensures r == RenderFromRows(contents, containers, key, vars, logoUrl, toPlain)
      ensures forall id :: id in contents && contents[id].key == key && contents[id].enabled ==>
                && contents[id].containerId in containers
                && r == Merged(MergeResult(key, contents[id].fields, containers[contents[id].containerId].htmlShell,
                                           vars, logoUrl, toPlain))
                && (!SpellsSlot(logoUrl) ==>
                      forall p, m, s :: SplitsAs(containers[contents[id].containerId].htmlShell, p, m, s) ==>
                        r.result.html
                        == MergedShell(p, key, vars, logoUrl)
                           + (MergedBody(key, contents[id].fields, vars, logoUrl)
                              + MergedShell(s, key, vars, logoUrl)))
      ensures (exists id :: id in contents && contents[id].key == key && !contents[id].enabled)
              ==> r == Fallback(Disabled)
      ensures (forall id :: id in contents ==> contents[id].key != key) ==> r == Fallback(Missing)
    {
      hide MergeResult, ContentAccepted, ShellAccepted, SpellsSlot, SplitsAs, MergedShell, MergedBody;
      RowsAreSent(contents, containers, scan, key, vars, logoUrl, toPlain);
      var entry := LoadEntry(key, now);
      if entry.content.None? {
        return Fallback(Missing);
      }
      var content := entry.content.value;
      if !content.enabled {
        return Fallback(Disabled);
      }
      var container := entry.container;
      if container.None? || container.value.id != content.containerId {
        container := ContainerRow(containers, content.containerId);
      }
      if container.None? {
        container := FindDefault();
      }
      if container.None? {
        return Fallback(ContainerMissing);
      }
      var result := Merge(content.key, content.fields, container.value.htmlShell, vars, logoUrl, toPlain);
      return Merged(result);
    }

    method FindDefault() returns (r: Option<Container>)
      requires AtMostOneDefault(containers)
      ensures r == DefaultContainer(containers)
      ensures r.Some? ==> exists id :: id in containers && containers[id] == r.value && r.value.isDefault
      ensures r.None? ==> forall id :: id in containers ==> !containers[id].isDefault
    {
      if id :| id in containers && containers[id].isDefault {
        return Some(containers[id]);
      }
      return None;
    }

    // ---- Containers -----------------------------------------------------------

    method CreateContainer(id: string, name: string, htmlShell: string, isDefault: Option<bool>) returns (r: SaveResult)
      requires Valid() && id !in containers
      modifies this`containers, cache
      ensures Valid()
      ensures r == if ShellAccepted(htmlShell, scan) then Saved else Rejected(ShellCode(htmlShell, scan))
      ensures r.Saved? ==> containers == PutContainer(old(containers), isDefault == Some(true),
                                                      Container(id, name, htmlShell, isDefault == Some(true)))
      ensures r.Saved? ==>
                && containers.Keys == old(containers).Keys + {id}
                && containers[id] == Container(id, name, htmlShell, isDefault == Some(true))
                && forall other :: other in old(containers) ==>
                     containers[other] == old(containers)[other].(isDefault := old(containers)[other].isDefault
                                                                               && isDefault != Some(true))
      ensures !r.Saved? ==> containers == old(containers) && cache.store == old(cache.store)
      ensures HasDefault(old(containers)) ==> HasDefault(containers)
    {
      hide ContentAccepted, ShellAccepted, ShellCode, RowsValid;
      var errors := ValidateContainerHtmlShell(htmlShell, scan);
      if |errors| > 0 {
        return Rejected(errors[0].Code());
      }
      var container := Container(id, name, htmlShell, Given(isDefault, false));
      PutContainerValid(contents, containers, Given(isDefault, false), container, scan);
      if isDefault == Some(true) {
        containers := ClearDefaults(containers);
      }
      containers := containers[id := container];
      cache.InvalidateAll();
      return Saved;
    }

    method UpdateContainer(id: string, name: Option<string>, htmlShell: Option<string>, isDefault: Option<bool>)
      returns (r: SaveResult)
      requires Valid()
      modifies this`containers, cache
      ensures Valid()
      ensures r.NotFound? <==> id !in old(containers)
      ensures r.Saved? <==>
                && id in old(containers) && ShellAccepted(Given(htmlShell, old(containers)[id].htmlShell), scan)
                && !(isDefault == Some(false) && old(containers)[id].isDefault)
      ensures r.Saved? ==>
                var next := EditedContainer(old(containers)[id], name, htmlShell, isDefault);
                containers == PutContainer(old(containers), next.isDefault && !old(containers)[id].isDefault, next)
      ensures r.Saved? ==>
                && id in old(containers) && containers.Keys == old(containers).Keys
                && containers[id].name == (if name.Some? then name.value else old(containers)[id].name)
                && containers[id].htmlShell
                    == (if htmlShell.Some? then htmlShell.value else old(containers)[id].htmlShell)
                && containers[id].isDefault
                    == (if isDefault.Some? then isDefault.value else old(containers)[id].isDefault)
                && containers[id].id == id
                && forall other :: other in containers && other != id ==>
                     containers[other] == old(containers)[other].(isDefault := old(containers)[other].isDefault
                                                                               && isDefault != Some(true))
      ensures !r.Saved? ==> containers == old(containers) && cache.store == old(cache.store)
      ensures r.Rejected?
              <==> id in old(containers) && !ShellAccepted(Given(htmlShell, old(containers)[id].htmlShell), scan)
      ensures r.Rejected? ==> r.code == ShellCode(Given(htmlShell, old(containers)[id].htmlShell), scan)
      ensures r.DefaultRequired? <==>
                && id in old(containers) && ShellAccepted(Given(htmlShell, old(containers)[id].htmlShell), scan)
                && isDefault == Some(false) && old(containers)[id].isDefault
      ensures HasDefault(old(containers)) ==> HasDefault(containers)
    {
      hide ContentAccepted, ShellAccepted, ShellCode, RowsValid;
      if id !in containers {
        return NotFound;
      }
      var existing := containers[id];
      var next := EditedContainer(existing, name, htmlShell, isDefault);
      var errors := ValidateContainerHtmlShell(next.htmlShell, scan);
      if |errors| > 0 {
        return Rejected(errors[0].Code());
      }
      if isDefault == Some(false) && existing.isDefault {
        return DefaultRequired;
      }
      RowIds(contents, containers, scan, id);
      if existing.isDefault {
        OtherDefaults(contents, containers, scan, id);
      }
      PutContainerValid(contents, containers, next.isDefault && !existing.isDefault, next, scan);
      if isDefault == Some(true) && !existing.isDefault {
        containers := ClearDefaults(containers);
      }
      containers := containers[id := next];
      cache.InvalidateAll();
      return Saved;
    }

    method SetDefaultContainer(id: string) returns (r: SaveResult)
      requires Valid()
      modifies this`containers, cache
      ensures Valid()
      ensures r.Saved? <==> id in old(containers)
      ensures r.Saved? ==> containers == PutContainer(old(containers), true, old(containers)[id].(isDefault := true))
      ensures r.Saved? ==> DefaultContainer(containers) == Some(containers[id])
      ensures r.Saved? ==>
                && containers.Keys == old(containers).Keys
                && forall other :: other in containers ==>
                     containers[other] == old(containers)[other].(isDefault := other == id)
      ensures !r.Saved? ==> containers == old(containers) && cache.store == old(cache.store)
    {
      hide ContentAccepted, ShellAccepted, RowsValid;
      if id !in containers {
        return NotFound;
      }
      var existing := containers[id];
      RowIds(contents, containers, scan, id);
      PutContainerValid(contents, containers, true, existing.(isDefault := true), scan);
      containers := ClearDefaults(containers);
      containers := containers[id := existing.(isDefault := true)];
      cache.InvalidateAll();
      return Saved;
    }

    // ---- Content templates ----------------------------------------------------

    /** The foreign key on `container_id` rejects a row that names no container. */
    method UpdateContentTemplate(id: string, name: Option<string>, subject: Option<string>, body: Option<string>,
                                 text: Option<string>, containerId: Option<string>, enabled: Option<bool>)
      returns (r: SaveResult)
      requires Valid()
      modifies this`contents, cache
      ensures Valid()
      ensures !r.Saved? ==> contents == old(contents) && cache.store == old(cache.store)
      ensures r.Saved? <==>
                && id in old(contents)
                && var next := EditedContent(old(contents)[id], name, subject, body, text, containerId, enabled);
                   ContentAccepted(next.key, next.fields, scan) && next.containerId in containers
      ensures r.NotFound? <==> id !in old(contents) || NamesUnknownContainer(old(contents)[id], containerId, containers)
      ensures r.Rejected? <==>
                && id in old(contents) && !NamesUnknownContainer(old(contents)[id], containerId, containers)
                && var next := EditedContent(old(contents)[id], name, subject, body, text, containerId, enabled);
                   !ContentAccepted(next.key, next.fields, scan)
      ensures r.Rejected? ==>
                var next := EditedContent(old(contents)[id], name, subject, body, text, containerId, enabled);
                r.code == ContentCode(next.key, next.fields, scan)
      ensures r == StorageError || r.NotFound? || r.Rejected? || r.Saved?
      ensures r.Saved? ==>
                && id in old(contents) && id in contents && contents == old(contents)[id := contents[id]]
                && cache.store == old(cache.store) - {old(contents)[id].key}
                && contents[id].id == id && contents[id].key == old(contents)[id].key
                && contents[id].name == (if name.Some? then name.value else old(contents)[id].name)
                && contents[id].fields.subjectTemplate
                   == (if subject.Some? then subject.value else old(contents)[id].fields.subjectTemplate)
                && contents[id].fields.bodyHtml
                   == (if body.Some? then body.value else old(contents)[id].fields.bodyHtml)
                && contents[id].fields.textTemplate
                   == (if text.Some? then text.value else old(contents)[id].fields.textTemplate)
                && contents[id].containerId
                   == (if containerId.Some? then containerId.value else old(contents)[id].containerId)
                && contents[id].enabled == (if enabled.Some? then enabled.value else old(contents)[id].enabled)
    {
      hide ContentAccepted, ContentCode, ShellAccepted, FreshEntry, RowsValid, Coherent, EditedContent, Given;
      if id !in contents {
        return NotFound;
      }
      var existing := contents[id];
      ContentIds(contents, containers, scan, id);
      EditedContentKeeps(existing, name, subject, body, text, containerId, enabled);
      if containerId.Some? && containerId.value != "" && containerId.value != existing.containerId {
        if containerId.value !in containers {
          return NotFound;
        }
      }
      var next := EditedContent(existing, name, subject, body, text, containerId, enabled);
      var errors := ValidateEmailContentTemplate(existing.key, next.fields, scan);
      if |errors| > 0 {
        return Rejected(errors[0].Code());
      }
      if next.containerId !in containers {
        return StorageError;
      }
      SaveContent(id, next);
      return Saved;
    }

    method SaveContent(id: string, next: Content)
      requires Valid() && id in contents && next.id == id && next.key == contents[id].key
      requires ContentAccepted(next.key, next.fields, scan) && next.containerId in containers
      modifies this`contents, cache
      ensures Valid()
      ensures contents == old(contents)[id := next] && cache.store == old(cache.store) - {next.key}
    {
      hide ContentAccepted, ShellAccepted, FreshEntry, RowsValid, Coherent;
      ContentIds(contents, containers, scan, id);
      EditedContentValid(contents, containers, scan, id, next);
      CoherentAfterEdit(cache.store, contents, id, next, containers);
      contents := contents[id := next];
      cache.InvalidateKey(next.key);
    }
  }

  /** The edit moves the template to a container that does not exist; an empty id is not looked up. */
  predicate NamesUnknownContainer(c: Content, containerId: Option<string>, containers: map<string, Container>) {
    containerId.Some? && containerId.value != "" && containerId.value != c.containerId
        && containerId.value !in containers
  }

  /** `given ?? current` */
  function Given<T>(given: Option<T>, current: T): T {
    if given.Some? then given.value else current
  }

  function EditedContent(c: Content, name: Option<string>, subject: Option<string>, body: Option<string>,
                         text: Option<string>, containerId: Option<string>, enabled: Option<bool>): Content
  {
    Content(c.id, c.key, Given(name, c.name),
            ContentFields(Given(subject, c.fields.subjectTemplate), Given(body, c.fields.bodyHtml),
                          Given(text, c.fields.textTemplate)),
            Given(containerId, c.containerId), Given(enabled, c.enabled))
  }

  lemma EditedContentKeeps(c: Content, name: Option<string>, subject: Option<string>, body: Option<string>,
                           text: Option<string>, containerId: Option<string>, enabled: Option<bool>)
    ensures var next := EditedContent(c, name, subject, body, text, containerId, enabled);
            && next.id == c.id && next.key == c.key && next.name == (if name.Some? then name.value else c.name)
            && next.fields.subjectTemplate == (if subject.Some? then subject.value else c.fields.subjectTemplate)
            && next.fields.bodyHtml == (if body.Some? then body.value else c.fields.bodyHtml)
            && next.fields.textTemplate == (if text.Some? then text.value else c.fields.textTemplate)
            && next.containerId == (if containerId.Some? then containerId.value else c.containerId)
            && next.enabled == (if enabled.Some? then enabled.value else c.enabled)
  {
  }

  function EditedContainer(c: Container, name: Option<string>, htmlShell: Option<string>,
                           isDefault: Option<bool>): Container {
    Container(c.id, Given(name, c.name), Given(htmlShell, c.htmlShell), Given(isDefault, c.isDefault))
  }

  /** Saving one container, after clearing the flag on all of them or not. */
  function PutContainer(containers: map<string, Container>, clear: bool, c: Container): map<string, Container> {
    (if clear then ClearDefaults(containers) else containers)[c.id := c]
  }

  lemma KeysAreUnique(contents: map<string, Content>, containers: map<string, Container>, scan: string -> seq<string>)
    requires RowsValid(contents, containers, scan)
    ensures UniqueKeys(contents) && AtMostOneDefault(containers)
  {
  }

  lemma ContentIds(contents: map<string, Content>, containers: map<string, Container>, scan: string -> seq<string>,
                   id: string)
    requires RowsValid(contents, containers, scan) && id in contents
    ensures contents[id].id == id
  {
  }

  /** Beside a default row no other is one. */
  lemma OtherDefaults(contents: map<string, Content>, containers: map<string, Container>, scan: string -> seq<string>,
                      id: string)
    requires RowsValid(contents, containers, scan) && id in containers && containers[id].isDefault
    ensures forall other :: other in containers && other != id ==> !containers[other].isDefault
  {
  }

  lemma RowIds(contents: map<string, Content>, containers: map<string, Container>, scan: string -> seq<string>,
               id: string)
    requires RowsValid(contents, containers, scan) && id in containers
    ensures containers[id].id == id
  {
  }

  /**
   * A save keeps the rows valid and at most one default when the flag is set only
   * after clearing it or where it already was; it keeps a default when it does not
   * clear without setting.
   */
  lemma PutContainerValid(contents: map<string, Content>, containers: map<string, Container>, clear: bool, c: Container,
                          scan: string -> seq<string>)
    requires RowsValid(contents, containers, scan)
    requires ShellAccepted(c.htmlShell, scan) || (c.id in containers && containers[c.id].htmlShell == c.htmlShell)
    requires c.isDefault && !clear ==> c.id in containers && containers[c.id].isDefault
    ensures RowsValid(contents, PutContainer(containers, clear, c), scan)
    ensures (clear ==> c.isDefault) && (c.id in containers && containers[c.id].isDefault ==> c.isDefault)
            ==> (HasDefault(containers) ==> HasDefault(PutContainer(containers, clear, c)))
  {
    hide ContentAccepted, ShellAccepted;
    var after := PutContainer(containers, clear, c);
    if i :| i in containers && containers[i].isDefault {
      assert c.isDefault ==> after[c.id].isDefault;
      assert !clear && i != c.id ==> after[i].isDefault;
    }
  }

  lemma {:induction false} EditedContentValid(contents: map<string, Content>, containers: map<string, Container>,
                                              scan: string -> seq<string>,
                           id: string, row: Content)
    requires RowsValid(contents, containers, scan) && id in contents
    requires row.id == contents[id].id && row.key == contents[id].key
    requires ContentAccepted(row.key, row.fields, scan) && row.containerId in containers
    ensures RowsValid(contents[id := row], containers, scan)
    ensures UniqueKeys(contents)
  {
    hide ContentAccepted, ShellAccepted;
  }

  /** Invalidating the edited row's key alone keeps the whole cache coherent. */
  lemma CoherentAfterEdit(store: map<TemplateKey, CacheRecord>, contents: map<string, Content>, id: string,
                          row: Content,
                          containers: map<string, Container>)
    requires UniqueKeys(contents) && id in contents && row.key == contents[id].key
    requires Coherent(store, contents, containers)
    ensures UniqueKeys(contents[id := row])
    ensures Coherent(store - {row.key}, contents[id := row], containers)
  {
    forall key | key in store && key != row.key
      ensures FreshEntry(contents[id := row], containers, key) == FreshEntry(contents, containers, key)
    {
      OtherKeysUnaffected(contents, id, row, key);
    }
  }

  /** An enabled row is sent: merged with the shell of its own container. */
  lemma EnabledRowIsMerged(contents: map<string, Content>, containers: map<string, Container>,
                           scan: string -> seq<string>, id: string, vars: Vars, logoUrl: string,
                           toPlain: string -> string)
    requires RowsValid(contents, containers, scan) && id in contents && contents[id].enabled
    ensures var c := contents[id];
            && c.containerId in containers
            && ShellAccepted(containers[c.containerId].htmlShell, scan) && ContentAccepted(c.key, c.fields, scan)
            && RenderFromRows(contents, containers, c.key, vars, logoUrl, toPlain)
               == Merged(MergeResult(c.key, c.fields, containers[c.containerId].htmlShell, vars, logoUrl, toPlain))
  {
    hide MergeResult, ContentAccepted, ShellAccepted;
    ContentRowIs(contents, id);
  }

  /** A row that is switched off, or missing, falls back for that reason. */
  lemma OtherRowsFallBack(contents: map<string, Content>, containers: map<string, Container>, key: TemplateKey,
                          vars: Vars, logoUrl: string, toPlain: string -> string)
    requires UniqueKeys(contents)
    ensures (exists id :: id in contents && contents[id].key == key && !contents[id].enabled)
            ==> RenderFromRows(contents, containers, key, vars, logoUrl, toPlain) == Fallback(Disabled)
    ensures (forall id :: id in contents ==> contents[id].key != key)
            ==> RenderFromRows(contents, containers, key, vars, logoUrl, toPlain) == Fallback(Missing)
  {
    hide MergeResult;
    if id :| id in contents && contents[id].key == key {
      ContentRowIs(contents, id);
    }
  }

  /**
   * In every state the service reaches, the email of an enabled row is sent from that row:
   * its subject and text substituted, and around the slot of its own container's shell
   * the substituted prefix, the merged body once, and the substituted suffix, unless the
   * logo URL can spell a slot.
   */
  lemma {:induction false} RenderedEmailIsExact(contents: map<string, Content>, containers: map<string, Container>,
                                                scan: string -> seq<string>, id: string, vars: Vars, logoUrl: string,
                                                toPlain: string -> string)
    requires RowsValid(contents, containers, scan) && id in contents && contents[id].enabled
    ensures var c := contents[id];
            var r := RenderFromRows(contents, containers, c.key, vars, logoUrl, toPlain);
            var known := MergedVars(c.key, vars, logoUrl);
            && r.Merged? && c.containerId in containers
            && r.result.subject == SubstituteDoubleBraces(c.fields.subjectTemplate, known, Options(false, {}))
            && r.result.text
                == (if Trim(c.fields.textTemplate) == "" then toPlain(MergedBody(c.key, c.fields, vars, logoUrl))
                                 else SubstituteDoubleBraces(c.fields.textTemplate, known, Options(false, {})))
            && (!SpellsSlot(logoUrl) ==>
                  forall p, m, s :: SplitsAs(containers[c.containerId].htmlShell, p, m, s) ==>
                    r.result.html
                    == MergedShell(p, c.key, vars, logoUrl)
                       + (MergedBody(c.key, c.fields, vars, logoUrl) + MergedShell(s, c.key, vars, logoUrl)))
            && (exists p, m, s :: SplitsAs(containers[c.containerId].htmlShell, p, m, s))
            && NamesOf(c.fields.bodyHtml) + NamesOf(c.fields.subjectTemplate) + NamesOf(c.fields.textTemplate)
               <= known.Keys
  {
    EnabledRowIsMerged(contents, containers, scan, id, vars, logoUrl, toPlain);
    hide ContentAccepted, ShellAccepted, SpellsSlot, IsSlot, RowsValid, RenderFromRows, MergedVars, Trim,
         SubstituteDoubleBraces, InjectContentSlot, NamesOf;
    var c := contents[id];
    var shell := containers[c.containerId].htmlShell;
    if !SpellsSlot(logoUrl) {
      forall p, m, s | SplitsAs(shell, p, m, s)
        ensures MergeResult(c.key, c.fields, shell, vars, logoUrl, toPlain).html
             == MergedShell(p, c.key, vars, logoUrl)
                + (MergedBody(c.key, c.fields, vars, logoUrl) + MergedShell(s, c.key, vars, logoUrl))
      {
        SavedTemplatesMergeExactly(c.key, c.fields, shell, scan, vars, logoUrl, toPlain, p, m, s);
      }
    }
    var p, m, s := AcceptedShellSplits(shell, scan);
    assert SplitsAs(shell, p, m, s);
    SavedPlaceholdersHaveValues(c.key, c.fields, shell, scan, vars, logoUrl);
  }

  lemma OnlyRow(contents: map<string, Content>, id: string)
    requires UniqueKeys(contents) && id in contents
    ensures forall other :: other in contents && contents[other].key == contents[id].key ==> other == id
  {
  }

  /** What becomes of each row, and of a missing one. */
  lemma RowsAreSent(contents: map<string, Content>, containers: map<string, Container>, scan: string -> seq<string>,
                    key: TemplateKey, vars: Vars, logoUrl: string, toPlain: string -> string)
    requires RowsValid(contents, containers, scan)
    ensures var r := RenderFromRows(contents, containers, key, vars, logoUrl, toPlain);
            && (forall id :: id in contents && contents[id].key == key && contents[id].enabled ==>
                  && contents[id].containerId in containers
                  && r == Merged(MergeResult(key, contents[id].fields, containers[contents[id].containerId].htmlShell,
                                             vars, logoUrl, toPlain))
                  && (!SpellsSlot(logoUrl) ==>
                        forall p, m, s :: SplitsAs(containers[contents[id].containerId].htmlShell, p, m, s) ==>
                          r.result.html
                          == MergedShell(p, key, vars, logoUrl)
                             + (MergedBody(key, contents[id].fields, vars, logoUrl)
                                + MergedShell(s, key, vars, logoUrl))))
            && ((exists id :: id in contents && contents[id].key == key && !contents[id].enabled)
                ==> r == Fallback(Disabled))
            && ((forall id :: id in contents ==> contents[id].key != key) ==> r == Fallback(Missing))
  {
    KeysAreUnique(contents, containers, scan);
    OtherRowsFallBack(contents, containers, key, vars, logoUrl, toPlain);
    hide MergeResult, ContentAccepted, ShellAccepted, SpellsSlot, SplitsAs, MergedShell, MergedBody, RenderFromRows,
         RowsValid, MergedVars, SubstituteDoubleBraces, Trim, NamesOf, UniqueKeys;
    if id :| id in contents && contents[id].key == key && contents[id].enabled {
      EnabledRowIsMerged(contents, containers, scan, id, vars, logoUrl, toPlain);
      RenderedEmailIsExact(contents, containers, scan, id, vars, logoUrl, toPlain);
      OnlyRow(contents, id);
    }
  }

  /** The foreign key makes the default container a fallback that is never needed. */
  lemma ContainerIsNeverMissing(contents: map<string, Content>, containers: map<string, Container>,
                                scan: string -> seq<string>,
                                key: TemplateKey, vars: Vars, logoUrl: string, toPlain: string -> string)
    requires RowsValid(contents, containers, scan)
    ensures RenderFromRows(contents, containers, key, vars, logoUrl, toPlain) != Fallback(ContainerMissing)
  {
    hide MergeResult, ContentAccepted, ShellAccepted;
  }
}

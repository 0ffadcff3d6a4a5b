// The merge of src/modules/email/email-template-renderer.service.ts and what saved
// templates guarantee about its result.
module TemplateRenderer {
  import opened Text
  import opened TemplateMerge
  import opened ContentSlot
  import opened MergeTheorems
  import opened SlotSpelling
  import opened TemplateRegistry
  import opened TemplateValidation
  import HtmlEscape

  type Vars = map<string, string>

  datatype EmailTemplateResult = EmailTemplateResult(subject: string, html: string, text: string)

  const PLAIN := Options(false, {})

  /** The variables of one send: the caller's, the logo on top, and '' for what is still unset. */
  function MergedVars(key: TemplateKey, vars: Vars, logoUrl: string): Vars {
    (map name | name in Names(GetPlaceholdersForKey(key)) :: "") + vars["logoUrl" := logoUrl]
  }

  function BodyOptions(key: TemplateKey): Options {
    Options(true, TrustedNames(GetPlaceholdersForKey(key)))
  }

  function MergedBody(key: TemplateKey, f: ContentFields, vars: Vars, logoUrl: string): string {
    SubstituteDoubleBraces(f.bodyHtml, MergedVars(key, vars, logoUrl), BodyOptions(key))
  }

  function MergedShell(shell: string, key: TemplateKey, vars: Vars, logoUrl: string): string {
    SubstituteDoubleBraces(shell, MergedVars(key, vars, logoUrl), Options(true, {}))
  }

  /** The result of a send, `toPlain` being the fallback plaintext generator. */
  function MergeResult(key: TemplateKey, f: ContentFields, shell: string, vars: Vars, logoUrl: string,
                       toPlain: string -> string): EmailTemplateResult
  {
    var mergedVars := MergedVars(key, vars, logoUrl);
    var body := MergedBody(key, f, vars, logoUrl);
    EmailTemplateResult(
      SubstituteDoubleBraces(f.subjectTemplate, mergedVars, PLAIN),
      InjectContentSlot(MergedShell(shell, key, vars, logoUrl), body),
      if Trim(f.textTemplate) != "" then SubstituteDoubleBraces(f.textTemplate, mergedVars, PLAIN) else toPlain(body))
  }

  /** `logoUrl` overrides; unset registry placeholders become ''. */
  method FillVars(key: TemplateKey, vars: Vars, logoUrl: string) returns (mergedVars: Vars)
    ensures mergedVars == MergedVars(key, vars, logoUrl)
  {
    hide GetPlaceholdersForKey;
    var registry := GetPlaceholdersForKey(key);
    ghost var given := vars["logoUrl" := logoUrl];
    mergedVars := vars["logoUrl" := logoUrl];
    for i := 0 to |registry|
      invariant mergedVars.Keys == Names(registry[..i]) + given.Keys
      invariant forall name :: name in mergedVars ==> mergedVars[name] == if name in given then given[name] else ""
    {
      assert registry[..i + 1] == registry[..i] + [registry[i]];
      NamesStep(registry[..i], registry[i]);
      if registry[i].name !in mergedVars {
        mergedVars := mergedVars[registry[i].name := ""];
      }
    }
    assert registry[..|registry|] == registry;
  }

  lemma NamesStep(ps: seq<PlaceholderInfo>, p: PlaceholderInfo)
    ensures Names(ps + [p]) == Names(ps) + {p.name}
  {
    assert (ps + [p])[|ps|] == p;
    assert forall q :: q in ps + [p] <==> q in ps || q == p;
  }

  method Merge(key: TemplateKey, f: ContentFields, shell: string, vars: Vars, logoUrl: string,
               toPlain: string -> string)
    returns (r: EmailTemplateResult)
    ensures r == MergeResult(key, f, shell, vars, logoUrl, toPlain)
  {
    hide SubstituteDoubleBraces, InjectContentSlot, MergedVars, BodyOptions, Trim;
    var mergedVars := FillVars(key, vars, logoUrl);
    var subject := SubstituteDoubleBraces(f.subjectTemplate, mergedVars, PLAIN);
    var body := SubstituteDoubleBraces(f.bodyHtml, mergedVars, BodyOptions(key));
    var text := if Trim(f.textTemplate) != "" then SubstituteDoubleBraces(f.textTemplate, mergedVars, PLAIN)
        else toPlain(body);
    var html := Inject(SubstituteDoubleBraces(shell, mergedVars, Options(true, {})), body);
    r := EmailTemplateResult(subject, html, text);
  }

  /** Placeholders of a shell become the escaped logo URL. */
  lemma ShellsBecomeLogo(t: string, key: TemplateKey, vars: Vars, logoUrl: string)
    requires NamesOf(t) <= {"logoUrl"}
    ensures AllBecome(t, MergedVars(key, vars, logoUrl), Options(true, {}), HtmlEscape.EscapeHtml(logoUrl))
  {
    hide NamesOf, GetPlaceholdersForKey, HtmlEscape.EscapeHtml;
  }

  /** `shell` is `p`, one slot marker `m`, and `s`. */
  predicate SplitsAs(shell: string, p: string, m: string, s: string) {
    shell == p + (m + s) && IsSlot(m)
  }

  /** Both sides of an accepted shell's slot, at whichever marker it is split. */
  lemma AcceptedSides(shell: string, scan: string -> seq<string>, p: string, m: string, s: string)
    requires ShellAccepted(shell, scan) && SplitsAs(shell, p, m, s)
    ensures NoStray(p) && NoStray(s) && NamesOf(p) <= {"logoUrl"} && NamesOf(s) <= {"logoUrl"}
  {
    hide NamesOf, CountContentSlots, StripSlots, NoTriple, SubstituteDoubleBraces, IsTooLarge;
    var p0, m0, s0 := AcceptedShellSplits(shell, scan);
    SubstituteAroundSlot(p, m, s, map[], PLAIN);
    SlotsAroundSlot(p, m, s);
    CountZeroMeansNoSlot(p);
    CountZeroMeansNoSlot(s);
    NoSlotNothingHappens(p, "");
    NoSlotNothingHappens(s, "");
    NoTripleParts(p, s, '{');
    NoTripleParts(p, s, '}');
  }

  /**
   * The guarantee that validation on save buys at send time: around the one slot of
   * the shell, the sent HTML is the substituted prefix, the merged body and the
   * substituted suffix, unless the logo URL can spell a slot of its own.
   */
  lemma {:induction false} SavedTemplatesMergeExactly(key: TemplateKey, f: ContentFields, shell: string,
                                                      scan: string -> seq<string>, vars: Vars, logoUrl: string,
                                                      toPlain: string -> string, p: string, m: string, s: string)
    requires ShellAccepted(shell, scan) && SplitsAs(shell, p, m, s)
    requires !SpellsSlot(logoUrl)
    ensures MergeResult(key, f, shell, vars, logoUrl, toPlain).html
         == MergedShell(p, key, vars, logoUrl)
             + (MergedBody(key, f, vars, logoUrl) + MergedShell(s, key, vars, logoUrl))
  {
    hide SubstituteDoubleBraces, InjectContentSlot, GetPlaceholdersForKey, Trim, NamesOf, ShellAccepted, SpellsSlot,
         NoStray, HtmlEscape.EscapeHtml, CountContentSlots, MergedVars, IsSlot, AllBecome;
    AcceptedSides(shell, scan, p, m, s);
    EscapedSpellsSlot(logoUrl);
    var mergedVars, o, v := MergedVars(key, vars, logoUrl), Options(true, {}), HtmlEscape.EscapeHtml(logoUrl);
    ShellsBecomeLogo(p, key, vars, logoUrl);
    ShellsBecomeLogo(s, key, vars, logoUrl);
    NoSlotIsMade(p, v, mergedVars, o);
    NoSlotIsMade(s, v, mergedVars, o);
    ShellMergeIff(p, m, s, mergedVars, o, MergedBody(key, f, vars, logoUrl));
  }

  /** Every placeholder written in a saved template has a value at send time. */
  lemma {:induction false} SavedPlaceholdersHaveValues(key: TemplateKey, f: ContentFields, shell: string,
                                                       scan: string -> seq<string>, vars: Vars, logoUrl: string)
    ensures ShellAccepted(shell, scan) ==> NamesOf(shell) <= MergedVars(key, vars, logoUrl).Keys
    ensures ContentAccepted(key, f, scan) ==>
              var known := MergedVars(key, vars, logoUrl).Keys;
              NamesOf(f.bodyHtml) <= known && NamesOf(f.subjectTemplate) <= known && NamesOf(f.textTemplate) <= known
  {
    hide GetPlaceholdersForKey, NamesOf, ShellAccepted, HasStrayTripleBraces, CountContentSlots, Utf8Length;
    if ShellAccepted(shell, scan) {
      var p, m, s := AcceptedShellSplits(shell, scan);
    }
  }
}

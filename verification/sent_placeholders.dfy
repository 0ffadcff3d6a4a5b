// Exactly which saved templates can send a placeholder, field by field and for the
// whole HTML (src/modules/email/email-template-renderer.service.ts).
module SentPlaceholders {
  import opened Wrappers
  import opened Text
  import opened TemplateScanner
  import opened TemplateMerge
  import opened ContentSlot
  import opened SlotSpelling
  import opened MergeTheorems
  import opened TemplateRegistry
  import opened TemplateValidation
  import opened TemplateRenderer
  import opened TemplateTokens
  import opened LeftoverPlaceholders
  import opened HtmlEscape

  // ---- One template -----------------------------------------------------------

  lemma RenderedLacks(vars: Vars, o: Options, name: string)
    requires name in vars && Lacks(vars[name], '{')
    ensures Lacks(Rendered(vars, o)[name], '{')
  {
    EscapeLacks(vars[name], '{');
  }

  lemma HarmlessRendered(values: Vars, o: Options)
    requires forall name :: name in values ==> Harmless(values[name])
    ensures Rendered(values, o) == values
  {
    hide Harmless, EscapeHtml;
    forall name | name in values ensures Rendered(values, o)[name] == values[name] {
      HarmlessLacks(values[name]);
    }
  }

  /**
   * A template leaves no placeholder, for all values without open braces, exactly when
   * none of its own literal braces can come to open one.
   */
  lemma {:induction false} SubstitutionIsCleanIff(t: string, o: Options)
    ensures (forall vars :: ValuesLack(t, vars, '{') ==> NamesOf(SubstituteDoubleBraces(t, vars, o)) == {})
       <==> !CanLeave(Tokens(t))
  {
    hide NamesOf, SubstituteDoubleBraces, Tokens, Placeholders, CanLeave, Harmless, Written, Rendered;
    TokensName(t);
    if CanLeave(Tokens(t)) {
      var vars := LeavesOne(Tokens(t), NamesOf(t));
      HarmlessRendered(vars, o);
      SubstitutionWrites(t, vars, o);
      forall name | name in NamesOf(t) ensures Lacks(vars[name], '{') {
        HarmlessLacks(vars[name]);
      }
      assert ValuesLack(t, vars, '{');
    } else {
      forall vars | ValuesLack(t, vars, '{') ensures NamesOf(SubstituteDoubleBraces(t, vars, o)) == {} {
        SubstitutionWrites(t, vars, o);
        RenderedIsPlain(Tokens(t), vars, o);
        LeavesNothing(Tokens(t), Rendered(vars, o));
      }
    }
  }

  lemma RenderedIsPlain(ts: seq<Token>, vars: Vars, o: Options)
    requires forall name :: name in Placeholders(ts) ==> name in vars && Lacks(vars[name], '{')
    ensures Plain(ts, Rendered(vars, o))
  {
    hide Placeholders, Render;
    forall name | name in Placeholders(ts) ensures name in Rendered(vars, o) && Lacks(Rendered(vars, o)[name], '{') {
      RenderedLacks(vars, o, name);
    }
  }

  /** Values are not rescanned: a placeholder that a value spells is sent, unless a close brace may follow it. */
  lemma {:induction false} ValueIsLeft(ts: seq<Token>, values: Vars, i: nat, k: nat, x: string)
    requires i < |ts| && ts[i].Placeholder? && ts[i].name in values
    requires OccursAt(values[ts[i].name], k, x)
    requires k + DoubleAt(values[ts[i].name][k..]).value.len < |values[ts[i].name]|
    ensures x in NamesOf(Written(ts, values))
  {
    hide DoubleAt, NamesOf, Written;
    var v := values[ts[i].name];
    assert ts == ts[..i] + ([ts[i]] + ts[i + 1..]);
    WrittenConcat(ts[..i], [ts[i]] + ts[i + 1..], values);
    WrittenConcat([ts[i]], ts[i + 1..], values);
    WrittenOne(ts[i], values);
    var head, rest := Written(ts[..i], values), Written(ts[i + 1..], values);
    var out := Written(ts, values);
    assert out == head + (v + rest);
    DoubleAtExtends(v[k..], rest);
    assert out[|head| + k..] == v[k..] + rest;
    assert OccursAt(out, |head| + k, x);
    NamesAreOccurrences(out, x);
  }

  lemma WrittenOne(k: Token, values: Vars)
    ensures Written([k], values) == WrittenToken(k, values)
  {
    assert Written([k][1..], values) == "";
    assert WrittenToken(k, values) + "" == WrittenToken(k, values);
  }

  /** A value that spells a placeholder and leaves room for nothing to spoil it. */
  const SPELLS_X := "{{x}} "

  lemma {:induction false} SpellsX()
    ensures OccursAt(SPELLS_X, 0, "x") && DoubleAt(SPELLS_X[0..]).value.len == 5
    ensures EscapeHtml(SPELLS_X) == SPELLS_X && !SpellsSlot(SPELLS_X)
  {
    hide EscapeHtml, SpellsSlot, DoubleAt;
    assert SPELLS_X == "{{x}}" + " " && "{{x}}" == "{{" + "x" + "}}";
    LonePlaceholder("{{x}}", "x");
    DoubleAtExtends("{{x}}", " ");
    assert SPELLS_X[0..] == SPELLS_X;
    EscapeKeepsPlain(SPELLS_X);
    TwoBracesSpellNoSlot();
  }

  lemma {:induction false} TwoBracesSpellNoSlot()
    ensures !SpellsSlot(SPELLS_X)
  {
    hide SlotAt, Spelled;
    var v := SPELLS_X;
    forall i | 0 <= i < |v| ensures SlotAt(v[i..]).None? {
      if SlotAt(v[i..]).Some? {
        SlotHasTriples(v, i);
        assert false;
      }
    }
    forall i, j | 0 <= i < |v| && 0 < j <= |v| ensures !Bridges(v[i..], v[..j]) {
      assert v[i] == v[i..][0] && v[..j][0] == v[0] == '{' && v[i..][|v| - i - 1] == v[|v| - 1] == ' ';
      if p, q :| 0 < p <= q < 13 && BridgesAt(v[i..], v[..j], p, q) {
        StartsEarly(q, v[..j]);
        OpensOnly(0, v[i..], p);
        assert false;
      }
    }
  }

  /** Text that starts with an open brace continues a slot only among its open braces. */
  lemma StartsEarly(q: nat, b: string)
    requires b != "" && b[0] == '{' && q < 13 && Spelled(q, b) == Some(13)
    ensures q < 3
  {
  }

  /**
   * For all values whatever, a template leaves no placeholder exactly when it has none:
   * a value can spell one.
   */
  lemma {:induction false} AnyValuesAreCleanIff(t: string, o: Options)
    ensures (forall vars: Vars :: NamesOf(t) <= vars.Keys ==> NamesOf(SubstituteDoubleBraces(t, vars, o)) == {})
       <==> NamesOf(t) == {}
  {
    hide NamesOf, SubstituteDoubleBraces, Tokens, Written, DoubleAt, EscapeHtml;
    if NamesOf(t) == {} {
      forall vars: Vars | NamesOf(t) <= vars.Keys ensures NamesOf(SubstituteDoubleBraces(t, vars, o)) == {} {
        SubstituteWithoutMatch(t, vars, o);
      }
    } else {
      var vars: Vars := map name | name in NamesOf(t) :: SPELLS_X;
      TokensName(t);
      SubstitutionWrites(t, vars, o);
      SpellsX();
      var name :| name in Placeholders(Tokens(t));
      var i :| 0 <= i < |Tokens(t)| && Tokens(t)[i].Placeholder? && Tokens(t)[i].name == name;
      ValueIsLeft(Tokens(t), Rendered(vars, o), i, 0, "x");
      assert NamesOf(t) <= vars.Keys;
    }
  }

  // ---- The whole HTML ---------------------------------------------------------

  /** Values that a saved template can reach are free of open braces. */
  predicate CleanValues(key: TemplateKey, vars: Vars, logoUrl: string) {
    && Lacks(logoUrl, '{')
    && forall name :: name in Names(GetPlaceholdersForKey(key)) && name in vars ==> Lacks(vars[name], '{')
  }

  /**
   * A subject, body or text template leaves no placeholder in a send, for all clean
   * values, exactly when none of its literal braces can come to open one.
   */
  lemma {:induction false} SentFieldIsCleanIff(key: TemplateKey, t: string, o: Options)
    requires NamesOf(t) <= Names(GetPlaceholdersForKey(key))
    ensures (forall vars, logoUrl :: CleanValues(key, vars, logoUrl) ==>
               NamesOf(SubstituteDoubleBraces(t, MergedVars(key, vars, logoUrl), o)) == {})
       <==> !CanLeave(Tokens(t))
  {
    hide NamesOf, SubstituteDoubleBraces, Tokens, Placeholders, CanLeave, Harmless, Written, Rendered,
         GetPlaceholdersForKey, MergedVars, CleanValues;
    TokensName(t);
    if CanLeave(Tokens(t)) {
      var vars := LeavesOne(Tokens(t), KnownNames(key));
      HarmlessRendered(vars, o);
      AssignedIsMerged(key, vars);
      SubstitutionWrites(t, vars, o);
      forall name | name in vars ensures Lacks(vars[name], '{') {
        HarmlessLacks(vars[name]);
      }
      assert CleanValues(key, vars, vars["logoUrl"]) by { LackingIsClean(key, vars); }
    } else {
      forall vars, logoUrl | CleanValues(key, vars, logoUrl)
        ensures NamesOf(SubstituteDoubleBraces(t, MergedVars(key, vars, logoUrl), o)) == {}
      {
        forall name | name in NamesOf(t)
          ensures name in MergedVars(key, vars, logoUrl) && Lacks(MergedVars(key, vars, logoUrl)[name], '{')
        {
          CleanIsMerged(key, vars, logoUrl, name);
        }
        SubstitutionWrites(t, MergedVars(key, vars, logoUrl), o);
        RenderedIsPlain(Tokens(t), MergedVars(key, vars, logoUrl), o);
        LeavesNothing(Tokens(t), Rendered(MergedVars(key, vars, logoUrl), o));
      }
    }
  }

  /** So it is with the subject of every send, and with its text unless the text template is blank. */
  lemma {:induction false} SentSubjectAndTextAreCleanIff(key: TemplateKey, f: ContentFields, shell: string,
                                                         scan: string -> seq<string>, toPlain: string -> string)
    requires ContentAccepted(key, f, scan)
    ensures (forall vars, logoUrl :: CleanValues(key, vars, logoUrl) ==>
               NamesOf(MergeResult(key, f, shell, vars, logoUrl, toPlain).subject) == {})
       <==> !CanLeave(Tokens(f.subjectTemplate))
    ensures Trim(f.textTemplate) != "" ==>
            ((forall vars, logoUrl :: CleanValues(key, vars, logoUrl) ==>
                NamesOf(MergeResult(key, f, shell, vars, logoUrl, toPlain).text) == {})
             <==> !CanLeave(Tokens(f.textTemplate)))
  {
    AcceptedFieldsName(key, f, scan);
    hide NamesOf, SubstituteDoubleBraces, Tokens, CanLeave, GetPlaceholdersForKey, MergedVars, CleanValues, Trim,
         InjectContentSlot, ContentAccepted;
    SentFieldIsCleanIff(key, f.subjectTemplate, PLAIN);
    SentFieldIsCleanIff(key, f.textTemplate, PLAIN);
    forall vars, logoUrl
      ensures var r := MergeResult(key, f, shell, vars, logoUrl, toPlain);
              && r.subject == SubstituteDoubleBraces(f.subjectTemplate, MergedVars(key, vars, logoUrl), PLAIN)
              && (Trim(f.textTemplate) != "" ==>
                    r.text == SubstituteDoubleBraces(f.textTemplate, MergedVars(key, vars, logoUrl), PLAIN))
    {
    }
  }

  lemma AcceptedFieldsName(key: TemplateKey, f: ContentFields, scan: string -> seq<string>)
    requires ContentAccepted(key, f, scan)
    ensures NamesOf(f.subjectTemplate) <= Names(GetPlaceholdersForKey(key))
    ensures NamesOf(f.textTemplate) <= Names(GetPlaceholdersForKey(key))
    ensures NamesOf(f.bodyHtml) <= Names(GetPlaceholdersForKey(key))
  {
    hide NamesOf, GetPlaceholdersForKey, HasStrayTripleBraces, CountContentSlots, Trim;
  }

  lemma LackingIsClean(key: TemplateKey, vars: Vars)
    requires "logoUrl" in vars && forall name :: name in vars ==> Lacks(vars[name], '{')
    ensures CleanValues(key, vars, vars["logoUrl"])
  {
  }

  /** The shell around its slot with the body in place, as one run of tokens. */
  function PageTokens(p: string, body: string, s: string): seq<Token> {
    Tokens(p) + (Tokens(body) + Tokens(s))
  }

  function KnownNames(key: TemplateKey): set<string> {
    Names(GetPlaceholdersForKey(key)) + {"logoUrl"}
  }

  lemma {:induction false} PageNames(p: string, body: string, s: string)
    ensures Placeholders(PageTokens(p, body, s)) == NamesOf(p) + (NamesOf(body) + NamesOf(s))
  {
    hide NamesOf, Tokens, Placeholders;
    TokensName(p);
    TokensName(body);
    TokensName(s);
    PlaceholdersConcat(Tokens(p), Tokens(body) + Tokens(s));
    PlaceholdersConcat(Tokens(body), Tokens(s));
  }

  /** The logo is never trusted, so it is written alike in shell and body. */
  lemma LogoIsScalar(key: TemplateKey)
    ensures "logoUrl" !in TrustedNames(GetPlaceholdersForKey(key))
  {
    assert "itemsHtml"[0] != "logoUrl"[0];
  }

  lemma {:induction false} ShellIsWritten(t: string, key: TemplateKey, vars: Vars, logoUrl: string)
    requires NamesOf(t) <= {"logoUrl"}
    ensures MergedShell(t, key, vars, logoUrl)
            == Written(Tokens(t), Rendered(MergedVars(key, vars, logoUrl), BodyOptions(key)))
  {
    hide NamesOf, Tokens, Placeholders, GetPlaceholdersForKey, SubstituteDoubleBraces, Written, EscapeHtml;
    var mergedVars := MergedVars(key, vars, logoUrl);
    TokensName(t);
    SubstitutionWrites(t, mergedVars, Options(true, {}));
    LogoIsScalar(key);
    WrittenDependsOn(Tokens(t), Rendered(mergedVars, Options(true, {})), Rendered(mergedVars, BodyOptions(key)));
  }

  /** The HTML of a send is its page's tokens with the rendered values. */
  lemma {:induction false} HtmlIsWritten(key: TemplateKey, f: ContentFields, shell: string, scan: string -> seq<string>,
                                         vars: Vars, logoUrl: string, toPlain: string -> string, p: string, m: string,
                                             s: string)
    requires ShellAccepted(shell, scan) && ContentAccepted(key, f, scan) && SplitsAs(shell, p, m, s)
    requires !SpellsSlot(logoUrl)
    ensures MergeResult(key, f, shell, vars, logoUrl, toPlain).html
         == Written(PageTokens(p, f.bodyHtml, s), Rendered(MergedVars(key, vars, logoUrl), BodyOptions(key)))
  {
    hide NamesOf, Tokens, GetPlaceholdersForKey, SubstituteDoubleBraces, Written, EscapeHtml, MergeResult,
         ShellAccepted, SplitsAs, ContentAccepted, Rendered, MergedShell, SpellsSlot;
    SavedTemplatesMergeExactly(key, f, shell, scan, vars, logoUrl, toPlain, p, m, s);
    AcceptedSides(shell, scan, p, m, s);
    ShellIsWritten(p, key, vars, logoUrl);
    ShellIsWritten(s, key, vars, logoUrl);
    SavedPlaceholdersHaveValues(key, f, shell, scan, vars, logoUrl);
    var values := Rendered(MergedVars(key, vars, logoUrl), BodyOptions(key));
    SubstitutionWrites(f.bodyHtml, MergedVars(key, vars, logoUrl), BodyOptions(key));
    WrittenConcat(Tokens(p), Tokens(f.bodyHtml) + Tokens(s), values);
    WrittenConcat(Tokens(f.bodyHtml), Tokens(s), values);
  }

  lemma {:induction false} PageNamesAreKnown(key: TemplateKey, f: ContentFields, shell: string,
                                             scan: string -> seq<string>,
                                             p: string, m: string, s: string)
    requires ShellAccepted(shell, scan) && ContentAccepted(key, f, scan) && SplitsAs(shell, p, m, s)
    ensures Placeholders(PageTokens(p, f.bodyHtml, s)) <= KnownNames(key)
  {
    hide NamesOf, Tokens, Placeholders, GetPlaceholdersForKey, ShellAccepted, SplitsAs, HasStrayTripleBraces,
         CountContentSlots;
    PageNames(p, f.bodyHtml, s);
    AcceptedSides(shell, scan, p, m, s);
  }

  lemma CleanIsMerged(key: TemplateKey, vars: Vars, logoUrl: string, name: string)
    requires CleanValues(key, vars, logoUrl) && name in KnownNames(key)
    ensures name in MergedVars(key, vars, logoUrl) && Lacks(MergedVars(key, vars, logoUrl)[name], '{')
  {
    hide GetPlaceholdersForKey;
  }

  /** Values for all known names are what is merged. */
  lemma AssignedIsMerged(key: TemplateKey, values: Vars)
    requires values.Keys == KnownNames(key)
    ensures MergedVars(key, values, values["logoUrl"]) == values
  {
    hide GetPlaceholdersForKey;
  }

  /**
   * Saved templates never send a placeholder in the HTML, for all values without open
   * braces, exactly when no literal brace of the page can come to open one: neither
   * within the shell or the body nor across the places where they meet.
   */
  lemma {:induction false} SentHtmlIsCleanIff(key: TemplateKey, f: ContentFields, shell: string,
                                              scan: string -> seq<string>,
                                              toPlain: string -> string, p: string, m: string, s: string)
    requires ShellAccepted(shell, scan) && ContentAccepted(key, f, scan) && SplitsAs(shell, p, m, s)
    ensures (forall vars, logoUrl :: CleanValues(key, vars, logoUrl) ==>
               NamesOf(MergeResult(key, f, shell, vars, logoUrl, toPlain).html) == {})
       <==> !CanLeave(PageTokens(p, f.bodyHtml, s))
  {
    hide NamesOf, Placeholders, GetPlaceholdersForKey, Written, EscapeHtml, MergeResult, ShellAccepted, SplitsAs,
         ContentAccepted, Rendered, SpellsSlot, PageTokens, CanLeave, MergedVars, KnownNames, CleanValues;
    var ts := PageTokens(p, f.bodyHtml, s);
    PageNamesAreKnown(key, f, shell, scan, p, m, s);
    if CanLeave(ts) {
      var vars, logoUrl := DirtyHtml(key, f, shell, scan, toPlain, p, m, s);
    } else {
      forall vars, logoUrl | CleanValues(key, vars, logoUrl)
        ensures NamesOf(MergeResult(key, f, shell, vars, logoUrl, toPlain).html) == {}
      {
        CleanLogo(key, vars, logoUrl);
        HtmlIsWritten(key, f, shell, scan, vars, logoUrl, toPlain, p, m, s);
        forall name | name in Placeholders(ts)
          ensures name in MergedVars(key, vars, logoUrl) && Lacks(MergedVars(key, vars, logoUrl)[name], '{')
        {
          CleanIsMerged(key, vars, logoUrl, name);
        }
        RenderedIsPlain(ts, MergedVars(key, vars, logoUrl), BodyOptions(key));
        LeavesNothing(ts, Rendered(MergedVars(key, vars, logoUrl), BodyOptions(key)));
      }
    }
  }

  lemma CleanLogo(key: TemplateKey, vars: Vars, logoUrl: string)
    requires CleanValues(key, vars, logoUrl)
    ensures !SpellsSlot(logoUrl)
  {
    OneKindOfBrace(logoUrl);
  }

  /** Clean values with which a page that can leave a placeholder does. */
  lemma {:induction false} DirtyHtml(key: TemplateKey, f: ContentFields, shell: string, scan: string -> seq<string>,
                                     toPlain: string -> string, p: string, m: string, s: string)
    returns (vars: Vars, logoUrl: string)
    requires ShellAccepted(shell, scan) && ContentAccepted(key, f, scan) && SplitsAs(shell, p, m, s)
    requires CanLeave(PageTokens(p, f.bodyHtml, s))
    ensures CleanValues(key, vars, logoUrl)
    ensures NamesOf(MergeResult(key, f, shell, vars, logoUrl, toPlain).html) != {}
  {
    hide NamesOf, Placeholders, GetPlaceholdersForKey, Written, EscapeHtml, MergeResult, ShellAccepted, SplitsAs,
         ContentAccepted, Rendered, SpellsSlot, PageTokens, CanLeave, MergedVars, Harmless;
    var ts := PageTokens(p, f.bodyHtml, s);
    PageNamesAreKnown(key, f, shell, scan, p, m, s);
    vars := LeavesOne(ts, KnownNames(key));
    logoUrl := vars["logoUrl"];
    forall name | name in vars ensures Lacks(vars[name], '{') {
      HarmlessLacks(vars[name]);
    }
    AssignedIsMerged(key, vars);
    HarmlessRendered(vars, BodyOptions(key));
    CleanLogo(key, vars, logoUrl);
    HtmlIsWritten(key, f, shell, scan, vars, logoUrl, toPlain, p, m, s);
  }

  /**
   * For all values whatever, saved templates send no placeholder in the HTML exactly
   * when neither has one and their literal text forms none where they meet.
   */
  lemma {:induction false} AnyHtmlIsCleanIff(key: TemplateKey, f: ContentFields, shell: string,
                                             scan: string -> seq<string>,
                                             toPlain: string -> string, p: string, m: string, s: string)
    requires ShellAccepted(shell, scan) && ContentAccepted(key, f, scan) && SplitsAs(shell, p, m, s)
    ensures (forall vars, logoUrl :: NamesOf(MergeResult(key, f, shell, vars, logoUrl, toPlain).html) == {})
       <==> NamesOf(shell) == {} && NamesOf(f.bodyHtml) == {} && !CanLeave(PageTokens(p, f.bodyHtml, s))
  {
    hide NamesOf, Placeholders, GetPlaceholdersForKey, Written, EscapeHtml, MergeResult, ShellAccepted,
         ContentAccepted, Rendered, SpellsSlot, PageTokens, CanLeave, MergedVars, CleanValues, IsSlot,
         SubstituteDoubleBraces;
    SubstituteAroundSlot(p, m, s, map[], PLAIN);
    PageNames(p, f.bodyHtml, s);
    if CanLeave(PageTokens(p, f.bodyHtml, s)) {
      var vars, logoUrl := DirtyHtml(key, f, shell, scan, toPlain, p, m, s);
    } else if NamesOf(shell) + NamesOf(f.bodyHtml) != {} {
      var name :| name in NamesOf(shell) + NamesOf(f.bodyHtml);
      SpelledHtml(key, f, shell, scan, toPlain, p, m, s, name);
    } else {
      SentHtmlIsCleanIff(key, f, shell, scan, toPlain, p, m, s);
      forall vars, logoUrl ensures NamesOf(MergeResult(key, f, shell, vars, logoUrl, toPlain).html) == {} {
        NoNamesNoValues(key, f, shell, vars, logoUrl, toPlain);
        assert CleanValues(key, map[], "") by { NoValuesAreClean(key); }
      }
    }
  }

  lemma NoValuesAreClean(key: TemplateKey)
    ensures CleanValues(key, map[], "")
  {
  }

  lemma NoNamesNoValues(key: TemplateKey, f: ContentFields, shell: string, vars: Vars, logoUrl: string,
                        toPlain: string -> string)
    requires NamesOf(shell) == {} && NamesOf(f.bodyHtml) == {}
    ensures MergeResult(key, f, shell, vars, logoUrl, toPlain).html
            == MergeResult(key, f, shell, map[], "", toPlain).html
  {
    hide NamesOf, SubstituteDoubleBraces, InjectContentSlot, GetPlaceholdersForKey;
    forall vs, o ensures SubstituteDoubleBraces(shell, vs, o) == shell
        && SubstituteDoubleBraces(f.bodyHtml, vs, o) == f.bodyHtml {
      SubstituteWithoutMatch(shell, vs, o);
      SubstituteWithoutMatch(f.bodyHtml, vs, o);
    }
  }

  lemma {:induction false} SpelledHtml(key: TemplateKey, f: ContentFields, shell: string, scan: string -> seq<string>,
                                       toPlain: string -> string, p: string, m: string, s: string, name: string)
    requires ShellAccepted(shell, scan) && ContentAccepted(key, f, scan) && SplitsAs(shell, p, m, s)
    requires name in Placeholders(PageTokens(p, f.bodyHtml, s))
    ensures exists vars: Vars :: "x" in NamesOf(MergeResult(key, f, shell, vars, SPELLS_X, toPlain).html)
  {
    hide NamesOf, GetPlaceholdersForKey, Written, EscapeHtml, MergeResult, ShellAccepted, SplitsAs, ContentAccepted,
         SpellsSlot, PageTokens, MergedVars, DoubleAt;
    var ts := PageTokens(p, f.bodyHtml, s);
    var vars: Vars := map n | n in KnownNames(key) :: SPELLS_X;
    PageNamesAreKnown(key, f, shell, scan, p, m, s);
    SpellsX();
    AssignedIsMerged(key, vars);
    HtmlIsWritten(key, f, shell, scan, vars, SPELLS_X, toPlain, p, m, s);
    var i :| 0 <= i < |ts| && ts[i].Placeholder? && ts[i].name == name;
    ValueIsLeft(ts, Rendered(vars, BodyOptions(key)), i, 0, "x");
    assert "x" in NamesOf(MergeResult(key, f, shell, vars, SPELLS_X, toPlain).html);
  }

  // ---- The whole email --------------------------------------------------------

  /** Only the rendered order lines are trusted as HTML. */
  lemma OnlyItemsAreTrusted(key: TemplateKey)
    ensures TrustedNames(GetPlaceholdersForKey(key)) == if key == ORDER_PAID then {"itemsHtml"} else {}
  {
    if key == ORDER_PAID {
      var ps := GetPlaceholdersForKey(key);
      assert ps[9] == PlaceholderInfo("itemsHtml", true);
      assert forall i :: 0 <= i < 9 ==> !ps[i].trustedHtml;
    }
  }

  /** The value of each placeholder: the logo URL, the value given for it, or nothing. */
  predicate ArePlain(key: TemplateKey, vars: Vars, logoUrl: string, plain: Vars) {
    plain.Keys == KnownNames(key)
    && forall name :: name in plain ==>
         plain[name] == if name == "logoUrl" then logoUrl else if name in vars then vars[name] else ""
  }

  predicate AreEscaped(key: TemplateKey, plain: Vars, escaped: Vars) {
    escaped.Keys == plain.Keys
    && forall name :: name in plain ==>
         escaped[name] == if key == ORDER_PAID && name == "itemsHtml" then plain[name] else EscapeHtml(plain[name])
  }

  lemma PlainIsRendered(key: TemplateKey, vars: Vars, logoUrl: string, plain: Vars)
    requires ArePlain(key, vars, logoUrl, plain)
    ensures forall name :: name in KnownNames(key) ==>
              name in Rendered(MergedVars(key, vars, logoUrl), PLAIN)
              && Rendered(MergedVars(key, vars, logoUrl), PLAIN)[name] == plain[name]
  {
    hide GetPlaceholdersForKey, EscapeHtml;
  }

  lemma EscapedIsRendered(key: TemplateKey, vars: Vars, logoUrl: string, plain: Vars, escaped: Vars)
    requires ArePlain(key, vars, logoUrl, plain) && AreEscaped(key, plain, escaped)
    ensures forall name :: name in KnownNames(key) ==>
              name in Rendered(MergedVars(key, vars, logoUrl), BodyOptions(key))
              && Rendered(MergedVars(key, vars, logoUrl), BodyOptions(key))[name] == escaped[name]
  {
    OnlyItemsAreTrusted(key);
    hide GetPlaceholdersForKey, EscapeHtml, MergedVars, Rendered, KnownNames;
    forall name | name in KnownNames(key)
      ensures name in Rendered(MergedVars(key, vars, logoUrl), BodyOptions(key))
          && Rendered(MergedVars(key, vars, logoUrl), BodyOptions(key))[name] == escaped[name]
    {
      ValueIs(key, vars, logoUrl, plain, name);
      RenderedIs(MergedVars(key, vars, logoUrl), BodyOptions(key), name);
    }
  }

  lemma ValueIs(key: TemplateKey, vars: Vars, logoUrl: string, plain: Vars, name: string)
    requires ArePlain(key, vars, logoUrl, plain) && name in KnownNames(key)
    ensures name in plain && name in MergedVars(key, vars, logoUrl)
            && MergedVars(key, vars, logoUrl)[name] == plain[name]
  {
    hide GetPlaceholdersForKey;
  }

  lemma RenderedIs(vars: Vars, o: Options, name: string)
    requires name in vars
    ensures name in Rendered(vars, o)
    ensures Rendered(vars, o)[name]
         == if name in o.trustedKeys || !o.escapeScalars then vars[name] else EscapeHtml(vars[name])
  {
    hide EscapeHtml;
  }

  /** A saved field is sent with the values of its options. */
  lemma {:induction false} FieldIsWritten(key: TemplateKey, t: string, vars: Vars, logoUrl: string, o: Options,
                                          values: Vars)
    requires NamesOf(t) <= KnownNames(key) && values.Keys == KnownNames(key)
    requires forall name :: name in KnownNames(key) ==>
               name in Rendered(MergedVars(key, vars, logoUrl), o)
               && Rendered(MergedVars(key, vars, logoUrl), o)[name] == values[name]
    ensures SubstituteDoubleBraces(t, MergedVars(key, vars, logoUrl), o) == Written(Tokens(t), values)
  {
    hide NamesOf, Tokens, Placeholders, GetPlaceholdersForKey, SubstituteDoubleBraces, Written, EscapeHtml, MergedVars,
         KnownNames;
    TokensName(t);
    assert Rendered(MergedVars(key, vars, logoUrl), o).Keys == MergedVars(key, vars, logoUrl).Keys;
    SubstitutionWrites(t, MergedVars(key, vars, logoUrl), o);
    WrittenDependsOn(Tokens(t), Rendered(MergedVars(key, vars, logoUrl), o), values);
  }

  /**
   * Every part of a send is its saved template with the values written in place: as
   * given in the subject and the text, escaped in the HTML. A blank text template is
   * replaced by the plaintext of the body.
   */
  lemma {:induction false} EmailIsWritten(key: TemplateKey, f: ContentFields, shell: string,
                                          scan: string -> seq<string>, vars: Vars, logoUrl: string,
                                          toPlain: string -> string, p: string, m: string, s: string, plain: Vars,
                                          escaped: Vars)
    requires ShellAccepted(shell, scan) && ContentAccepted(key, f, scan) && SplitsAs(shell, p, m, s)
    requires plain.Keys == Names(GetPlaceholdersForKey(key)) + {"logoUrl"} == escaped.Keys
    requires forall name :: name in plain ==>
               plain[name] == if name == "logoUrl" then logoUrl else if name in vars then vars[name] else ""
    requires forall name :: name in plain ==>
               escaped[name]
               == if key == ORDER_PAID && name == "itemsHtml" then plain[name] else EscapeHtml(plain[name])
    ensures var r := MergeResult(key, f, shell, vars, logoUrl, toPlain);
            && r.subject == Written(Tokens(f.subjectTemplate), plain)
            && r.text == (if Trim(f.textTemplate) == "" then toPlain(Written(Tokens(f.bodyHtml), escaped))
                          else Written(Tokens(f.textTemplate), plain))
            && (!SpellsSlot(logoUrl) ==>
                  r.html == Written(Tokens(p), escaped)
                            + (Written(Tokens(f.bodyHtml), escaped) + Written(Tokens(s), escaped)))
  {
    hide NamesOf, Tokens, GetPlaceholdersForKey, SubstituteDoubleBraces, Written, EscapeHtml, ShellAccepted, SplitsAs,
         ContentAccepted, Rendered, SpellsSlot, Trim, InjectContentSlot, MergedVars, KnownNames, Placeholders,
         MergeResult, Names, MergedBody, BodyOptions, ArePlain, AreEscaped;
    AcceptedFieldsName(key, f, scan);
    Known(key);
    assert ArePlain(key, vars, logoUrl, plain) && AreEscaped(key, plain, escaped) by {
      DescribedValues(key, vars, logoUrl, plain, escaped);
    }
    PlainIsRendered(key, vars, logoUrl, plain);
    EscapedIsRendered(key, vars, logoUrl, plain, escaped);
    MergeParts(key, f, shell, vars, logoUrl, toPlain);
    FieldIsWritten(key, f.subjectTemplate, vars, logoUrl, PLAIN, plain);
    FieldIsWritten(key, f.textTemplate, vars, logoUrl, PLAIN, plain);
    FieldIsWritten(key, f.bodyHtml, vars, logoUrl, BodyOptions(key), escaped);
    if !SpellsSlot(logoUrl) {
      PageIsWritten(key, f, shell, scan, vars, logoUrl, toPlain, p, m, s, escaped);
    }
  }

  lemma DescribedValues(key: TemplateKey, vars: Vars, logoUrl: string, plain: Vars, escaped: Vars)
    requires plain.Keys == KnownNames(key) == escaped.Keys
    requires forall name :: name in plain ==>
               plain[name] == if name == "logoUrl" then logoUrl else if name in vars then vars[name] else ""
    requires forall name :: name in plain ==>
               escaped[name]
               == if key == ORDER_PAID && name == "itemsHtml" then plain[name] else EscapeHtml(plain[name])
    ensures ArePlain(key, vars, logoUrl, plain) && AreEscaped(key, plain, escaped)
  {
    hide EscapeHtml, KnownNames;
  }

  lemma MergeParts(key: TemplateKey, f: ContentFields, shell: string, vars: Vars, logoUrl: string,
                   toPlain: string -> string)
    ensures var r, merged := MergeResult(key, f, shell, vars, logoUrl, toPlain), MergedVars(key, vars, logoUrl);
            var body := SubstituteDoubleBraces(f.bodyHtml, merged, BodyOptions(key));
            && r.subject == SubstituteDoubleBraces(f.subjectTemplate, merged, PLAIN)
            && r.text == if Trim(f.textTemplate) == "" then toPlain(body)
                         else SubstituteDoubleBraces(f.textTemplate, merged, PLAIN)
  {
    hide SubstituteDoubleBraces, InjectContentSlot, MergedVars, Trim, BodyOptions;
  }

  lemma Known(key: TemplateKey)
    ensures KnownNames(key) == Names(GetPlaceholdersForKey(key)) + {"logoUrl"}
  {
    hide GetPlaceholdersForKey;
  }

  lemma {:induction false} PageIsWritten(key: TemplateKey, f: ContentFields, shell: string, scan: string -> seq<string>,
                                         vars: Vars, logoUrl: string, toPlain: string -> string, p: string, m: string,
                                         s: string, escaped: Vars)
    requires ShellAccepted(shell, scan) && ContentAccepted(key, f, scan) && SplitsAs(shell, p, m, s)
    requires !SpellsSlot(logoUrl) && escaped.Keys == KnownNames(key)
    requires forall name :: name in KnownNames(key) ==>
               name in Rendered(MergedVars(key, vars, logoUrl), BodyOptions(key))
               && Rendered(MergedVars(key, vars, logoUrl), BodyOptions(key))[name] == escaped[name]
    ensures MergeResult(key, f, shell, vars, logoUrl, toPlain).html
         == Written(Tokens(p), escaped) + (Written(Tokens(f.bodyHtml), escaped) + Written(Tokens(s), escaped))
  {
    hide NamesOf, Tokens, GetPlaceholdersForKey, Written, ShellAccepted, SplitsAs, ContentAccepted, Rendered,
         SpellsSlot, MergedVars, KnownNames, Placeholders, MergeResult;
    HtmlIsWritten(key, f, shell, scan, vars, logoUrl, toPlain, p, m, s);
    PageNamesAreKnown(key, f, shell, scan, p, m, s);
    WrittenDependsOn(PageTokens(p, f.bodyHtml, s), Rendered(MergedVars(key, vars, logoUrl), BodyOptions(key)), escaped);
    WrittenConcat(Tokens(p), Tokens(f.bodyHtml) + Tokens(s), escaped);
    WrittenConcat(Tokens(f.bodyHtml), Tokens(s), escaped);
  }
}

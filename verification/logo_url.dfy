// Which logo URLs keep every saved shell's slot intact
// (src/modules/email/email-template-renderer.service.ts).
module LogoUrl {
  import opened Wrappers
  import opened Text
  import opened TemplateScanner
  import opened TemplateMerge
  import opened ContentSlot
  import opened MergeTheorems
  import opened SlotSpelling
  import opened TemplateRegistry
  import opened TemplateValidation
  import opened TemplateRenderer
  import opened HtmlEscape

  /** A send whose HTML is substituted prefix, merged body, substituted suffix of the shell's slot. */
  ghost predicate MergesExactly(shell: string, key: TemplateKey, f: ContentFields, vars: Vars, logoUrl: string,
                                toPlain: string -> string)
  {
    forall p, m, s :: SplitsAs(shell, p, m, s) ==>
      MergeResult(key, f, shell, vars, logoUrl, toPlain).html
      == MergedShell(p, key, vars, logoUrl) + (MergedBody(key, f, vars, logoUrl) + MergedShell(s, key, vars, logoUrl))
  }

  // ---- Shells that a logo URL breaks ------------------------------------------

  const LOGO := "{{logoUrl}}"

  /** The literal text that takes a slot from symbol `p` to symbol `q` between two placeholders. */
  function Middle(p: nat, q: nat): string
    requires 0 < p <= q < 13
  {
    if p == q then ""
    else (if p == 10 then " " else "") + SLOT[p..q] + (if q == 3 then " " else "")
  }

  lemma MiddleSpells(p: nat, q: nat)
    requires 0 < p <= q < 13 && (p == q || (p <= 10 && 3 <= q))
    ensures Spelled(p, Middle(p, q)) == Some(q)
  {
    hide Spelled;
    SpelledPart(p, q);
    if p == q {
      SpelledBlanks(3, "");
      NothingSpelled(p);
    } else {
      SpelledBlanks(10, " ");
      SpelledBlanks(3, " ");
      NothingSpelled(p);
      NothingSpelled(q);
      var lead, tail := if p == 10 then " " else "", if q == 3 then " " else "";
      SpelledConcat(p, lead + SLOT[p..q], tail);
      SpelledConcat(p, lead, SLOT[p..q]);
    }
  }

  lemma NothingSpelled(n: nat)
    requires n <= 13
    ensures Spelled(n, "") == Some(n)
  {
  }

  /** Open braces stand at the front of the middle, close braces at its end; none touches a placeholder. */
  lemma MiddleBraces(p: nat, q: nat)
    requires 0 < p <= q < 13 && (p == q || (p <= 10 && 3 <= q))
    ensures var mid := Middle(p, q);
            && (mid != "" ==> mid[0] != '}' && mid[|mid| - 1] != '{')
            && (forall x :: 0 <= x < |mid| && mid[x] == '{' ==> p + x < 3)
            && (forall x :: 0 <= x < |mid| && mid[x] == '}' ==> (|mid| - 1 - x) + (13 - q) < 3)
  {
    var mid := Middle(p, q);
    assert forall x :: 0 <= x < q - p ==> SLOT[p..q][x] == SLOT[p + x];
    assert forall n :: 0 <= n < 13 && SLOT[n] == '{' ==> n < 3;
    assert forall n :: 0 <= n < 13 && SLOT[n] == '}' ==> n >= 10;
  }

  lemma LogoMatches(t: string)
    requires t != "" ==> t[0] != '}'
    ensures DoubleAt(LOGO + t) == Some(Hit("logoUrl", 11))
    ensures (LOGO + t)[11..] == t && (LOGO + t)[..11] == LOGO
  {
    LonePlaceholder(LOGO, "logoUrl");
    DoubleAtExtends(LOGO, t);
  }

  /** No placeholder starts in the middle, whose braces are too few or too far apart. */
  lemma MiddleIsLiteral(p: nat, q: nat, x: nat)
    requires 0 < p <= q < 13 && (p == q || (p <= 10 && 3 <= q)) && !(p == 1 && q == 12)
    requires x < |Middle(p, q)|
    ensures DoubleAt((Middle(p, q) + LOGO)[x..]).None?
  {
    hide Middle, DoubleAt;
    var mid := Middle(p, q);
    MiddleBraces(p, q);
    var u := (mid + LOGO)[x..];
    assert forall y :: 0 <= y < |mid| - x ==> u[y] == mid[x + y];
    assert u[|mid| - x] == LOGO[0];
    if DoubleAt(u).Some? {
      DoubleShape(u);
      assert false;
    }
  }

  lemma {:induction false} BridgeTemplate(p: nat, q: nat, v: string, vars: Vars, o: Options)
    requires 0 < p <= q < 13 && (p == q || (p <= 10 && 3 <= q)) && !(p == 1 && q == 12)
    requires "logoUrl" in vars && Render("", "logoUrl", vars, o) == v
    ensures var t := LOGO + (Middle(p, q) + LOGO);
            NamesOf(t) == {"logoUrl"} && SubstituteDoubleBraces(t, vars, o) == v + (Middle(p, q) + v)
  {
    hide DoubleAt, NamesOf, SubstituteDoubleBraces, Middle;
    var mid := Middle(p, q);
    MiddleBraces(p, q);
    LogoMatches(mid + LOGO);
    StepOverMatch(LOGO + (mid + LOGO), vars, o);
    forall x | 0 <= x < |mid| ensures DoubleAt((mid + LOGO)[x..]).None? {
      MiddleIsLiteral(p, q, x);
    }
    SubstituteCopies(mid, LOGO, vars, o);
    LogoMatches("");
    assert LOGO + "" == LOGO;
    StepOverMatch(LOGO, vars, o);
    NothingToSubstitute(vars, o);
    NamesOfEmpty();
    assert v + "" == v;
  }

  /** Two texts make a run of three only if both have the character where they meet. */
  lemma NoTripleJoin(a: string, b: string, c: char)
    requires NoTriple(a, c) && NoTriple(b, c)
    requires a == "" || b == "" || a[|a| - 1] != c || b[0] != c
    ensures NoTriple(a + b, c)
  {
    var t := a + b;
    forall i | 0 <= i && i + 2 < |t| ensures !(t[i] == c && t[i + 1] == c && t[i + 2] == c) {
      if i >= |a| {
        assert t[i] == b[i - |a|] && t[i + 1] == b[i - |a| + 1] && t[i + 2] == b[i - |a| + 2];
      } else if i + 2 < |a| {
        assert t[i] == a[i] && t[i + 1] == a[i + 1] && t[i + 2] == a[i + 2];
      } else {
        assert t[|a| - 1] == a[|a| - 1] && t[|a|] == b[0];
      }
    }
  }

  lemma BridgeHasNoStray(p: nat, q: nat)
    requires 0 < p <= q < 13 && (p == q || (p <= 10 && 3 <= q))
    ensures NoStray(LOGO + (Middle(p, q) + LOGO))
  {
    hide Middle, NoTriple;
    var mid := Middle(p, q);
    MiddleBraces(p, q);
    LogoHasNoStray();
    MiddleHasNoStray(p, q);
    forall c | c == '{' || c == '}' ensures NoTriple(LOGO + (mid + LOGO), c) {
      NoTripleJoin(mid, LOGO, c);
      NoTripleJoin(LOGO, mid + LOGO, c);
    }
  }

  lemma LogoHasNoStray()
    ensures NoStray(LOGO)
  {
    assert forall i :: 2 <= i < 9 ==> LOGO[i] != '{' && LOGO[i] != '}';
  }

  lemma MiddleHasNoStray(p: nat, q: nat)
    requires 0 < p <= q < 13 && (p == q || (p <= 10 && 3 <= q))
    ensures NoStray(Middle(p, q))
  {
    hide Middle;
    MiddleBraces(p, q);
  }

  // ---- Accepted, and broken ---------------------------------------------------

  /** `scan` finds nothing in text without `<` and `=`, as every blocked construct has one of them. */
  ghost predicate BlocksOnlyMarkup(scan: string -> seq<string>) {
    forall t: string :: Lacks(t, '<') && Lacks(t, '=') ==> scan(t) == []
  }

  lemma SlotHasNoStrayAround()
    ensures IsSlot(SLOT) && NoStray("")
  {
    SpelledPart(0, 13);
    assert SLOT[0..13] == SLOT;
    SpelledIsTheSlot(SLOT);
  }

  /** A short template with the logo and no stray braces, followed by a slot, is an accepted shell. */
  lemma {:induction false} ShellIsAccepted(t: string, scan: string -> seq<string>)
    requires NoStray(t) && NamesOf(t) <= {"logoUrl"} && |t| <= 100 && scan(t + (SLOT + "")) == []
    ensures ShellAccepted(t + (SLOT + ""), scan) && SplitsAs(t + (SLOT + ""), t, SLOT, "")
  {
    hide DoubleAt, SlotAt, NamesOf, CountContentSlots, StripSlots, NoTriple, Utf8Length, SubstituteDoubleBraces;
    var shell := t + (SLOT + "");
    SlotHasNoStrayAround();
    OnlySlot(t, SLOT, "", '{');
    SplitAtSlot(t, SLOT, "", "");
    assert t + "" == t;
    Utf8LengthBound(shell);
    assert SYSTEM_PLACEHOLDERS[0].name == "logoUrl";
  }

  lemma PlainShell(t: string, scan: string -> seq<string>)
    requires Lacks(t, '<') && Lacks(t, '=') && BlocksOnlyMarkup(scan)
    ensures scan(t + (SLOT + "")) == []
  {
    assert Lacks(SLOT + "", '<') && Lacks(SLOT + "", '=');
    LacksConcat(t, SLOT + "", '<');
    LacksConcat(t, SLOT + "", '=');
  }

  lemma Utf8LengthBound(t: string)
    ensures Utf8Length(t) <= 4 * |t|
  {
  }

  /** A slot anywhere in a text is counted. */
  lemma SlotIsCounted(a: string, m: string, b: string)
    requires IsSlot(m)
    ensures CountContentSlots(a + (m + b)) > 0
  {
    SlotsAroundSlot(a, m, b);
  }

  lemma HeldSlotIsCounted(v: string)
    requires HoldsSlot(v)
    ensures CountContentSlots(v) > 0
  {
    hide SlotAt, CountContentSlots;
    var i :| 0 <= i < |v| && SlotAt(v[i..]).Some?;
    if CountContentSlots(v) == 0 {
      CountZeroMeansNoSlot(v);
      assert false;
    }
  }

  /** The template that a value which spells a slot breaks. */
  lemma {:induction false} BrokenTemplate(v: string, vars: Vars, o: Options) returns (t: string)
    requires SpellsSlot(v) && "logoUrl" in vars && Render("", "logoUrl", vars, o) == v
    ensures NoStray(t) && NamesOf(t) <= {"logoUrl"} && Lacks(t, '<') && Lacks(t, '=') && |t| <= 100
    ensures CountContentSlots(SubstituteDoubleBraces(t, vars, o)) > 0
  {
    hide DoubleAt, SlotAt, NamesOf, SubstituteDoubleBraces, CountContentSlots, NoTriple, Middle, Spelled;
    if HoldsSlot(v) {
      t := LOGO;
      LogoHasNoStray();
      LogoMatches("");
      assert LOGO + "" == LOGO && v + "" == v;
      StepOverMatch(LOGO, vars, o);
      NothingToSubstitute(vars, o);
      NamesOfEmpty();
      HeldSlotIsCounted(v);
      LogoIsPlain();
    } else {
      var i, j :| 0 <= i < |v| && 0 < j <= |v| && Bridges(v[i..], v[..j]);
      var p, q :| 0 < p <= q < 13 && BridgesAt(v[i..], v[..j], p, q);
      t := LOGO + (Middle(p, q) + LOGO);
      BridgeHasNoStray(p, q);
      BridgeTemplate(p, q, v, vars, o);
      BridgeIsPlain(p, q);
      var m := v[i..] + (Middle(p, q) + v[..j]);
      MiddleSpells(p, q);
      SpelledConcat(0, v[i..], Middle(p, q) + v[..j]);
      SpelledConcat(p, Middle(p, q), v[..j]);
      SpelledIsTheSlot(m);
      SlotIsCounted(v[..i], m, v[j..]);
      assert v + (Middle(p, q) + v) == v[..i] + (m + v[j..]);
    }
  }

  lemma LogoIsPlain()
    ensures Lacks(LOGO, '<') && Lacks(LOGO, '=')
  {
  }

  lemma BridgeIsPlain(p: nat, q: nat)
    requires 0 < p <= q < 13
    ensures var t := LOGO + (Middle(p, q) + LOGO); Lacks(t, '<') && Lacks(t, '=') && |t| <= 100
  {
    assert forall n :: 0 <= n < 13 ==> SLOT[n] != '<' && SLOT[n] != '=';
    LogoIsPlain();
    forall c | c == '<' || c == '=' ensures Lacks(LOGO + (Middle(p, q) + LOGO), c) {
      LacksConcat(Middle(p, q), LOGO, c);
      LacksConcat(LOGO, Middle(p, q) + LOGO, c);
    }
  }

  /**
   * Every accepted shell is merged exactly if and only if the logo URL cannot spell a
   * slot: otherwise some accepted shell sends something else.
   */
  lemma {:induction false} AcceptedShellsMergeExactlyIff(key: TemplateKey, f: ContentFields, vars: Vars,
                                                         logoUrl: string,
                                                         toPlain: string -> string, scan: string -> seq<string>)
    requires BlocksOnlyMarkup(scan)
    ensures (forall shell :: ShellAccepted(shell, scan) ==> MergesExactly(shell, key, f, vars, logoUrl, toPlain))
       <==> !SpellsSlot(logoUrl)
  {
    hide ShellAccepted, SpellsSlot, EscapeHtml, MergeResult, BlocksOnlyMarkup, SplitsAs;
    if SpellsSlot(logoUrl) {
      var shell := BrokenShell(key, f, vars, logoUrl, toPlain, scan);
    } else {
      forall shell, p, m, s | ShellAccepted(shell, scan) && SplitsAs(shell, p, m, s)
        ensures MergeResult(key, f, shell, vars, logoUrl, toPlain).html
             == MergedShell(p, key, vars, logoUrl)
                 + (MergedBody(key, f, vars, logoUrl) + MergedShell(s, key, vars, logoUrl))
      {
        SavedTemplatesMergeExactly(key, f, shell, scan, vars, logoUrl, toPlain, p, m, s);
      }
    }
  }

  lemma {:induction false} BrokenShell(key: TemplateKey, f: ContentFields, vars: Vars, logoUrl: string,
                                       toPlain: string -> string, scan: string -> seq<string>)
    returns (shell: string)
    requires BlocksOnlyMarkup(scan) && SpellsSlot(logoUrl)
    ensures ShellAccepted(shell, scan) && !MergesExactly(shell, key, f, vars, logoUrl, toPlain)
  {
    hide ShellAccepted, SpellsSlot, EscapeHtml, BlocksOnlyMarkup, NoStray, NamesOf, SubstituteDoubleBraces,
         CountContentSlots, InjectContentSlot, GetPlaceholdersForKey, IsSlot;
    var mergedVars, o := MergedVars(key, vars, logoUrl), Options(true, {});
    EscapedSpellsSlot(logoUrl);
    var t := BrokenTemplate(EscapeHtml(logoUrl), mergedVars, o);
    shell := t + (SLOT + "");
    PlainShell(t, scan);
    ShellIsAccepted(t, scan);
    ShellMergeIff(t, SLOT, "", mergedVars, o, MergedBody(key, f, vars, logoUrl));
    assert SplitsAs(shell, t, SLOT, "");
  }
}

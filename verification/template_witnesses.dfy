// Concrete templates at the edge of what the save-time validation guarantees.
module TemplateWitnesses {
  import opened Wrappers
  import opened Text
  import opened TemplateScanner
  import opened TemplateMerge
  import opened ContentSlot
  import opened MergeTheorems
  import opened TemplateRegistry
  import opened TemplateValidation
  import opened TemplateRenderer
  import opened SlotSpelling
  import opened LogoUrl
  import opened HtmlEscape

  /** A match has at least five characters. */
  lemma ShortTextIsPlain(t: string, vars: Vars, o: Options)
    requires |t| < 5
    ensures NamesOf(t) == {} && SubstituteDoubleBraces(t, vars, o) == t
  {
    assert t + "" == t;
    SubstituteCopies(t, "", vars, o);
    NamesOfEmpty();
  }

  /** Text without `{{{` has no slot. */
  lemma NoTripleNoSlot(t: string)
    requires NoTriple(t, '{')
    ensures CountContentSlots(t) == 0 && StripSlots(t) == t
  {
    forall k | 0 <= k < |t| ensures SlotAt(t[k..]).None? {
      if SlotAt(t[k..]).Some? {
        SlotHasTriples(t, k);
        assert false;
      }
    }
    NoSlotNothingHappens(t, "");
  }

  const INVITE := "{{inviteUrl}}"
  const NESTED := "{{a" + (INVITE + "b}}")

  lemma NestedScan(vars: Vars, o: Options)
    ensures NamesOf(NESTED) == {"inviteUrl"}
    ensures SubstituteDoubleBraces(NESTED, vars, o) == "{{a" + (Render(INVITE, "inviteUrl", vars, o) + "b}}")
  {
    hide DoubleAt, NamesOf, SubstituteDoubleBraces;
    LonePlaceholder(INVITE, "inviteUrl");
    DoubleAtExtends(INVITE, "b}}");
    assert (INVITE + "b}}")[|INVITE|..] == "b}}" && (INVITE + "b}}")[..|INVITE|] == INVITE;
    StepOverMatch(INVITE + "b}}", vars, o);
    SubstituteConcat("{{a", INVITE + "b}}", vars, o);
    ShortTextIsPlain("{{a", vars, o);
    ShortTextIsPlain("b}}", vars, o);
  }

  lemma NestedHasNoTriple()
    ensures NoTriple(NESTED, '{') && NoTriple(NESTED, '}')
  {
    assert INVITE[2] == 'i' && INVITE[10] == 'l';
    NoTriplePrepend("b", "}}", '}');
    assert NoTriple("b}}", '{');
  }

  lemma NestedIsAccepted(scan: string -> seq<string>)
    requires scan(NESTED) == []
    ensures ContentAccepted(VENDOR_INVITE, ContentFields("", NESTED, ""), scan)
  {
    hide NamesOf, StripSlots, CountContentSlots, Utf8Length, NoTriple, DoubleAt, SlotAt, SubstituteDoubleBraces;
    NestedScan(map[], PLAIN);
    NestedHasNoTriple();
    NoTripleNoSlot(NESTED);
    NamesOfEmpty();
    Utf8LengthBound(NESTED);
    Utf8LengthBound("");
    assert GetPlaceholdersForKey(VENDOR_INVITE)[0].name == "inviteUrl";
  }

  /** A body that passes validation and still sends a placeholder: one written around another. */
  lemma NestedPlaceholderIsSent(scan: string -> seq<string>)
    requires scan(NESTED) == []
    ensures var f := ContentFields("", NESTED, "");
            && ContentAccepted(VENDOR_INVITE, f, scan)
            && NamesOf(MergedBody(VENDOR_INVITE, f, map["inviteUrl" := "X"], "")) == {"aXb"}
  {
    hide NamesOf, SubstituteDoubleBraces, ContentAccepted, DoubleAt, EscapeHtml;
    NestedIsAccepted(scan);
    var vars := MergedVars(VENDOR_INVITE, map["inviteUrl" := "X"], "");
    NestedScan(vars, BodyOptions(VENDOR_INVITE));
    EscapeKeepsPlain("X");
    assert Render(INVITE, "inviteUrl", vars, BodyOptions(VENDOR_INVITE)) == "X";
    assert "{{a" + ("X" + "b}}") == "{{aXb}}" == "{{" + "aXb" + "}}";
    LonePlaceholder("{{aXb}}", "aXb");
  }

  /** A template that is one placeholder. */
  lemma {:induction false} LoneTemplate(t: string, name: string, vars: Vars, o: Options)
    requires |t| >= 5 && t == "{{" + name + "}}" && NameIn(t, 2, |t| - 2)
    ensures NamesOf(t) == {name} && SubstituteDoubleBraces(t, vars, o) == Render(t, name, vars, o)
  {
    hide DoubleAt, NamesOf, SubstituteDoubleBraces;
    LonePlaceholder(t, name);
    StepOverMatch(t, vars, o);
    ShortTextIsPlain("", vars, o);
    assert t[..|t|] == t && t[|t|..] == "";
  }

  const STORE := "{{storeName}}"
  const TYPED := "{{x}}"

  lemma {:induction false} StoreIsAccepted(scan: string -> seq<string>)
    requires scan(STORE) == []
    ensures ContentAccepted(STORE_MEMBER_INVITE, ContentFields("", STORE, ""), scan)
  {
    hide NamesOf, SubstituteDoubleBraces, StripSlots, CountContentSlots, Utf8Length, DoubleAt, SlotAt, NoTriple;
    LoneTemplate(STORE, "storeName", map[], PLAIN);
    StoreHasNoStray();
    NoTripleNoSlot(STORE);
    NamesOfEmpty();
    Utf8LengthBound(STORE);
    Utf8LengthBound("");
    assert GetPlaceholdersForKey(STORE_MEMBER_INVITE)[1].name == "storeName";
  }

  lemma StoreHasNoStray()
    ensures NoStray(STORE)
  {
    assert forall i :: 2 <= i < 11 ==> STORE[i] != '{' && STORE[i] != '}';
  }

  /** A store name typed with braces is sent as a placeholder, though every brace of the saved body matches. */
  lemma {:induction false} TypedPlaceholderIsSent(scan: string -> seq<string>)
    requires scan(STORE) == []
    ensures var f := ContentFields("", STORE, "");
            && ContentAccepted(STORE_MEMBER_INVITE, f, scan)
            && NamesOf(MergedBody(STORE_MEMBER_INVITE, f, map["storeName" := TYPED], "")) == {"x"}
  {
    hide NamesOf, SubstituteDoubleBraces, ContentAccepted, DoubleAt, EscapeHtml;
    StoreIsAccepted(scan);
    var vars := MergedVars(STORE_MEMBER_INVITE, map["storeName" := TYPED], "");
    LoneTemplate(STORE, "storeName", vars, BodyOptions(STORE_MEMBER_INVITE));
    EscapeKeepsPlain(TYPED);
    assert TYPED == "{{" + "x" + "}}";
    LoneTemplate(TYPED, "x", vars, PLAIN);
  }

  /** Braces of a shell and the text of a body can form a placeholder where they meet. */
  lemma SeamPlaceholderIsSent(scan: string -> seq<string>, toPlain: string -> string)
    requires scan("{{" + (SLOT + "}}")) == [] && scan("a") == []
    ensures var shell, f := "{{" + (SLOT + "}}"), ContentFields("", "a", "");
            && ShellAccepted(shell, scan) && ContentAccepted(VENDOR_INVITE, f, scan)
            && NamesOf(MergeResult(VENDOR_INVITE, f, shell, map[], "", toPlain).html) == {"a"}
  {
    hide NamesOf, SubstituteDoubleBraces, StripSlots, CountContentSlots, Utf8Length, DoubleAt, SlotAt, EscapeHtml,
         NoTriple, InjectContentSlot, GetPlaceholdersForKey;
    var shell, vars := "{{" + (SLOT + "}}"), MergedVars(VENDOR_INVITE, map[], "");
    SlotHasNoStrayAround();
    ShortHasNoStray();
    OnlySlot("{{", SLOT, "}}", '{');
    SplitAtSlot("{{", SLOT, "}}", "a");
    ShortTextIsPlain("{{", vars, Options(true, {}));
    ShortTextIsPlain("}}", vars, Options(true, {}));
    ShortTextIsPlain("{{}}", vars, PLAIN);
    ShortTextIsPlain("a", vars, BodyOptions(VENDOR_INVITE));
    ShortTextIsPlain("", vars, PLAIN);
    SubstituteAroundSlot("{{", SLOT, "}}", vars, Options(true, {}));
    NoTripleNoSlot("a");
    Utf8LengthBound(shell);
    Utf8LengthBound("a");
    Utf8LengthBound("");
    assert "{{" + ("a" + "}}") == "{{a}}" == "{{" + "a" + "}}" && "{{" + "}}" == "{{}}";
    LoneTemplate("{{a}}", "a", vars, PLAIN);
  }

  lemma ShortHasNoStray()
    ensures NoTriple("{{", '{') && NoTriple("}}", '{') && NoStray("{{}}") && NoStray("a")
  {
  }

  lemma {:induction false} LogoShellIsAccepted(scan: string -> seq<string>)
    requires scan(LOGO + (SLOT + "")) == []
    ensures ShellAccepted(LOGO + (SLOT + ""), scan)
  {
    hide ShellAccepted, NamesOf, NoStray;
    LogoHasNoStray();
    assert LOGO == "{{" + "logoUrl" + "}}";
    LoneTemplate(LOGO, "logoUrl", map[], PLAIN);
    ShellIsAccepted(LOGO, scan);
  }

  lemma {:induction false} LogoIsMerged(key: TemplateKey, vars: Vars)
    ensures MergedShell(LOGO, key, vars, SLOT) == SLOT
    ensures MergedShell(LOGO + (SLOT + ""), key, vars, SLOT) == SLOT + (SLOT + "")
  {
    hide NamesOf, SubstituteDoubleBraces, IsSlot, EscapeHtml, DoubleAt, GetPlaceholdersForKey;
    var mergedVars, o := MergedVars(key, vars, SLOT), Options(true, {});
    SlotIsItsEscape();
    SlotHasNoStrayAround();
    assert LOGO == "{{" + "logoUrl" + "}}";
    LoneTemplate(LOGO, "logoUrl", mergedVars, o);
    SubstituteAroundSlot(LOGO, SLOT, "", mergedVars, o);
    ShortTextIsPlain("", mergedVars, o);
  }

  /**
   * Why a logo URL must not spell a slot: this one takes the body, and the slot of an
   * accepted shell is dropped.
   */
  lemma {:induction false} LogoThatSpellsSlot(f: ContentFields, vars: Vars, key: TemplateKey,
                                              scan: string -> seq<string>,
                                              toPlain: string -> string)
    requires scan(LOGO + (SLOT + "")) == []
    ensures var shell := LOGO + (SLOT + "");
            && ShellAccepted(shell, scan)
            && MergeResult(key, f, shell, vars, SLOT, toPlain).html == MergedBody(key, f, vars, SLOT)
            && MergedShell(LOGO, key, vars, SLOT) == SLOT
  {
    hide MergedShell, MergedBody, IsSlot, CountContentSlots, StripSlots, InjectContentSlot, ShellAccepted;
    var body := MergedBody(key, f, vars, SLOT);
    LogoShellIsAccepted(scan);
    LogoIsMerged(key, vars);
    SlotHasNoStrayAround();
    StepOverSlot(SLOT, SLOT + "", body);
    StepOverSlot(SLOT, "", body);
    InjectEnd("", body);
    assert body + "" == body;
  }

  lemma SlotIsItsEscape()
    ensures EscapeHtml(SLOT) == SLOT
  {
    assert forall n :: 0 <= n < 13 ==> SLOT[n] !in SPECIAL;
    EscapeKeepsPlain(SLOT);
  }

  const PIECES := "}x{{{content}"

  /**
   * A URL that begins with the end of a slot and ends with the beginning of one, and
   * still spells none: the missing close brace cannot stand behind a placeholder.
   */
  lemma PiecesDoNotFit()
    ensures !SpellsSlot(PIECES)
  {
    hide SlotAt, Spelled;
    var v := PIECES;
    forall i | 0 <= i < |v| ensures SlotAt(v[i..]).None? {
      if SlotAt(v[i..]).Some? {
        SlotHasTriples(v, i);
        assert false;
      }
    }
    forall i, j | 0 <= i < |v| && 0 < j <= |v| ensures !Bridges(v[i..], v[..j]) {
      assert v[i] == v[i..][0] && v[j - 1] == v[..j][j - 1];
      if p, q :| 0 < p <= q < 13 && BridgesAt(v[i..], v[..j], p, q) {
        BeginsWithBrace(v[i..], p);
        LastIsBrace(q, v[..j]);
        PiecesEnd(i);
        PiecesBegin(j, q);
        assert false;
      }
    }
  }

  lemma PiecesEnd(i: nat)
    requires i == 2 || i == 3 || i == 4
    ensures Spelled(0, PIECES[i..]) == if i == 2 then Some(11) else None
  {
    if i == 2 {
      assert PIECES[2..] == SLOT[0..11];
      SpelledPart(0, 11);
    } else {
      var a := PIECES[i..];
      assert PIECES[3..][1..] == PIECES[4..] && PIECES[4..][1..] == PIECES[5..];
      assert PIECES[4..][0] == '{' && PIECES[5..][0] == 'c';
      assert Spelled(1, PIECES[5..]) == None && Spelled(2, PIECES[5..]) == None;
    }
  }

  lemma PiecesBegin(j: nat, q: nat)
    requires q < 13 && (j == 1 || j == |PIECES|) && Spelled(q, PIECES[..j]) == Some(13)
    ensures j == 1 && q == 12
  {
    var whole, first := PIECES[..|PIECES|], PIECES[..1];
    assert whole[1..][0] == 'x' && first[1..] == "";
  }
}

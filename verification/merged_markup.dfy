// Where the markup of a sent email comes from: the saved templates and the trusted
// values, never the escaped ones.
module MergedMarkup {
  import opened Text
  import opened TemplateScanner
  import opened TemplateMerge
  import opened ContentSlot
  import opened TemplateRegistry
  import opened TemplateValidation
  import opened TemplateRenderer
  import HtmlEscape
  import MergeTheorems

  predicate IsMarkup(c: char) {
    c == '<' || c == '>' || c == '"'
  }

  function CountChar(s: string, c: char): nat {
    if s == "" then 0 else (if s[0] == c then 1 else 0) + CountChar(s[1..], c)
  }

  lemma {:induction false} CountConcat(s: string, t: string, c: char)
    ensures CountChar(s + t, c) == CountChar(s, c) + CountChar(t, c)
  {
    if s == "" {
      assert s + t == t;
    } else {
      assert (s + t)[1..] == s[1..] + t;
      CountConcat(s[1..], t, c);
    }
  }

  lemma {:induction false} CountAbsent(s: string, c: char)
    requires Lacks(s, c)
    ensures CountChar(s, c) == 0
  {
    if s != "" {
      CountAbsent(s[1..], c);
    }
  }

  lemma MarkupIsNoRun(c: char)
    requires IsMarkup(c)
    ensures !IsSpace(c) && !IsNameChar(c)
  {
  }

  /** Neither kind of placeholder contains markup. */
  lemma MatchHasNoMarkup(t: string, c: char)
    requires DoubleAt(t).Some? && IsMarkup(c)
    ensures CountChar(t[..DoubleAt(t).value.len], c) == 0
  {
    var a, b, d := DoubleHitParts(t);
    MarkupIsNoRun(c);
    CountAbsent(t[..DoubleAt(t).value.len], c);
  }

  lemma SlotHasNoMarkup(m: string, c: char)
    requires IsSlot(m) && IsMarkup(c)
    ensures CountChar(m, c) == 0
  {
    var a, d := SlotHitParts(m);
    MarkupIsNoRun(c);
    CountAbsent(m, c);
  }

  predicate SubstitutedRaw(name: string, o: Options) {
    name in o.trustedKeys || !o.escapeScalars
  }

  /** Occurrences of `c` in the values that are substituted without escaping, match by match. */
  function RawMarkup(t: string, vars: Vars, o: Options, c: char): nat
    decreases |t|
  {
    if t == "" then 0
    else
      var rest := RawMarkup(t[Advance(t)..], vars, o, c);
      if DoubleAt(t).None? then rest
      else
        var name := DoubleAt(t).value.name;
        if name in vars && SubstitutedRaw(name, o) then CountChar(vars[name], c) + rest else rest
  }

  lemma EmittedMarkup(t: string, vars: Vars, o: Options, c: char)
    requires t != "" && IsMarkup(c) && HeadNames(t) <= vars.Keys
    ensures CountChar(Emit(t, vars, o), c) + RawMarkup(t[Advance(t)..], vars, o, c)
         == CountChar(t[..Advance(t)], c) + RawMarkup(t, vars, o, c)
  {
    hide DoubleAt, CountChar;
    if DoubleAt(t).Some? {
      var name := DoubleAt(t).value.name;
      MatchHasNoMarkup(t, c);
      if !SubstitutedRaw(name, o) {
        HtmlEscape.EscapeLeavesNoMarkup(vars[name]);
        CountAbsent(HtmlEscape.EscapeHtml(vars[name]), c);
      }
    } else {
      assert t[..Advance(t)] == [t[0]];
    }
  }

  /** Substitution adds exactly the markup of the values that are not escaped. */
  lemma {:induction false} SubstitutedMarkup(t: string, vars: Vars, o: Options, c: char)
    requires IsMarkup(c) && NamesOf(t) <= vars.Keys
    ensures CountChar(SubstituteDoubleBraces(t, vars, o), c) == CountChar(t, c) + RawMarkup(t, vars, o, c)
    decreases |t|
  {
    hide DoubleAt, Emit, Advance, HeadNames;
    if t != "" {
      var n := Advance(t);
      EmittedMarkup(t, vars, o, c);
      SubstitutedMarkup(t[n..], vars, o, c);
      CountConcat(Emit(t, vars, o), SubstituteDoubleBraces(t[n..], vars, o), c);
      CountConcat(t[..n], t[n..], c);
      assert t == t[..n] + t[n..];
    }
  }

  lemma {:induction false} NothingRaw(t: string, vars: Vars, o: Options, c: char)
    requires forall name :: name in NamesOf(t) ==> !SubstitutedRaw(name, o)
    ensures RawMarkup(t, vars, o, c) == 0
    decreases |t|
  {
    hide DoubleAt;
    if t != "" {
      NothingRaw(t[Advance(t)..], vars, o, c);
    }
  }

  /** Slots hold no markup, so dropping them drops none. */
  lemma {:induction false} StrippedMarkup(h: string, c: char)
    requires IsMarkup(c)
    ensures CountChar(StripSlots(h), c) == CountChar(h, c)
    decreases |h|
  {
    hide SlotAt;
    if h != "" {
      var n := SlotStep(h);
      StrippedMarkup(h[n..], c);
      CountConcat(h[..n], h[n..], c);
      assert h == h[..n] + h[n..];
      StepMarkup(h, c);
      CountConcat(if SlotAt(h).Some? then "" else [h[0]], StripSlots(h[n..]), c);
    }
  }

  lemma StepMarkup(h: string, c: char)
    requires h != "" && IsMarkup(c)
    ensures CountChar(h[..SlotStep(h)], c) == if SlotAt(h).Some? then 0 else CountChar([h[0]], c)
  {
    hide SlotAt;
    var n := SlotStep(h);
    if SlotAt(h).Some? {
      assert h == h[..n] + h[n..];
      SlotAtRestricts(h[..n], h[n..]);
      SlotHasNoMarkup(h[..n], c);
    } else {
      assert h[..n] == [h[0]];
    }
  }

  /** Injection into a text with a slot adds the markup of the body once. */
  lemma {:induction false} InjectedMarkup(h: string, body: string, c: char)
    requires IsMarkup(c) && CountContentSlots(h) > 0
    ensures CountChar(InjectContentSlot(h, body), c) == CountChar(h, c) + CountChar(body, c)
    decreases |h|
  {
    hide SlotAt, CountChar;
    var n := SlotStep(h);
    StepMarkup(h, c);
    CountConcat(h[..n], h[n..], c);
    assert h == h[..n] + h[n..];
    if SlotAt(h).Some? {
      StrippedMarkup(h[n..], c);
      CountConcat(body, StripSlots(h[n..]), c);
    } else {
      InjectedMarkup(h[1..], body, c);
      CountConcat([h[0]], InjectContentSlot(h[1..], body), c);
    }
  }

  /**
   * The angle brackets and double quotes of a sent HTML email are those of the saved
   * shell and body and of the trusted values; no scalar value and no logo URL adds any,
   * not even one that spells a slot.
   */
  lemma SentMarkup(key: TemplateKey, f: ContentFields, shell: string, scan: string -> seq<string>,
                   vars: Vars, logoUrl: string, toPlain: string -> string, c: char)
    requires ShellAccepted(shell, scan) && ContentAccepted(key, f, scan) && IsMarkup(c)
    ensures CountChar(MergeResult(key, f, shell, vars, logoUrl, toPlain).html, c)
         == CountChar(shell, c) + CountChar(f.bodyHtml, c)
            + RawMarkup(f.bodyHtml, MergedVars(key, vars, logoUrl), BodyOptions(key), c)
  {
    hide DoubleAt, SlotAt, NamesOf, CountChar, ShellAccepted, ContentAccepted, GetPlaceholdersForKey,
         SubstituteDoubleBraces, RawMarkup, MergedVars, InjectContentSlot, CountContentSlots;
    var p, m, s := AcceptedShellSplits(shell, scan);
    SavedPlaceholdersHaveValues(key, f, shell, scan, vars, logoUrl);
    var mergedVars := MergedVars(key, vars, logoUrl);
    ShellMarkup(shell, mergedVars, c);
    SubstitutedMarkup(f.bodyHtml, mergedVars, BodyOptions(key), c);
    MergeTheorems.ShellMergeIff(p, m, s, mergedVars, Options(true, {}), "");
    InjectedMarkup(MergedShell(shell, key, vars, logoUrl), MergedBody(key, f, vars, logoUrl), c);
  }

  lemma ShellMarkup(t: string, vars: Vars, c: char)
    requires IsMarkup(c) && NamesOf(t) <= vars.Keys
    ensures CountChar(SubstituteDoubleBraces(t, vars, Options(true, {})), c) == CountChar(t, c)
  {
    hide DoubleAt, NamesOf;
    SubstitutedMarkup(t, vars, Options(true, {}), c);
    NothingRaw(t, vars, Options(true, {}), c);
  }
}

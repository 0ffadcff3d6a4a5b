// What substitution does to a shell around its slot.
module MergeTheorems {
  import opened Text
  import opened TemplateScanner
  import opened TemplateMerge
  import opened ContentSlot
  import HtmlEscape

  // ---- The slot survives substitution -----------------------------------------

  /** No placeholder match starts inside a slot marker. */
  lemma NoMatchInSlot(m: string, s: string, j: nat)
    requires IsSlot(m) && j < |m|
    ensures DoubleAt((m + s)[j..]).None?
  {
    SlotShape(m);
    var u := m + s;
    assert forall i :: 0 <= i < |m| ==> u[i] == m[i];
    if DoubleAt(u[j..]).Some? {
      DoubleShape(u[j..]);
    }
  }

  lemma SubstituteSlot(m: string, s: string, vars: map<string, string>, o: Options)
    requires IsSlot(m)
    ensures SubstituteDoubleBraces(m + s, vars, o) == m + SubstituteDoubleBraces(s, vars, o)
    ensures NamesOf(m + s) == NamesOf(s)
  {
    hide DoubleAt, SlotAt;
    forall j | 0 <= j < |m| ensures DoubleAt((m + s)[j..]).None? {
      NoMatchInSlot(m, s, j);
    }
    SubstituteCopies(m, s, vars, o);
  }

  /** Substitution works on both sides of the slot and leaves the slot alone. */
  lemma {:induction false} SubstituteAroundSlot(p: string, m: string, s: string, vars: map<string, string>, o: Options)
    requires IsSlot(m)
    ensures SubstituteDoubleBraces(p + (m + s), vars, o)
         == SubstituteDoubleBraces(p, vars, o) + (m + SubstituteDoubleBraces(s, vars, o))
    ensures NamesOf(p + (m + s)) == NamesOf(p) + NamesOf(s)
  {
    hide DoubleAt;
    SlotShape(m);
    SubstituteConcat(p, m + s, vars, o);
    SubstituteSlot(m, s, vars, o);
  }

  // ---- Triple braces are not created ------------------------------------------

  /** Every placeholder of `t` has a value, and that value lacks `c`. */
  predicate ValuesLack(t: string, vars: map<string, string>, c: char) {
    forall name :: name in NamesOf(t) ==> name in vars && Lacks(vars[name], c)
  }

  /** The number of leading copies of `c`. */
  function LeadRun(t: string, c: char): (n: nat)
    ensures n <= |t| && forall i :: 0 <= i < n ==> t[i] == c
  {
    if t == "" || t[0] != c then 0 else 1 + LeadRun(t[1..], c)
  }

  lemma EmitLacks(t: string, vars: map<string, string>, o: Options, c: char)
    requires (c == '{' || c == '}') && DoubleAt(t).Some? && ValuesLack(t, vars, c)
    ensures Lacks(Emit(t, vars, o), c)
  {
    hide DoubleAt;
    var name := DoubleAt(t).value.name;
    assert name in NamesOf(t);
    HtmlEscape.EscapeLacks(vars[name], c);
  }

  lemma NoTripleLead(t: string, c: char)
    requires NoTriple(t, c)
    ensures LeadRun(t, c) <= 2
  {
    assert |t| > 2 ==> !(t[0] == c && t[0 + 1] == c && t[0 + 2] == c);
  }

  lemma NoTripleTail(t: string, n: nat, c: char)
    requires NoTriple(t, c) && n <= |t|
    ensures NoTriple(t[n..], c)
  {
  }

  lemma NoTriplePush(x: char, t: string, c: char)
    requires NoTriple(t, c) && (x == c ==> LeadRun(t, c) <= 1)
    ensures NoTriple([x] + t, c)
  {
    var u := [x] + t;
    forall i | 0 <= i && i + 2 < |u| ensures !(u[i] == c && u[i + 1] == c && u[i + 2] == c) {
      if i > 0 {
        assert u[i] == t[i - 1] && u[i + 1] == t[i] && u[i + 2] == t[i + 1];
      }
    }
  }

  lemma {:induction false} NoTriplePrepend(v: string, t: string, c: char)
    requires Lacks(v, c) && NoTriple(t, c)
    ensures NoTriple(v + t, c)
    ensures LeadRun(v + t, c) <= LeadRun(t, c)
  {
    if v == "" {
      assert v + t == t;
    } else {
      NoTriplePrepend(v[1..], t, c);
      assert v + t == [v[0]] + (v[1..] + t);
      NoTriplePush(v[0], v[1..] + t, c);
    }
  }

  /**
   * A brace never touches a match on the side where it would prolong a run, so
   * replacing matches by values without that brace joins no two runs.
   */
  lemma {:induction false} SubstituteKeepsNoTriple(t: string, vars: map<string, string>, o: Options, c: char)
    requires (c == '{' || c == '}') && NoTriple(t, c) && ValuesLack(t, vars, c)
    ensures NoTriple(SubstituteDoubleBraces(t, vars, o), c)
    ensures LeadRun(SubstituteDoubleBraces(t, vars, o), c) <= LeadRun(t, c)
    decreases |t|
  {
    hide DoubleAt;
    if t != "" {
      var rest := t[Advance(t)..];
      var out := SubstituteDoubleBraces(rest, vars, o);
      NoTripleTail(t, Advance(t), c);
      SubstituteKeepsNoTriple(rest, vars, o, c);
      if DoubleAt(t).Some? {
        EmitLacks(t, vars, o, c);
        NoTriplePrepend(Emit(t, vars, o), out, c);
        MatchLead(t, c);
      } else {
        NoTripleLead(t, c);
        NoTriplePush(t[0], out, c);
        assert ([t[0]] + out)[1..] == out;
      }
    }
  }

  lemma MatchLead(t: string, c: char)
    requires DoubleAt(t).Some? && (c == '{' || c == '}') && NoTriple(t, c)
    ensures LeadRun(t[Advance(t)..], c) <= LeadRun(t, c)
  {
    DoubleShape(t);
    var rest := t[Advance(t)..];
    NoTripleTail(t, Advance(t), c);
    NoTripleLead(rest, c);
    if c == '{' {
      assert LeadRun(t[1..], c) >= 1;
    }
  }

  // ---- The merged shell -------------------------------------------------------

  lemma NoTripleParts(p: string, s: string, c: char)
    requires NoTriple(p + s, c)
    ensures NoTriple(p, c) && NoTriple(s, c)
  {
    assert forall i :: 0 <= i < |p| ==> (p + s)[i] == p[i];
    assert forall i :: 0 <= i < |s| ==> (p + s)[|p| + i] == s[i];
  }

  /**
   * Injection into a substituted shell, for any values: the result is the substituted
   * prefix, the body exactly once and untouched, and the substituted suffix exactly
   * when substitution has made no slot on either side.
   */
  lemma ShellMergeIff(p: string, m: string, s: string, vars: map<string, string>, o: Options, body: string)
    requires IsSlot(m)
    ensures var p', s' := SubstituteDoubleBraces(p, vars, o), SubstituteDoubleBraces(s, vars, o);
            && (InjectContentSlot(SubstituteDoubleBraces(p + (m + s), vars, o), body) == p' + (body + s')
                <==> CountContentSlots(p') == 0 && CountContentSlots(s') == 0)
            && CountContentSlots(SubstituteDoubleBraces(p + (m + s), vars, o))
                == CountContentSlots(p') + 1 + CountContentSlots(s')
  {
    hide DoubleAt, SlotAt, CountContentSlots, InjectContentSlot, SubstituteDoubleBraces;
    var p', s' := SubstituteDoubleBraces(p, vars, o), SubstituteDoubleBraces(s, vars, o);
    SubstituteAroundSlot(p, m, s, vars, o);
    InjectsExactlyIff(p', m, s', body);
    SlotsAroundSlot(p', m, s');
  }

  /** Checking the stripped text checks every placeholder of the full text, given no stray `}}}`. */
  lemma StrippedNamesCover(p: string, m: string, s: string)
    requires IsSlot(m) && NoTriple(p + s, '}')
    ensures NamesOf(p + (m + s)) <= NamesOf(p + s)
  {
    hide DoubleAt, SlotAt;
    SubstituteAroundSlot(p, m, s, map[], Options(false, {}));
    forall name | name in NamesOf(p) ensures name in NamesOf(p + s) {
      NamesAreOccurrences(p, name);
      var k: nat :| OccursAt(p, k, name);
      OccurrenceExtends(p, s, k, name);
      NamesAreOccurrences(p + s, name);
    }
    forall name | name in NamesOf(s) ensures name in NamesOf(p + s) {
      NamesAreOccurrences(s, name);
      var k: nat :| OccursAt(s, k, name);
      assert (p + s)[|p| + k..] == s[k..];
      assert OccursAt(p + s, |p| + k, name);
      NamesAreOccurrences(p + s, name);
    }
  }

  lemma OccurrenceExtends(p: string, s: string, k: nat, name: string)
    requires OccursAt(p, k, name) && NoTriple(p + s, '}')
    ensures OccursAt(p + s, k, name)
  {
    var u := p[k..];
    DoubleShape(u);
    var n := DoubleAt(u).value.len;
    assert (p + s)[k..] == u + s;
    if n == |u| && s != "" {
      assert (p + s)[|p| - 2] == '}' && (p + s)[|p| - 1] == '}' && (p + s)[|p|] == s[0];
    }
    DoubleAtExtends(u, s);
  }
}

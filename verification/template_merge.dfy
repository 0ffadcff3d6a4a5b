// The merge step of src/modules/email/email-template-merge.util.ts and the slot and
// placeholder queries of src/modules/email/email-html-validation.ts.
module TemplateMerge {
  import opened Wrappers
  import opened TemplateScanner
  import HtmlEscape

  // ---- Placeholders -----------------------------------------------------------

  /** How far one step of the global scan moves: over a match, or over one character. */
  function Advance(t: string): (n: nat)
    requires t != ""
    ensures 1 <= n <= |t|
  {
    if DoubleAt(t).Some? then DoubleAt(t).value.len else 1
  }

  function HeadNames(t: string): set<string> {
    if DoubleAt(t).Some? then {DoubleAt(t).value.name} else {}
  }

  /** The set of names that the global `{{name}}` scan of `t` yields. */
  function NamesOf(t: string): set<string>
    decreases |t|
  {
    if t == "" then {} else HeadNames(t) + NamesOf(t[Advance(t)..])
  }

  datatype Options = Options(escapeScalars: bool, trustedKeys: set<string>)

  /** The replacement callback of `substituteDoubleBraces`. */
  function Render(matched: string, name: string, vars: map<string, string>, o: Options): string {
    if name !in vars then matched
    else if name in o.trustedKeys || !o.escapeScalars then vars[name]
    else HtmlEscape.EscapeHtml(vars[name])
  }

  /** What one step of the scan contributes to the result. */
  function Emit(t: string, vars: map<string, string>, o: Options): string
    requires t != ""
  {
    if DoubleAt(t).Some? then Render(t[..Advance(t)], DoubleAt(t).value.name, vars, o) else [t[0]]
  }

  function SubstituteDoubleBraces(t: string, vars: map<string, string>, o: Options): string
    decreases |t|
  {
    if t == "" then "" else Emit(t, vars, o) + SubstituteDoubleBraces(t[Advance(t)..], vars, o)
  }

  /** A match of `{{name}}` starts at `k`. */
  predicate OccursAt(t: string, k: nat, name: string) {
    k <= |t| && DoubleAt(t[k..]).Some? && DoubleAt(t[k..]).value.name == name
  }

  /** Matches never overlap, so the left-to-right scan misses none. */
  lemma NoMatchInsideMatch(t: string, k: nat)
    requires DoubleAt(t).Some? && 0 < k < DoubleAt(t).value.len
    ensures DoubleAt(t[k..]).None?
  {
    DoubleShape(t);
  }

  lemma OccursShifts(t: string, n: nat, k: nat, name: string)
    requires n <= k <= |t|
    ensures OccursAt(t, k, name) <==> OccursAt(t[n..], k - n, name)
  {
    assert t[k..] == t[n..][k - n..];
  }

  lemma OccursAtStart(t: string, k: nat, name: string)
    requires t != "" && k < Advance(t)
    ensures OccursAt(t, k, name) <==> k == 0 && name in HeadNames(t)
  {
    assert t[0..] == t;
    if k > 0 {
      NoMatchInsideMatch(t, k);
    }
  }

  lemma {:induction false} NamesAreOccurrences(t: string, name: string)
    ensures name in NamesOf(t) <==> exists k: nat :: OccursAt(t, k, name)
    decreases |t|
  {
    hide DoubleAt;
    if t != "" {
      var n := Advance(t);
      NamesAreOccurrences(t[n..], name);
      if k: nat :| OccursAt(t[n..], k, name) {
        OccursShifts(t, n, n + k, name);
        assert OccursAt(t, n + k, name);
      }
      if k: nat :| OccursAt(t, k, name) {
        if k < n {
          OccursAtStart(t, k, name);
        } else {
          OccursShifts(t, n, k, name);
        }
      }
      OccursAtStart(t, 0, name);
    } else if k: nat :| OccursAt(t, k, name) {
      assert false;
    }
  }

  /** Nothing that starts in `p` is matched across into text that starts with two open braces. */
  lemma NoMatchAcross(p: string, t: string)
    requires p != "" && |t| >= 2 && t[0] == '{' && t[1] == '{'
    ensures DoubleAt(p + t) == DoubleAt(p)
  {
    var u := p + t;
    assert u[|p|] == '{' && u[|p| + 1] == '{';
    if DoubleAt(u).Some? {
      DoubleShape(u);
      DoubleAtRestricts(p, t);
    } else if DoubleAt(p).Some? {
      DoubleAtExtends(p, t);
    }
  }

  lemma StepConcat(p: string, t: string, vars: map<string, string>, o: Options)
    requires p != "" && DoubleAt(p + t) == DoubleAt(p)
    ensures Advance(p + t) == Advance(p)
    ensures Emit(p + t, vars, o) == Emit(p, vars, o) && HeadNames(p + t) == HeadNames(p)
    ensures (p + t)[Advance(p)..] == p[Advance(p)..] + t
  {
    assert (p + t)[..Advance(p)] == p[..Advance(p)];
  }

  lemma {:induction false} SubstituteConcat(p: string, t: string, vars: map<string, string>, o: Options)
    requires |t| >= 2 && t[0] == '{' && t[1] == '{'
    ensures SubstituteDoubleBraces(p + t, vars, o)
         == SubstituteDoubleBraces(p, vars, o) + SubstituteDoubleBraces(t, vars, o)
    ensures NamesOf(p + t) == NamesOf(p) + NamesOf(t)
    decreases |p|
  {
    hide DoubleAt, Advance, Emit, HeadNames;
    if p == "" {
      assert p + t == t;
    } else {
      NoMatchAcross(p, t);
      StepConcat(p, t, vars, o);
      SubstituteConcat(p[Advance(p)..], t, vars, o);
    }
  }

  lemma StepOverLiteral(u: string, vars: map<string, string>, o: Options)
    requires u != "" && DoubleAt(u).None?
    ensures SubstituteDoubleBraces(u, vars, o) == [u[0]] + SubstituteDoubleBraces(u[1..], vars, o)
    ensures NamesOf(u) == NamesOf(u[1..])
  {
  }

  lemma StepOverMatch(u: string, vars: map<string, string>, o: Options)
    requires DoubleAt(u).Some?
    ensures var h := DoubleAt(u).value;
            && SubstituteDoubleBraces(u, vars, o)
            == Render(u[..h.len], h.name, vars, o) + SubstituteDoubleBraces(u[h.len..], vars, o)
            && NamesOf(u) == {h.name} + NamesOf(u[h.len..])
  {
  }

  /** Text in which no match starts is copied. */
  lemma {:induction false} SubstituteCopies(m: string, t: string, vars: map<string, string>, o: Options)
    requires forall j :: 0 <= j < |m| ==> DoubleAt((m + t)[j..]).None?
    ensures SubstituteDoubleBraces(m + t, vars, o) == m + SubstituteDoubleBraces(t, vars, o)
    ensures NamesOf(m + t) == NamesOf(t)
    decreases |m|
  {
    hide DoubleAt, SubstituteDoubleBraces, NamesOf;
    if m == "" {
      assert m + t == t;
    } else {
      var u, r := m + t, m[1..] + t;
      assert u[0..] == u && u[1..] == r;
      StepOverLiteral(u, vars, o);
      forall j | 0 <= j < |m[1..]| ensures DoubleAt(r[j..]).None? {
        assert r[j..] == u[j + 1..];
      }
      SubstituteCopies(m[1..], t, vars, o);
      assert m == [m[0]] + m[1..];
    }
  }

  /**
   * Every match is replaced in place: the text before it and the text after it are
   * substituted independently, and a name without a value stays as written. With
   * `SubstituteWithoutMatch` this determines the result.
   */
  lemma SubstituteAtMatch(p: string, m: string, t: string, name: string, vars: map<string, string>, o: Options)
    requires DoubleAt(m + t) == Some(Hit(name, |m|))
    ensures SubstituteDoubleBraces(p + (m + t), vars, o)
         == SubstituteDoubleBraces(p, vars, o)
            + ((if name !in vars then m
                else if name in o.trustedKeys || !o.escapeScalars then vars[name]
                else HtmlEscape.EscapeHtml(vars[name]))
               + SubstituteDoubleBraces(t, vars, o))
  {
    DoubleShape(m + t);
    SubstituteConcat(p, m + t, vars, o);
    assert (m + t)[..|m|] == m && (m + t)[|m|..] == t;
  }

  lemma {:induction false} SubstituteWithoutMatch(t: string, vars: map<string, string>, o: Options)
    requires NamesOf(t) == {}
    ensures SubstituteDoubleBraces(t, vars, o) == t
  {
    assert t + "" == t;
    forall j | 0 <= j < |t| ensures DoubleAt((t + "")[j..]).None? {
      if DoubleAt(t[j..]).Some? {
        var name := DoubleAt(t[j..]).value.name;
        assert OccursAt(t, j, name);
        NamesAreOccurrences(t, name);
      }
    }
    SubstituteCopies(t, "", vars, o);
  }
}

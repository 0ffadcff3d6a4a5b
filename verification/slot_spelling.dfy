// Which values can spell a `{{{content}}}` slot once they are substituted into a template
// that has no stray triple braces (src/modules/email/email-html-validation.ts).
module SlotSpelling {
  import opened Wrappers
  import opened Text
  import opened TemplateScanner
  import opened TemplateMerge
  import opened ContentSlot
  import opened MergeTheorems
  import HtmlEscape

  // ---- The slot as an automaton -----------------------------------------------

  const SLOT := "{{{content}}}"

  /** Blanks may stand before and after `content`. */
  predicate IsPause(n: nat) {
    n == 3 || n == 10
  }

  /** How many symbols of a slot have been read after `s`, if `n` had been before. */
  function Spelled(n: nat, s: string): (r: Option<nat>)
    requires n <= 13
    ensures r.Some? ==> n <= r.value <= 13 && r.value <= n + |s|
    decreases |s|
  {
    if s == "" then Some(n)
    else if IsPause(n) && IsSpace(s[0]) then Spelled(n, s[1..])
    else if n < 13 && s[0] == SLOT[n] then Spelled(n + 1, s[1..])
    else None
  }

  lemma {:induction false} SpelledConcat(n: nat, s: string, t: string)
    requires n <= 13
    ensures Spelled(n, s + t) == var r := Spelled(n, s); if r.Some? then Spelled(r.value, t) else None
    decreases |s|
  {
    hide IsSpace;
    if s == "" {
      assert s + t == t;
    } else {
      assert (s + t)[1..] == s[1..] + t;
      SpelledConcat(n, s[1..], t);
      if n < 13 {
        SpelledConcat(n + 1, s[1..], t);
      }
    }
  }

  lemma {:induction false} SpelledBlanks(n: nat, s: string)
    requires IsPause(n) && SpacesIn(s, 0, |s|)
    ensures Spelled(n, s) == Some(n)
  {
    if s != "" {
      assert forall k :: 0 <= k < |s| - 1 ==> s[1..][k] == s[k + 1];
      SpelledBlanks(n, s[1..]);
    }
  }

  lemma {:induction false} SpelledPart(p: nat, q: nat)
    requires p <= q <= 13
    ensures Spelled(p, SLOT[p..q]) == Some(q)
    decreases q - p
  {
    if p < q {
      assert SLOT[p..q][0] == SLOT[p] && SLOT[p..q][1..] == SLOT[p + 1..q];
      assert !IsSpace('c') && !IsSpace('}');
      SpelledPart(p + 1, q);
    }
  }

  lemma SpelledStep(n: nat, s: string, i: nat)
    requires n < 13 && !IsPause(n) && i <= |s|
    ensures Spelled(n, s[i..]) == Some(13) <==> i < |s| && s[i] == SLOT[n] && Spelled(n + 1, s[i + 1..]) == Some(13)
  {
    if i < |s| {
      assert s[i..][0] == s[i] && s[i..][1..] == s[i + 1..];
    }
  }

  /** From the close braces on: how many are still needed is how long the rest is. */
  lemma {:induction false} ClosesExactly(n: nat, s: string)
    requires 11 <= n <= 13
    ensures Spelled(n, s) == Some(13) <==> |s| == 13 - n && forall i :: 0 <= i < |s| ==> s[i] == '}'
    decreases 13 - n
  {
    if s != "" && n < 13 {
      ClosesExactly(n + 1, s[1..]);
      assert forall i :: 0 < i < |s| ==> s[i] == s[1..][i - 1];
    }
  }

  lemma {:induction false} CloseFrom(s: string, i: nat)
    requires i <= |s|
    ensures Spelled(10, s[i..]) == Some(13) <==> TripleAt(s, SpaceEnd(s, i), '}') && SpaceEnd(s, i) + 3 == |s|
    decreases |s| - i
  {
    var x := s[i..];
    if i < |s| {
      assert x[0] == s[i] && x[1..] == s[i + 1..];
      ClassesAreDisjoint(s[i]);
      if IsSpace(s[i]) {
        CloseFrom(s, i + 1);
      } else {
        ClosesExactly(11, x[1..]);
      }
    }
  }

  lemma {:induction false} LettersFrom(n: nat, s: string, i: nat)
    requires 4 <= n <= 10 && i <= |s|
    ensures Spelled(n, s[i..]) == Some(13)
       <==> i + (10 - n) <= |s| && s[i..i + (10 - n)] == SLOT[n..10] && Spelled(10, s[i + (10 - n)..]) == Some(13)
    decreases 10 - n
  {
    hide Spelled, IsSpace;
    var m := 10 - n;
    if n == 10 {
      assert s[i..i] == SLOT[10..10];
    } else {
      SpelledStep(n, s, i);
      assert SLOT[n..10] == [SLOT[n]] + SLOT[n + 1..10];
      if i < |s| {
        LettersFrom(n + 1, s, i + 1);
      }
      if i + m <= |s| {
        assert s[i..i + m] == [s[i]] + s[i + 1..i + m];
      }
    }
  }

  lemma ContentIs(s: string, i: nat)
    requires i <= |s|
    ensures ContentAt(s, i) <==> i + 7 <= |s| && s[i..i + 7] == SLOT[3..10]
  {
    if i + 7 <= |s| {
      var x := s[i..i + 7];
      assert x[0] == s[i] && x[1] == s[i + 1] && x[2] == s[i + 2] && x[3] == s[i + 3]
             && x[4] == s[i + 4] && x[5] == s[i + 5] && x[6] == s[i + 6];
      assert SLOT[3..10] == "content";
    }
  }

  lemma {:induction false} ContentFrom(s: string, i: nat)
    requires i <= |s|
    ensures Spelled(3, s[i..]) == Some(13)
       <==> ContentAt(s, SpaceEnd(s, i)) && Spelled(10, s[SpaceEnd(s, i) + 7..]) == Some(13)
    decreases |s| - i
  {
    hide IsSpace, ContentAt;
    var x := s[i..];
    ContentIs(s, SpaceEnd(s, i));
    if i < |s| {
      assert x[0] == s[i] && x[1..] == s[i + 1..];
      if IsSpace(s[i]) {
        ContentFrom(s, i + 1);
      } else {
        LettersFrom(4, s, i + 1);
        assert SLOT[3..10] == [SLOT[3]] + SLOT[4..10];
        if i + 7 <= |s| {
          assert s[i..i + 7] == [s[i]] + s[i + 1..i + 7];
        }
      }
    }
  }

  lemma OpenFrom(m: string)
    ensures Spelled(0, m) == Some(13) <==> TripleAt(m, 0, '{') && Spelled(3, m[3..]) == Some(13)
  {
    hide IsSpace, Spelled;
    assert m[0..] == m;
    SpelledStep(0, m, 0);
    if |m| >= 1 {
      SpelledStep(1, m, 1);
    }
    if |m| >= 2 {
      SpelledStep(2, m, 2);
    }
  }

  /** The automaton reads exactly the slot markers. */
  lemma SpelledIsTheSlot(m: string)
    ensures Spelled(0, m) == Some(13) <==> IsSlot(m)
  {
    hide IsSpace, ContentAt, Spelled;
    OpenFrom(m);
    if TripleAt(m, 0, '{') {
      ContentFrom(m, 3);
      var a := SpaceEnd(m, 3);
      if ContentAt(m, a) {
        ContentIs(m, a);
        CloseFrom(m, a + 7);
      }
    }
  }

  // ---- Values that spell a slot -----------------------------------------------

  predicate HoldsSlot(v: string) {
    exists i :: 0 <= i < |v| && SlotAt(v[i..]).Some?
  }

  /**
   * `a` begins a slot, `b` ends it, and literal text can stand for what is missing. A
   * close brace cannot follow a placeholder and an open brace cannot precede one, but a
   * blank in between helps where the slot allows it; and with one brace on either side
   * the literal text would be a placeholder itself.
   */
  predicate Bridges(a: string, b: string) {
    exists p, q :: 0 < p <= q < 13 && BridgesAt(a, b, p, q)
  }

  predicate BridgesAt(a: string, b: string, p: nat, q: nat)
    requires q <= 13
  {
    && Spelled(0, a) == Some(p) && Spelled(q, b) == Some(13)
    && (p == q || (p <= 10 && 3 <= q)) && !(p == 1 && q == 12)
  }

  /** `v`, substituted into a template without stray triple braces, can spell a slot. */
  predicate SpellsSlot(v: string) {
    HoldsSlot(v) || exists i, j :: 0 <= i < |v| && 0 < j <= |v| && Bridges(v[i..], v[..j])
  }

  /** Every placeholder of `t` is replaced by `v`. */
  predicate AllBecome(t: string, vars: map<string, string>, o: Options, v: string) {
    forall name :: name in NamesOf(t) ==> name in vars && Render("", name, vars, o) == v
  }

  predicate NoStray(t: string) {
    NoTriple(t, '{') && NoTriple(t, '}')
  }

  lemma NoStrayTail(t: string, n: nat)
    requires NoStray(t) && n <= |t|
    ensures NoStray(t[n..])
  {
  }

  /** Without three literal braces in a row, no slot starts at a literal character. */
  lemma NoSlotAtLiteral(t: string, vars: map<string, string>, o: Options)
    requires t != "" && DoubleAt(t).None? && NoTriple(t, '{')
    ensures SlotAt(SubstituteDoubleBraces(t, vars, o)).None?
  {
    hide NamesOf;
    StepOverLiteral(t, vars, o);
    var out := SubstituteDoubleBraces(t, vars, o);
    if |t| > 1 && t[0] == '{' && t[1] == '{' {
      assert DoubleAt(t[1..]).None? by { OpenedTwice(t, 1); }
      StepOverLiteral(t[1..], vars, o);
      if |t| > 2 {
        assert t[1..][1..] == t[2..];
        assert t[2] != '{' by { assert !(t[0] == '{' && t[0 + 1] == '{' && t[0 + 2] == '{'); }
        StepOverLiteral(t[2..], vars, o);
        assert out[2] == t[2];
      } else {
        assert t[1..][1..] == "";
        assert |out| == 2;
      }
    } else if |t| > 1 && t[0] == '{' {
      StepOverLiteral(t[1..], vars, o);
      assert out[1] == t[1];
    }
  }

  lemma OpenedTwice(t: string, i: nat)
    requires NoTriple(t, '{') && 0 < i < |t| && t[i - 1] == '{'
    ensures DoubleAt(t[i..]).None?
  {
    assert i + 1 < |t| ==> !(t[i - 1] == '{' && t[i - 1 + 1] == '{' && t[i - 1 + 2] == '{');
  }

  /** A whole copy of a value with a close brace does not fit between the two ends. */
  lemma NoWholeValue(v: string, a: string, m: string, q: nat)
    requires IsSlot(m) && a != "" && |a| <= |v| && v[|v| - |a|..] == a && a[0] == '{'
    requires |a| <= q && q + |v| < |m|
    requires !Lacks(v, '}')
    ensures m[q..q + |v|] != v
  {
    SlotShape(m);
    var x := |v| - |a|;
    var y :| 0 <= y < |v| && v[y] == '}';
    assert v[x] == a[0];
    var piece := m[q..q + |v|];
    assert piece[x] == m[q + x] && piece[y] == m[q + y];
    if q + x > 2 {
      assert m[q + x] != '{';
    } else {
      assert m[q + y] != '}';
    }
  }

  /** The literal text between a single open and a single close brace of a slot is a placeholder. */
  lemma LiteralIsPlaceholder(r: string, m: string, u: string)
    requires IsSlot(m) && r == m[1..|m| - 1] + u && (u != "" ==> u[0] != '}')
    ensures DoubleAt(r).Some?
  {
    hide DoubleAt;
    var a, c := SlotHitParts(m);
    MiddleParts(r, m, u, a, c);
    DoublePartsHit(r, a - 1, a + 6, c - 1);
  }

  lemma MiddleParts(r: string, m: string, u: string, a: nat, c: nat)
    requires SlotParts(m, a, c) && c + 3 == |m| && r == m[1..|m| - 1] + u && (u != "" ==> u[0] != '}')
    ensures DoubleParts(r, a - 1, a + 6, c - 1)
  {
    assert forall i :: 1 <= i < |m| - 1 ==> m[i] == r[i - 1];
    assert u != "" ==> r[|m| - 2] == u[0];
    ClassesAreDisjoint(m[3]);
  }

  /** How the middle of a slot that stands as literal text between two placeholders can look. */
  lemma MiddleFits(p: nat, mid: string, q: nat)
    requires p <= 13 && Spelled(p, mid) == Some(q)
    requires mid != "" ==> mid[0] != '}' && mid[|mid| - 1] != '{'
    ensures p == q || (p <= 10 && 3 <= q)
  {
    assert 10 < p < 13 ==> SLOT[p] == '}';
    if mid != "" && q < 3 {
      OpensOnly(p, mid, q);
    }
  }

  lemma {:induction false} OpensOnly(p: nat, s: string, q: nat)
    requires s != "" && p <= 13 && Spelled(p, s) == Some(q) && q < 3
    ensures s[|s| - 1] == '{'
    decreases |s|
  {
    if |s| > 1 {
      OpensOnly(p + 1, s[1..], q);
    } else {
      assert s[1..] == "";
    }
  }

  /** Where a slot's parts meet, the automaton meets. */
  lemma PartsMeet(a: string, mid: string, b: string) returns (p: nat, q: nat)
    requires IsSlot(a + (mid + b)) && a != "" && b != ""
    ensures 0 < p <= q < 13 && Spelled(0, a) == Some(p) && Spelled(p, mid) == Some(q) && Spelled(q, b) == Some(13)
  {
    hide IsSpace, IsSlot, Spelled;
    SpelledIsTheSlot(a + (mid + b));
    SpelledConcat(0, a, mid + b);
    p := Spelled(0, a).value;
    SpelledConcat(p, mid, b);
    q := Spelled(p, mid).value;
    BeginsWithBrace(a, p);
    EndsWithBrace(b, q);
  }

  lemma BeginsWithBrace(a: string, p: nat)
    requires a != "" && Spelled(0, a) == Some(p)
    ensures a[0] == '{' && p > 0 && (p == 1 ==> |a| == 1)
  {
    assert Spelled(1, a[1..]) == Some(p);
    assert a[1..] != "" ==> Spelled(1, a[1..]) != Some(1);
  }

  lemma EndsWithBrace(b: string, q: nat)
    requires b != "" && q <= 13 && Spelled(q, b) == Some(13)
    ensures q < 13 && (q == 12 ==> |b| == 1)
  {
    if q == 12 {
      assert Spelled(13, b[1..]) == Some(13);
    }
  }

  /**
   * Reading on from inside a value: what follows it is literal text up to the next
   * placeholder, whose value must end the slot.
   */
  lemma {:induction false} SlotBridges(r: string, k: nat, a: string, m: string, v: string, vars: map<string, string>,
                                       o: Options)
    requires (r != "" ==> r[0] != '}') && NoStray(r) && k <= |r| && (k > 0 ==> DoubleAt(r).None?)
    requires AllBecome(r[k..], vars, o, v) && !Lacks(v, '}')
    requires IsSlot(m) && a != "" && |a| <= |v| && v[|v| - |a|..] == a && |a| < |m| && |a| + k <= |m|
    requires m[..|a| + k] == a + r[..k] && m[|a| + k..] <= SubstituteDoubleBraces(r[k..], vars, o)
    ensures exists j :: 0 < j <= |v| && Bridges(a, v[..j])
    decreases |r| - k
  {
    hide DoubleAt, SlotAt, NamesOf, SubstituteDoubleBraces, Bridges;
    var u, q := r[k..], |a| + k;
    if q == |m| {
      assert m[..q] == m;
      EndsInLiteral(r, k, a, m);
      assert false;
    } else if u == "" {
      NothingToSubstitute(vars, o);
      assert false;
    } else if DoubleAt(u).None? {
      StepOverLiteral(u, vars, o);
      assert u[1..] == r[k + 1..];
      assert m[q] == m[q..][0] == u[0] == r[k];
      assert m[..q + 1] == m[..q] + [m[q]] && r[..k + 1] == r[..k] + [r[k]];
      assert m[q + 1..] == m[q..][1..];
      assert r[0..] == r;
      SlotBridges(r, k + 1, a, m, v, vars, o);
    } else {
      var h := DoubleAt(u).value;
      StepOverMatch(u, vars, o);
      assert h.name in NamesOf(u);
      assert Render(u[..h.len], h.name, vars, o) == v;
      var rest := SubstituteDoubleBraces(u[h.len..], vars, o);
      ValueEndsSlot(r, k, a, m, v, rest);
      BridgeFound(r, k, a, m, v[..|m| - q]);
    }
  }

  lemma PrefixOfJoin(x: string, v: string, rest: string)
    requires x <= v + rest
    ensures if |x| <= |v| then x == v[..|x|] else x[..|v|] == v
  {
    assert x == (v + rest)[..|x|];
  }

  /** The next value is long enough to end the slot. */
  lemma ValueEndsSlot(r: string, k: nat, a: string, m: string, v: string, rest: string)
    requires IsSlot(m) && a != "" && |a| <= |v| && v[|v| - |a|..] == a && !Lacks(v, '}')
    requires k <= |r| && |a| + k < |m| && m[..|a| + k] == a + r[..k] && m[|a| + k..] <= v + rest
    ensures |m| - (|a| + k) <= |v| && m == a + (r[..k] + v[..|m| - (|a| + k)])
  {
    hide SlotAt;
    var q := |a| + k;
    assert m == m[..q] + m[q..];
    SlotShape(m);
    assert m[0] == m[..q][0] == a[0];
    PrefixOfJoin(m[q..], v, rest);
    if q + |v| < |m| {
      assert m[q..q + |v|] == m[q..][..|v|];
      NoWholeValue(v, a, m, q);
      assert false;
    }
  }

  lemma NothingToSubstitute(vars: map<string, string>, o: Options)
    ensures SubstituteDoubleBraces("", vars, o) == ""
  {
  }

  /** A slot that starts in a value does not end in literal text. */
  lemma EndsInLiteral(r: string, k: nat, a: string, m: string)
    requires (r != "" ==> r[0] != '}') && NoStray(r) && k <= |r|
    requires IsSlot(m) && |a| < |m| && |a| + k == |m|
    ensures m != a + r[..k]
  {
    SlotShape(m);
    var u := a + r[..k];
    assert forall i :: 0 <= i < k ==> u[|a| + i] == r[i];
    if k >= 3 {
      assert !(r[k - 3] == '}' && r[k - 3 + 1] == '}' && r[k - 3 + 2] == '}');
      assert u[|m| - 3] == r[k - 3] && u[|m| - 2] == r[k - 2] && u[|m| - 1] == r[k - 1];
    } else {
      assert u[|a|] == r[0];
    }
  }

  lemma BridgeFound(r: string, k: nat, a: string, m: string, b: string)
    requires (r != "" ==> r[0] != '}') && NoStray(r) && k <= |r| && (k > 0 ==> DoubleAt(r).None?)
            && DoubleAt(r[k..]).Some?
    requires IsSlot(m) && a != "" && b != "" && m == a + (r[..k] + b)
    ensures Bridges(a, b)
  {
    hide SlotAt, Spelled, DoubleAt, NoStray;
    var mid := r[..k];
    var p, q := PartsMeet(a, mid, b);
    NoBraceBeforeMatch(r, k);
    MiddleFits(p, mid, q);
    BeginsWithBrace(a, p);
    EndsWithBrace(b, q);
    NotOneBraceEach(r, k, a, m, b);
    assert BridgesAt(a, b, p, q);
  }

  lemma NoBraceBeforeMatch(r: string, k: nat)
    requires NoStray(r) && 0 <= k <= |r| && DoubleAt(r[k..]).Some?
    ensures k > 0 ==> r[k - 1] != '{'
  {
    hide DoubleAt, NoTriple;
    if k > 0 && r[k - 1] == '{' {
      assert k < |r| by { DoubleShape(r[k..]); }
      OpenedTwice(r, k);
      assert false;
    }
  }

  lemma NotOneBraceEach(r: string, k: nat, a: string, m: string, b: string)
    requires k <= |r| && (k > 0 ==> DoubleAt(r).None?) && DoubleAt(r[k..]).Some?
    requires IsSlot(m) && m == a + (r[..k] + b)
    ensures !(|a| == 1 && |b| == 1)
  {
    hide SlotAt, DoubleAt;
    SlotShape(m);
    DoubleShape(r[k..]);
    if |a| == 1 && |b| == 1 {
      assert m[1..|m| - 1] == r[..k];
      assert r == m[1..|m| - 1] + r[k..];
      LiteralIsPlaceholder(r, m, r[k..]);
      assert false;
    }
  }

  /** A slot in a substituted template without stray braces is spelled by the value. */
  lemma {:induction false} SlotNeedsSpelling(t: string, x: nat, v: string, vars: map<string, string>, o: Options)
    requires NoStray(t) && AllBecome(t, vars, o, v) && !Lacks(v, '}')
    requires x <= |SubstituteDoubleBraces(t, vars, o)| && SlotAt(SubstituteDoubleBraces(t, vars, o)[x..]).Some?
    ensures SpellsSlot(v)
    decreases |t|
  {
    hide DoubleAt, SlotAt, NamesOf, SubstituteDoubleBraces, Bridges;
    var out := SubstituteDoubleBraces(t, vars, o);
    if t == "" {
      NothingToSubstitute(vars, o);
      EmptyIsNoSlot();
    } else if DoubleAt(t).None? {
      StepOverLiteral(t, vars, o);
      NoStrayTail(t, 1);
      if x == 0 {
        assert out[0..] == out;
        NoSlotAtLiteral(t, vars, o);
      } else {
        assert out[x..] == SubstituteDoubleBraces(t[1..], vars, o)[x - 1..];
        SlotNeedsSpelling(t[1..], x - 1, v, vars, o);
      }
    } else {
      var h := DoubleAt(t).value;
      StepOverMatch(t, vars, o);
      assert h.name in NamesOf(t);
      assert Render(t[..h.len], h.name, vars, o) == v;
      var r, rest := t[h.len..], SubstituteDoubleBraces(t[h.len..], vars, o);
      NoStrayTail(t, h.len);
      if x >= |v| {
        assert out[x..] == rest[x - |v|..];
        SlotNeedsSpelling(r, x - |v|, v, vars, o);
      } else {
        SlotInValue(t, x, v, rest);
        if !HoldsSlot(v) {
          var a, m := v[x..], out[x..][..SlotAt(out[x..]).value];
          assert out[x..] == a + rest;
          assert m[|a|..] == rest[..|m| - |a|];
          assert r[0..] == r && r[..0] == "";
          assert m[..|a|] == a;
          FollowsMatch(t);
          SlotBridges(r, 0, a, m, v, vars, o);
        }
      }
    }
  }

  lemma FollowsMatch(t: string)
    requires DoubleAt(t).Some?
    ensures var r := t[DoubleAt(t).value.len..]; r != "" ==> r[0] != '}'
  {
    DoubleShape(t);
  }

  lemma EmptyIsNoSlot()
    ensures SlotAt("").None?
  {
  }

  /** A slot that starts in the value is inside it or runs out of it. */
  lemma SlotInValue(t: string, x: nat, v: string, rest: string)
    requires x < |v| && SlotAt((v + rest)[x..]).Some?
    ensures var u := (v + rest)[x..]; var n := SlotAt(u).value;
            IsSlot(u[..n]) && (HoldsSlot(v) || |v| - x < n)
  {
    var u := (v + rest)[x..];
    var n := SlotAt(u).value;
    assert u == u[..n] + u[n..];
    SlotAtRestricts(u[..n], u[n..]);
    if n <= |v| - x {
      assert u == v[x..] + rest;
      SlotAtRestricts(v[x..], rest);
    }
  }

  /** A value that does not spell a slot makes none, wherever its placeholders stand. */
  lemma {:induction false} NoSlotIsMade(t: string, v: string, vars: map<string, string>, o: Options)
    requires NoStray(t) && AllBecome(t, vars, o, v) && !SpellsSlot(v)
    ensures CountContentSlots(SubstituteDoubleBraces(t, vars, o)) == 0
  {
    hide DoubleAt, SlotAt, NamesOf, SubstituteDoubleBraces, SpellsSlot, CountContentSlots;
    var out := SubstituteDoubleBraces(t, vars, o);
    if Lacks(v, '}') {
      RawLacks(t, v, vars, o, '}');
      SubstituteKeepsNoTriple(t, vars, o, '}');
    }
    forall k | 0 <= k < |out| ensures SlotAt(out[k..]).None? {
      if SlotAt(out[k..]).Some? {
        if Lacks(v, '}') {
          SlotHasTriples(out, k);
        } else {
          SlotNeedsSpelling(t, k, v, vars, o);
        }
        assert false;
      }
    }
    NoSlotNothingHappens(out, "");
  }

  lemma RawLacks(t: string, v: string, vars: map<string, string>, o: Options, c: char)
    requires (c == '{' || c == '}') && AllBecome(t, vars, o, v) && Lacks(v, c)
    ensures ValuesLack(t, vars, c)
  {
    forall name | name in NamesOf(t) ensures Lacks(vars[name], c) {
      assert Render("", name, vars, o) == v;
      HtmlEscape.EscapeLacks(vars[name], c);
    }
  }

  /** One kind of brace is not enough to spell a slot. */
  lemma OneKindOfBrace(v: string)
    requires Lacks(v, '{') || Lacks(v, '}')
    ensures !SpellsSlot(v)
  {
    hide SlotAt, Spelled;
    forall i | 0 <= i < |v| ensures SlotAt(v[i..]).None? {
      if SlotAt(v[i..]).Some? {
        SlotHasTriples(v, i);
        assert false;
      }
    }
    forall i, j | 0 <= i < |v| && 0 < j <= |v| ensures !Bridges(v[i..], v[..j]) {
      assert v[i] == v[i..][0] && v[j - 1] == v[..j][j - 1];
      if p, q :| 0 < p <= q < 13 && BridgesAt(v[i..], v[..j], p, q) {
        BeginsWithBrace(v[i..], p);
        LastIsBrace(q, v[..j]);
        assert false;
      }
    }
  }

  lemma {:induction false} LastIsBrace(q: nat, b: string)
    requires b != "" && q < 13 && Spelled(q, b) == Some(13)
    ensures b[|b| - 1] == '}'
    decreases |b|
  {
    if |b| > 1 {
      assert b[1..][|b| - 2] == b[|b| - 1];
      if IsPause(q) && IsSpace(b[0]) {
        LastIsBrace(q, b[1..]);
      } else {
        assert q + 1 < 13 by { assert Spelled(13, b[1..]) != Some(13); }
        LastIsBrace(q + 1, b[1..]);
      }
    } else {
      assert b[1..] == "";
    }
  }

  // ---- Escaping neither adds nor removes slots --------------------------------

  lemma {:induction false} SpelledIsPlain(n: nat, s: string)
    requires n <= 13 && Spelled(n, s).Some?
    ensures forall x :: 0 <= x < |s| ==> s[x] !in HtmlEscape.SPECIAL
    decreases |s|
  {
    if s != "" {
      assert forall k :: 0 <= k < 13 ==> SLOT[k] !in HtmlEscape.SPECIAL;
      SpelledIsPlain(if IsPause(n) && IsSpace(s[0]) then n else n + 1, s[1..]);
      assert forall x :: 0 < x < |s| ==> s[x] == s[1..][x - 1];
    }
  }

  /** Escaped text at a brace is the escape of a rest of the value. */
  lemma {:induction false} EscapedFrom(value: string, i: nat) returns (k: nat)
    requires i < |HtmlEscape.Encode(value, HtmlEscape.SPECIAL)|
            && HtmlEscape.Encode(value, HtmlEscape.SPECIAL)[i] == '{'
    ensures k < |value|
    ensures HtmlEscape.Encode(value, HtmlEscape.SPECIAL)[i..] == HtmlEscape.Encode(value[k..], HtmlEscape.SPECIAL)
  {
    var code := HtmlEscape.EncodeChar(value[0], HtmlEscape.SPECIAL);
    var v, rest := HtmlEscape.Encode(value, HtmlEscape.SPECIAL), HtmlEscape.Encode(value[1..], HtmlEscape.SPECIAL);
    assert v == code + rest;
    if i < |code| {
      assert code[i] == '{';
      EntitiesHaveNoBrace(value[0], i);
      k := 0;
      assert v[0..] == v && value[0..] == value;
    } else {
      assert v[i..] == rest[i - |code|..];
      var j := EscapedFrom(value[1..], i - |code|);
      k := j + 1;
      assert value[1..][j..] == value[k..];
    }
  }

  lemma EntitiesHaveNoBrace(c: char, i: nat)
    requires i < |HtmlEscape.EncodeChar(c, HtmlEscape.SPECIAL)|
            && HtmlEscape.EncodeChar(c, HtmlEscape.SPECIAL)[i] == '{'
    ensures c == '{' && i == 0
  {
  }

  /** A prefix of escaped text with nothing special in it is a prefix of the value. */
  lemma {:induction false} EscapedPrefix(value: string, n: nat)
    requires n <= |HtmlEscape.Encode(value, HtmlEscape.SPECIAL)|
    requires forall x :: 0 <= x < n ==> HtmlEscape.Encode(value, HtmlEscape.SPECIAL)[x] !in HtmlEscape.SPECIAL
    ensures n <= |value| && value[..n] == HtmlEscape.Encode(value, HtmlEscape.SPECIAL)[..n]
  {
    if n > 0 {
      var v, rest := HtmlEscape.Encode(value, HtmlEscape.SPECIAL), HtmlEscape.Encode(value[1..], HtmlEscape.SPECIAL);
      assert v[0] == HtmlEscape.EncodeChar(value[0], HtmlEscape.SPECIAL)[0];
      assert value[0] !in HtmlEscape.SPECIAL;
      assert v == [value[0]] + rest;
      assert forall x :: 0 <= x < n - 1 ==> rest[x] == v[x + 1];
      EscapedPrefix(value[1..], n - 1);
      assert value[..n] == [value[0]] + value[1..][..n - 1];
      assert v[..n] == [value[0]] + rest[..n - 1];
    }
  }

  lemma {:induction false} EscapedSplits(s: string, t: string)
    ensures HtmlEscape.Encode(s + t, HtmlEscape.SPECIAL)
         == HtmlEscape.Encode(s, HtmlEscape.SPECIAL) + HtmlEscape.Encode(t, HtmlEscape.SPECIAL)
  {
    if s == "" {
      assert s + t == t;
    } else {
      assert (s + t)[1..] == s[1..] + t;
      EscapedSplits(s[1..], t);
    }
  }

  lemma PlainIsItsEscape(s: string)
    requires forall x :: 0 <= x < |s| ==> s[x] !in HtmlEscape.SPECIAL
    ensures HtmlEscape.Encode(s, HtmlEscape.SPECIAL) == s
  {
    HtmlEscape.EscapeKeepsPlain(s);
    HtmlEscape.EscapeIsOnePass(s);
  }

  lemma SlotPrefixIsPlain(u: string)
    requires SlotAt(u).Some?
    ensures var m := u[..SlotAt(u).value];
            IsSlot(m) && u == m + u[|m|..] && forall x :: 0 <= x < |m| ==> m[x] !in HtmlEscape.SPECIAL
  {
    var m, t := u[..SlotAt(u).value], u[SlotAt(u).value..];
    assert u == m + t;
    SlotAtRestricts(m, t);
    SpelledIsTheSlot(m);
    SpelledIsPlain(0, m);
  }

  lemma {:induction false} EscapedHoldsSlot(value: string)
    ensures HoldsSlot(HtmlEscape.EscapeHtml(value)) <==> HoldsSlot(value)
  {
    hide SlotAt, Spelled, HtmlEscape.EscapeHtml, HtmlEscape.Encode;
    HtmlEscape.EscapeIsOnePass(value);
    var v := HtmlEscape.EscapeHtml(value);
    if i :| 0 <= i < |v| && SlotAt(v[i..]).Some? {
      SlotPrefixIsPlain(v[i..]);
      SlotHasTriples(v, i);
      var k := EscapedFrom(value, i);
      var n := SlotAt(v[i..]).value;
      EscapedPrefix(value[k..], n);
      assert value[k..] == value[k..][..n] + value[k..][n..];
      SlotAtExtends(value[k..][..n], value[k..][n..]);
      assert HoldsSlot(value);
    }
    if i :| 0 <= i < |value| && SlotAt(value[i..]).Some? {
      SlotPrefixIsPlain(value[i..]);
      var n := SlotAt(value[i..]).value;
      var m, rest := value[i..][..n], value[i..][n..];
      assert value == value[..i] + (m + rest);
      EscapedSplits(value[..i], m + rest);
      EscapedSplits(m, rest);
      PlainIsItsEscape(m);
      var at := |HtmlEscape.Encode(value[..i], HtmlEscape.SPECIAL)|;
      SlotAtExtends(m, HtmlEscape.Encode(rest, HtmlEscape.SPECIAL));
      assert v[at..] == m + HtmlEscape.Encode(rest, HtmlEscape.SPECIAL);
      assert HoldsSlot(v);
    }
  }

  lemma {:induction false} UnescapedBridges(value: string, i: nat, j: nat)
    requires var v := HtmlEscape.Encode(value, HtmlEscape.SPECIAL); i < |v| && 0 < j <= |v| && Bridges(v[i..], v[..j])
    ensures SpellsSlot(value)
  {
    hide SlotAt, Spelled, HtmlEscape.Encode, HoldsSlot;
    var v := HtmlEscape.Encode(value, HtmlEscape.SPECIAL);
    var p, q :| 0 < p <= q < 13 && BridgesAt(v[i..], v[..j], p, q);
    BeginsWithBrace(v[i..], p);
    SpelledIsPlain(0, v[i..]);
    SpelledIsPlain(q, v[..j]);
    assert v[i] == v[i..][0];
    var k := EscapedFrom(value, i);
    EscapedPrefix(value[k..], |v[i..]|);
    WholePrefix(value[k..], v[i..]);
    assert forall x :: 0 <= x < j ==> v[x] == v[..j][x];
    EscapedPrefix(value, j);
    assert Bridges(value[k..], value[..j]);
  }

  lemma {:induction false} EscapedBridges(value: string, i: nat, j: nat)
    requires i < |value| && 0 < j <= |value| && Bridges(value[i..], value[..j])
    ensures SpellsSlot(HtmlEscape.Encode(value, HtmlEscape.SPECIAL))
  {
    hide SlotAt, Spelled, HtmlEscape.Encode, HoldsSlot;
    var v := HtmlEscape.Encode(value, HtmlEscape.SPECIAL);
    var p, q :| 0 < p <= q < 13 && BridgesAt(value[i..], value[..j], p, q);
    SpelledIsPlain(0, value[i..]);
    SpelledIsPlain(q, value[..j]);
    EscapedSplits(value[..i], value[i..]);
    EscapedSplits(value[..j], value[j..]);
    PlainIsItsEscape(value[i..]);
    PlainIsItsEscape(value[..j]);
    assert value[..i] + value[i..] == value == value[..j] + value[j..];
    var at := |HtmlEscape.Encode(value[..i], HtmlEscape.SPECIAL)|;
    assert v[at..] == value[i..] && v[..j] == value[..j];
    assert Bridges(v[at..], v[..j]);
  }

  /** A value spells a slot exactly when its escape does. */
  lemma {:induction false} EscapedSpellsSlot(value: string)
    ensures SpellsSlot(HtmlEscape.EscapeHtml(value)) <==> SpellsSlot(value)
  {
    hide HtmlEscape.EscapeHtml, HtmlEscape.Encode, HoldsSlot, Bridges;
    EscapedHoldsSlot(value);
    HtmlEscape.EscapeIsOnePass(value);
    var v := HtmlEscape.EscapeHtml(value);
    if i, j :| 0 <= i < |v| && 0 < j <= |v| && Bridges(v[i..], v[..j]) {
      UnescapedBridges(value, i, j);
    }
    if i, j :| 0 <= i < |value| && 0 < j <= |value| && Bridges(value[i..], value[..j]) {
      EscapedBridges(value, i, j);
    }
  }

  lemma WholePrefix(value: string, v: string)
    requires v == HtmlEscape.Encode(value, HtmlEscape.SPECIAL) && |v| <= |value| && value[..|v|] == v
    ensures value == v
  {
    HtmlEscape.EscapeIsOnePass(value);
    EncodeIsNotShorter(value);
  }

  lemma {:induction false} EncodeIsNotShorter(value: string)
    ensures |HtmlEscape.Encode(value, HtmlEscape.SPECIAL)| >= |value|
  {
    if value != "" {
      EncodeIsNotShorter(value[1..]);
    }
  }
}

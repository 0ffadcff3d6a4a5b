// The `{{{content}}}` slot: counting, stripping and injecting
// (src/modules/email/email-html-validation.ts, src/modules/email/email-template-merge.util.ts).
module ContentSlot {
  import opened Wrappers
  import opened Text
  import opened TemplateScanner

  /** How far one step of the global slot scan moves. */
  function SlotStep(h: string): (n: nat)
    requires h != ""
    ensures 1 <= n <= |h|
  {
    if SlotAt(h).Some? then SlotAt(h).value else 1
  }

  /** `(html.match(CONTENT_SLOT_REGEX) ?? []).length` */
  function CountContentSlots(h: string): nat
    decreases |h|
  {
    if h == "" then 0 else (if SlotAt(h).Some? then 1 else 0) + CountContentSlots(h[SlotStep(h)..])
  }

  /** `html.replace(CONTENT_SLOT_REGEX, '')` */
  function StripSlots(h: string): string
    decreases |h|
  {
    if h == "" then "" else (if SlotAt(h).Some? then "" else [h[0]]) + StripSlots(h[SlotStep(h)..])
  }

  /** The first slot becomes `body`; later ones become the empty string. */
  function InjectContentSlot(h: string, body: string): string
    decreases |h|
  {
    if h == "" then ""
    else if SlotAt(h).Some? then body + StripSlots(h[SlotStep(h)..])
    else [h[0]] + InjectContentSlot(h[1..], body)
  }

  predicate HasStrayTripleBraces(h: string) {
    !NoTriple(StripSlots(h), '{') || !NoTriple(StripSlots(h), '}')
  }

  /** `m` is one slot marker and nothing else. */
  predicate IsSlot(m: string) {
    SlotAt(m) == Some(|m|)
  }

  /** No slot starts before `n`. */
  predicate NoSlotBefore(h: string, n: nat) {
    forall k :: 0 <= k < n && k <= |h| ==> SlotAt(h[k..]).None?
  }

  lemma NoSlotBeforeStep(h: string, n: nat)
    requires h != "" && n > 0 && NoSlotBefore(h, n)
    ensures SlotAt(h).None? && NoSlotBefore(h[1..], n - 1)
  {
    assert h[0..] == h;
    forall k | 0 <= k < n - 1 && k <= |h[1..]| ensures SlotAt(h[1..][k..]).None? {
      assert h[1..][k..] == h[k + 1..];
    }
  }

  lemma {:induction false} NoSlotNothingHappens(h: string, body: string)
    requires NoSlotBefore(h, |h|)
    ensures CountContentSlots(h) == 0 && StripSlots(h) == h && InjectContentSlot(h, body) == h
    decreases |h|
  {
    hide SlotAt;
    if h != "" {
      NoSlotBeforeStep(h, |h|);
      NoSlotNothingHappens(h[1..], body);
      assert h == [h[0]] + h[1..];
    }
  }

  lemma {:induction false} CountZeroMeansNoSlot(h: string)
    requires CountContentSlots(h) == 0
    ensures NoSlotBefore(h, |h|)
    decreases |h|
  {
    hide SlotAt;
    if h != "" {
      CountZeroMeansNoSlot(h[1..]);
      forall k | 0 <= k < |h| ensures SlotAt(h[k..]).None? {
        if k == 0 {
          assert h[0..] == h;
        } else {
          assert h[k..] == h[1..][k - 1..];
        }
      }
    }
  }

  lemma StepOverChar(h: string, body: string)
    requires h != "" && SlotAt(h).None?
    ensures CountContentSlots(h) == CountContentSlots(h[1..]) && StripSlots(h) == [h[0]] + StripSlots(h[1..])
    ensures InjectContentSlot(h, body) == [h[0]] + InjectContentSlot(h[1..], body)
  {
  }

  lemma {:induction false} StepOverSlot(m: string, s: string, body: string)
    requires IsSlot(m)
    ensures CountContentSlots(m + s) == 1 + CountContentSlots(s) && StripSlots(m + s) == StripSlots(s)
    ensures InjectContentSlot(m + s, body) == body + StripSlots(s)
  {
    SlotAtExtends(m, s);
    assert (m + s)[|m|..] == s;
  }

  /** Where the first match is the marker `m` and no other follows, the three operations split there. */
  lemma {:induction false} SplitAtSlot(p: string, m: string, s: string, body: string)
    requires IsSlot(m) && NoSlotBefore(p + (m + s), |p|) && NoSlotBefore(s, |s|)
    ensures CountContentSlots(p + (m + s)) == 1
    ensures StripSlots(p + (m + s)) == p + s
    ensures InjectContentSlot(p + (m + s), body) == p + (body + s)
    decreases |p|
  {
    hide SlotAt, CountContentSlots, StripSlots, InjectContentSlot;
    var h := p + (m + s);
    if p == "" {
      assert h == m + s;
      StepOverSlot(m, s, body);
      NoSlotNothingHappens(s, body);
    } else {
      NoSlotBeforeStep(h, |p|);
      StepOverChar(h, body);
      assert h[1..] == p[1..] + (m + s);
      SplitAtSlot(p[1..], m, s, body);
      assert p == [p[0]] + p[1..];
    }
  }

  /** The replacement loop with its `replaced` flag. */
  method Inject(h: string, body: string) returns (html: string)
    ensures html == InjectContentSlot(h, body)
  {
    hide SlotAt, StripSlots, InjectContentSlot;
    html := "";
    var i, replaced := 0, false;
    assert h[0..] == h;
    while i < |h|
      invariant i <= |h|
      invariant InjectContentSlot(h, body)
             == html + (if replaced then StripSlots(h[i..]) else InjectContentSlot(h[i..], body))
    {
      var u := h[i..];
      if SlotAt(u).Some? {
        InjectStep(u, body);
        if !replaced {
          html := html + body;
          replaced := true;
        }
        assert u[SlotStep(u)..] == h[i + SlotStep(u)..];
        i := i + SlotStep(u);
      } else {
        StepOverChar(u, body);
        html := html + [h[i]];
        assert u[1..] == h[i + 1..];
        i := i + 1;
      }
    }
    InjectEnd(h[i..], body);
  }

  lemma InjectStep(u: string, body: string)
    requires SlotAt(u).Some?
    ensures InjectContentSlot(u, body) == body + StripSlots(u[SlotStep(u)..])
    ensures StripSlots(u) == StripSlots(u[SlotStep(u)..])
  {
  }

  lemma InjectEnd(u: string, body: string)
    requires u == ""
    ensures InjectContentSlot(u, body) == "" && StripSlots(u) == ""
  {
  }

  /** A text with exactly one slot splits around it, with no other start of a slot before or after. */
  lemma {:induction false} OneSlotSplits(h: string) returns (p: string, m: string, s: string)
    requires CountContentSlots(h) == 1
    ensures h == p + (m + s) && IsSlot(m)
    ensures NoSlotBefore(h, |p|) && NoSlotBefore(s, |s|)
    decreases |h|
  {
    hide SlotAt;
    if SlotAt(h).Some? {
      var n := SlotAt(h).value;
      p, m, s := "", h[..n], h[n..];
      assert h == m + s;
      SlotAtRestricts(m, s);
      CountZeroMeansNoSlot(s);
    } else {
      var q;
      q, m, s := OneSlotSplits(h[1..]);
      p := [h[0]] + q;
      forall k | 0 <= k < |p| ensures SlotAt(h[k..]).None? {
        if k == 0 {
          assert h[0..] == h;
        } else {
          assert h[k..] == h[1..][k - 1..];
        }
      }
    }
  }

  /** The braces of a marker leave no room for an earlier marker to run into it. */
  lemma NoSlotRunsIntoSlot(p: string, m: string, s: string, k: nat)
    requires IsSlot(m) && k < |p| && SlotAt((p + (m + s))[k..]).Some?
    ensures k + SlotAt((p + (m + s))[k..]).value <= |p|
  {
    var u := (p + (m + s))[k..];
    SlotShape(u);
    SlotShape(m);
    var o := |p| - k;
    assert forall i :: 0 <= i < |m| ==> u[o + i] == m[i];
  }

  /** Triple braces of either kind missing before and after the marker: it is the only slot. */
  lemma {:induction false} OnlySlot(p: string, m: string, s: string, c: char)
    requires IsSlot(m) && (c == '{' || c == '}') && NoTriple(p, c) && NoTriple(s, c)
    ensures NoSlotBefore(p + (m + s), |p|) && NoSlotBefore(s, |s|)
  {
    var h := p + (m + s);
    forall k | 0 <= k < |p| ensures SlotAt(h[k..]).None? {
      if SlotAt(h[k..]).Some? {
        NoSlotRunsIntoSlot(p, m, s, k);
        SlotHasTriples(h, k);
        assert false;
      }
    }
    forall k | 0 <= k < |s| ensures SlotAt(s[k..]).None? {
      if SlotAt(s[k..]).Some? {
        SlotHasTriples(s, k);
        assert false;
      }
    }
  }

  lemma SlotHasTriples(h: string, k: nat)
    requires k <= |h| && SlotAt(h[k..]).Some?
    ensures var n := SlotAt(h[k..]).value;
            && k + n <= |h|
            && h[k] == '{' && h[k + 1] == '{' && h[k + 2] == '{'
            && h[k + n - 3] == '}' && h[k + n - 2] == '}' && h[k + n - 1] == '}'
  {
    SlotShape(h[k..]);
    var n := SlotAt(h[k..]).value;
    assert forall i :: 0 <= i < n ==> h[k..][i] == h[k + i];
  }

  // ---- Several slots ----------------------------------------------------------

  /** A marker is always found: counting and stripping split around it, whatever other slots there are. */
  lemma {:induction false} SlotsAroundSlot(p: string, m: string, s: string)
    requires IsSlot(m)
    ensures CountContentSlots(p + (m + s)) == CountContentSlots(p) + 1 + CountContentSlots(s)
    ensures StripSlots(p + (m + s)) == StripSlots(p) + StripSlots(s)
    decreases |p|
  {
    hide SlotAt, CountContentSlots, StripSlots;
    var h := p + (m + s);
    if p == "" {
      assert h == m + s;
      StepOverSlot(m, s, "");
      InjectEnd("", "");
      NoSlotNothingHappens("", "");
    } else {
      SlotInPrefix(p, m, s);
      var n := SlotStep(p);
      assert h[n..] == p[n..] + (m + s);
      SlotsAroundSlot(p[n..], m, s);
      StepOver(h);
      StepOver(p);
    }
  }

  /** The first slot gets the body and all later ones are dropped. */
  lemma {:induction false} FirstSlotGetsBody(p: string, m: string, s: string, body: string)
    requires IsSlot(m) && CountContentSlots(p) == 0
    ensures InjectContentSlot(p + (m + s), body) == p + (body + StripSlots(s))
    decreases |p|
  {
    hide SlotAt, CountContentSlots, StripSlots, InjectContentSlot;
    if p == "" {
      assert p + (m + s) == m + s;
      StepOverSlot(m, s, body);
    } else {
      NoSlotNorAcross(p, m, s, 0);
      CountZeroMeansNoSlot(p);
      assert (p + (m + s))[0..] == p + (m + s) && p[0..] == p;
      StepOverChar(p + (m + s), body);
      StepOverChar(p, body);
      assert (p + (m + s))[1..] == p[1..] + (m + s);
      FirstSlotGetsBody(p[1..], m, s, body);
    }
  }

  lemma StepOver(h: string)
    requires h != ""
    ensures CountContentSlots(h) == (if SlotAt(h).Some? then 1 else 0) + CountContentSlots(h[SlotStep(h)..])
    ensures StripSlots(h) == (if SlotAt(h).Some? then "" else [h[0]]) + StripSlots(h[SlotStep(h)..])
  {
  }

  lemma SlotInPrefix(p: string, m: string, s: string)
    requires IsSlot(m) && p != ""
    ensures SlotAt(p + (m + s)) == SlotAt(p) && SlotStep(p + (m + s)) == SlotStep(p)
  {
    var h := p + (m + s);
    assert h[0..] == h;
    if SlotAt(h).Some? {
      NoSlotRunsIntoSlot(p, m, s, 0);
      SlotAtRestricts(p, m + s);
    } else if SlotAt(p).Some? {
      SlotAtExtends(p, m + s);
    }
  }

  /** Stripping shortens a text exactly when it has a slot. */
  lemma {:induction false} StripShortens(h: string)
    ensures |StripSlots(h)| <= |h|
    ensures |StripSlots(h)| == |h| <==> CountContentSlots(h) == 0
    decreases |h|
  {
    hide SlotAt;
    if h != "" {
      StripShortens(h[SlotStep(h)..]);
    }
  }

  lemma {:induction false} InjectLength(h: string, body: string)
    requires CountContentSlots(h) > 0
    ensures |InjectContentSlot(h, body)| == |StripSlots(h)| + |body|
    decreases |h|
  {
    hide SlotAt;
    if SlotAt(h).None? {
      InjectLength(h[1..], body);
    }
  }

  /**
   * Injecting around a marker gives prefix, body, suffix exactly when neither side has
   * a slot of its own.
   */
  lemma {:induction false} InjectsExactlyIff(p: string, m: string, s: string, body: string)
    requires IsSlot(m)
    ensures InjectContentSlot(p + (m + s), body) == p + (body + s)
       <==> CountContentSlots(p) == 0 && CountContentSlots(s) == 0
  {
    hide SlotAt, CountContentSlots, StripSlots, InjectContentSlot;
    SlotsAroundSlot(p, m, s);
    InjectLength(p + (m + s), body);
    StripShortens(p);
    StripShortens(s);
    if CountContentSlots(p) == 0 && CountContentSlots(s) == 0 {
      CountZeroMeansNoSlot(s);
      forall k | 0 <= k < |p| ensures SlotAt((p + (m + s))[k..]).None? {
        NoSlotNorAcross(p, m, s, k);
      }
      SplitAtSlot(p, m, s, body);
    }
  }

  lemma NoSlotNorAcross(p: string, m: string, s: string, k: nat)
    requires IsSlot(m) && CountContentSlots(p) == 0 && k < |p|
    ensures SlotAt((p + (m + s))[k..]).None?
  {
    hide SlotAt, CountContentSlots;
    CountZeroMeansNoSlot(p);
    assert SlotAt(p[k..]).None?;
    SlotInPrefix(p[k..], m, s);
    assert (p + (m + s))[k..] == p[k..] + (m + s);
  }
}

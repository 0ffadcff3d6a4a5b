// The two regular expressions of src/modules/email/email-html-validation.ts as
// deterministic scanners, proved equal to what the expressions mean.
module TemplateScanner {
  import opened Wrappers
  import opened Text

  datatype Hit = Hit(name: string, len: nat)

  // ---- `{{name}}` -------------------------------------------------------------

  /** A match of `DOUBLE_VAR_REGEX` anchored at the start of `s`, found by one greedy pass. */
  function DoubleAt(s: string): (r: Option<Hit>)
    ensures r.Some? ==> 5 <= r.value.len <= |s|
  {
    if |s| < 3 || s[0] != '{' || s[1] != '{' || s[2] == '{' then None
    else
      var a := SpaceEnd(s, 2);
      if a == |s| || !IsLetter(s[a]) then None
      else
        var b := NameEnd(s, a);
        var c := SpaceEnd(s, b);
        if c + 2 <= |s| && s[c] == '}' && s[c + 1] == '}' && (c + 2 < |s| ==> s[c + 2] != '}')
        then Some(Hit(s[a..b], c + 2))
        else None
  }

  /**
   * The meaning of the expression, with no scanning order: two braces not followed
   * by a third, blanks, a name, blanks, two braces not followed by a third.
   */
  predicate DoubleParts(s: string, a: nat, b: nat, c: nat) {
    && 2 <= a < b <= c && c + 2 <= |s|
    && s[0] == '{' && s[1] == '{' && s[2] != '{'
    && SpacesIn(s, 2, a) && NameIn(s, a, b) && SpacesIn(s, b, c)
    && s[c] == '}' && s[c + 1] == '}'
    && (c + 2 < |s| ==> s[c + 2] != '}')
  }

  ghost predicate DoubleMatches(s: string, h: Hit) {
    exists a: nat, b: nat, c: nat :: DoubleParts(s, a, b, c) && h == Hit(s[a..b], c + 2)
  }

  lemma DoublePartsScan(s: string, a: nat, b: nat, c: nat)
    requires DoubleParts(s, a, b, c)
    ensures SpaceEnd(s, 2) == a && NameEnd(s, a) == b && SpaceEnd(s, b) == c
  {
    ClassesAreDisjoint(s[a]);
    ClassesAreDisjoint(s[b]);
    ClassesAreDisjoint(s[c]);
  }

  lemma DoublePartsHit(s: string, a: nat, b: nat, c: nat)
    requires DoubleParts(s, a, b, c)
    ensures DoubleAt(s) == Some(Hit(s[a..b], c + 2))
  {
    DoublePartsScan(s, a, b, c);
  }

  lemma DoubleHitParts(s: string) returns (a: nat, b: nat, c: nat)
    requires DoubleAt(s).Some?
    ensures DoubleParts(s, a, b, c) && DoubleAt(s) == Some(Hit(s[a..b], c + 2))
  {
    a := SpaceEnd(s, 2);
    b := NameEnd(s, a);
    c := SpaceEnd(s, b);
  }

  /** Greedy scanning finds a match exactly when there is one, and it is the only one. */
  lemma DoubleAtIsTheRegex(s: string, h: Hit)
    ensures DoubleAt(s) == Some(h) <==> DoubleMatches(s, h)
  {
    if DoubleMatches(s, h) {
      var a: nat, b: nat, c: nat :| DoubleParts(s, a, b, c) && h == Hit(s[a..b], c + 2);
      DoublePartsHit(s, a, b, c);
    }
    if DoubleAt(s) == Some(h) {
      var a, b, c := DoubleHitParts(s);
    }
  }

  /** The shape of every match: braces only in its first and last two places. */
  lemma DoubleShape(s: string)
    requires DoubleAt(s).Some?
    ensures var n := DoubleAt(s).value.len;
            && 5 <= n <= |s|
            && s[0] == '{' && s[1] == '{' && s[n - 2] == '}' && s[n - 1] == '}'
            && (forall i :: 2 <= i < n - 2 ==> s[i] != '{' && s[i] != '}')
            && (n < |s| ==> s[n] != '}')
  {
    var a, b, c := DoubleHitParts(s);
    forall i | 2 <= i < c ensures s[i] != '{' && s[i] != '}' {
      ClassesAreDisjoint(s[i]);
    }
  }

  /** Whether text matches depends only on the match and the one character after it. */
  lemma DoubleAtExtends(s: string, t: string)
    requires DoubleAt(s).Some? && (DoubleAt(s).value.len == |s| && t != "" ==> t[0] != '}')
    ensures DoubleAt(s + t) == DoubleAt(s)
  {
    var a, b, c := DoubleHitParts(s);
    assert (s + t)[a..b] == s[a..b];
    DoublePartsHit(s + t, a, b, c);
  }

  lemma DoubleAtRestricts(s: string, t: string)
    requires DoubleAt(s + t).Some? && DoubleAt(s + t).value.len <= |s|
    ensures DoubleAt(s) == DoubleAt(s + t)
  {
    var a, b, c := DoubleHitParts(s + t);
    assert forall k :: 0 <= k < |s| ==> s[k] == (s + t)[k];
    assert (s + t)[a..b] == s[a..b];
    DoublePartsHit(s, a, b, c);
  }

  // ---- `{{{content}}}` --------------------------------------------------------

  /** `s[i..]` starts with `content`. */
  predicate ContentAt(s: string, i: nat) {
    && i + 7 <= |s|
    && s[i] == 'c' && s[i + 1] == 'o' && s[i + 2] == 'n' && s[i + 3] == 't'
    && s[i + 4] == 'e' && s[i + 5] == 'n' && s[i + 6] == 't'
  }

  /** `s[i..]` starts with three copies of `c`. */
  predicate TripleAt(s: string, i: nat, c: char) {
    i + 3 <= |s| && s[i] == c && s[i + 1] == c && s[i + 2] == c
  }

  /** The length of a match of `CONTENT_SLOT_REGEX` anchored at the start of `s`. */
  function SlotAt(s: string): (r: Option<nat>)
    ensures r.Some? ==> 13 <= r.value <= |s|
  {
    if !TripleAt(s, 0, '{') then None
    else
      var a := SpaceEnd(s, 3);
      if !ContentAt(s, a) then None
      else
        var c := SpaceEnd(s, a + 7);
        if TripleAt(s, c, '}') then Some(c + 3) else None
  }

  predicate SlotParts(s: string, a: nat, c: nat) {
    && 3 <= a && a + 7 <= c && c + 3 <= |s|
    && TripleAt(s, 0, '{') && SpacesIn(s, 3, a) && ContentAt(s, a)
    && SpacesIn(s, a + 7, c) && TripleAt(s, c, '}')
  }

  ghost predicate SlotMatches(s: string, len: nat) {
    exists a: nat, c: nat :: SlotParts(s, a, c) && len == c + 3
  }

  lemma SlotPartsHit(s: string, a: nat, c: nat)
    requires SlotParts(s, a, c)
    ensures SlotAt(s) == Some(c + 3)
  {
    ClassesAreDisjoint(s[a]);
    ClassesAreDisjoint(s[c]);
  }

  lemma SlotHitParts(s: string) returns (a: nat, c: nat)
    requires SlotAt(s).Some?
    ensures SlotParts(s, a, c) && SlotAt(s) == Some(c + 3)
  {
    a := SpaceEnd(s, 3);
    c := SpaceEnd(s, a + 7);
  }

  lemma SlotAtIsTheRegex(s: string, len: nat)
    ensures SlotAt(s) == Some(len) <==> SlotMatches(s, len)
  {
    if SlotMatches(s, len) {
      var a: nat, c: nat :| SlotParts(s, a, c) && len == c + 3;
      SlotPartsHit(s, a, c);
    }
    if SlotAt(s) == Some(len) {
      var a, c := SlotHitParts(s);
    }
  }

  lemma SlotShape(s: string)
    requires SlotAt(s).Some?
    ensures var n := SlotAt(s).value;
            && 13 <= n <= |s| && TripleAt(s, 0, '{') && TripleAt(s, n - 3, '}')
            && (forall i :: 3 <= i < n - 3 ==> s[i] != '{' && s[i] != '}')
  {
    var a, c := SlotHitParts(s);
    forall i | 3 <= i < c ensures s[i] != '{' && s[i] != '}' {
      ClassesAreDisjoint(s[i]);
    }
  }

  lemma SlotAtExtends(s: string, t: string)
    requires SlotAt(s).Some?
    ensures SlotAt(s + t) == SlotAt(s)
  {
    var a, c := SlotHitParts(s);
    SlotPartsHit(s + t, a, c);
  }

  lemma SlotAtRestricts(s: string, t: string)
    requires SlotAt(s + t).Some? && SlotAt(s + t).value <= |s|
    ensures SlotAt(s) == SlotAt(s + t)
  {
    var a, c := SlotHitParts(s + t);
    assert forall k :: 0 <= k < |s| ==> s[k] == (s + t)[k];
    SlotPartsHit(s, a, c);
  }
}

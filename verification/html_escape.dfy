// `escapeHtml` (src/modules/email/email-templates.ts) and the entity decoding of
// `htmlToPlaintext` (src/modules/email/email-template-merge.util.ts).
module HtmlEscape {
  import opened Text

  // ---- Escaping ---------------------------------------------------------------

  /** `s.replace(/c/g, r)` for a one-character pattern. */
  function ReplaceChar(s: string, c: char, r: string): string {
    if s == "" then "" else (if s[0] == c then r else [s[0]]) + ReplaceChar(s[1..], c, r)
  }

  /** Four whole-string replacements, in this order. */
  function EscapeHtml(value: string): string {
    var amp := ReplaceChar(value, '&', "&amp;");
    var lt := ReplaceChar(amp, '<', "&lt;");
    var gt := ReplaceChar(lt, '>', "&gt;");
    ReplaceChar(gt, '"', "&quot;")
  }

  const SPECIAL: set<char> := {'&', '<', '>', '"'}

  function EntityOf(c: char): string {
    if c == '&' then "&amp;" else if c == '<' then "&lt;" else if c == '>' then "&gt;" else "&quot;"
  }

  function EncodeChar(c: char, cs: set<char>): string {
    if c in cs then EntityOf(c) else [c]
  }

  /** One pass over the characters that turns those in `cs` into entities. */
  function Encode(s: string, cs: set<char>): string {
    if s == "" then "" else EncodeChar(s[0], cs) + Encode(s[1..], cs)
  }

  lemma ReplaceCharConcat(s: string, t: string, c: char, r: string)
    ensures ReplaceChar(s + t, c, r) == ReplaceChar(s, c, r) + ReplaceChar(t, c, r)
  {
    if s == "" {
      assert s + t == t;
    } else {
      assert (s + t)[1..] == s[1..] + t;
      ReplaceCharConcat(s[1..], t, c, r);
    }
  }

  lemma ReplaceCharAbsent(s: string, c: char, r: string)
    requires Lacks(s, c)
    ensures ReplaceChar(s, c, r) == s
  {
    if s != "" {
      ReplaceCharAbsent(s[1..], c, r);
    }
  }

  lemma ReplaceHead(x: char, cs: set<char>, c: char)
    requires cs <= SPECIAL && c in SPECIAL - cs && (c == '&' ==> cs == {})
    ensures ReplaceChar(EncodeChar(x, cs), c, EntityOf(c)) == EncodeChar(x, cs + {c})
  {
    if x == c {
      assert ReplaceChar([c], c, EntityOf(c)) == EntityOf(c) + ReplaceChar("", c, EntityOf(c));
    } else {
      ReplaceCharAbsent(EncodeChar(x, cs), c, EntityOf(c));
    }
  }

  lemma {:induction false} ReplaceEncoded(s: string, cs: set<char>, c: char)
    requires cs <= SPECIAL && c in SPECIAL - cs && (c == '&' ==> cs == {})
    ensures ReplaceChar(Encode(s, cs), c, EntityOf(c)) == Encode(s, cs + {c})
  {
    if s != "" {
      ReplaceCharConcat(EncodeChar(s[0], cs), Encode(s[1..], cs), c, EntityOf(c));
      ReplaceHead(s[0], cs, c);
      ReplaceEncoded(s[1..], cs, c);
    }
  }

  lemma {:induction false} EncodeNothing(s: string)
    ensures Encode(s, {}) == s
  {
    if s != "" {
      EncodeNothing(s[1..]);
      assert s == [s[0]] + s[1..];
    }
  }

  /** The four sequential replacements are one per-character map. */
  lemma EscapeIsOnePass(value: string)
    ensures EscapeHtml(value) == Encode(value, SPECIAL)
  {
    EncodeNothing(value);
    ReplaceEncoded(value, {}, '&');
    ReplaceEncoded(value, {'&'}, '<');
    ReplaceEncoded(value, {'&', '<'}, '>');
    ReplaceEncoded(value, {'&', '<', '>'}, '"');
    assert {} + {'&'} == {'&'} && {'&'} + {'<'} == {'&', '<'};
    assert {'&', '<'} + {'>'} == {'&', '<', '>'} && {'&', '<', '>'} + {'"'} == SPECIAL;
  }

  lemma {:induction false} EncodeConcat(s: string, t: string)
    ensures Encode(s + t, SPECIAL) == Encode(s, SPECIAL) + Encode(t, SPECIAL)
  {
    if s == "" {
      assert s + t == t;
    } else {
      assert (s + t)[1..] == s[1..] + t;
      EncodeConcat(s[1..], t);
    }
  }

  /** Wherever it stands, each character becomes its entity or stays. */
  lemma EscapedAt(s: string, c: char, t: string)
    ensures EscapeHtml(s + ([c] + t))
         == EscapeHtml(s)
            + ((if c == '&' then "&amp;" else if c == '<' then "&lt;" else if c == '>' then "&gt;"
                else if c == '"' then "&quot;" else [c])
               + EscapeHtml(t))
  {
    hide EscapeHtml;
    EscapeIsOnePass(s + ([c] + t));
    EscapeIsOnePass(s);
    EscapeIsOnePass(t);
    EncodeConcat(s, [c] + t);
    assert ([c] + t)[1..] == t;
  }

  /** No markup character of the value survives as itself. */
  lemma {:induction false} EncodeLeavesNoMarkup(s: string)
    ensures Lacks(Encode(s, SPECIAL), '<') && Lacks(Encode(s, SPECIAL), '>') && Lacks(Encode(s, SPECIAL), '"')
  {
    if s != "" {
      EncodeLeavesNoMarkup(s[1..]);
    }
  }

  lemma EscapeLeavesNoMarkup(value: string)
    ensures var e := EscapeHtml(value); Lacks(e, '<') && Lacks(e, '>') && Lacks(e, '"')
  {
    EscapeIsOnePass(value);
    EncodeLeavesNoMarkup(value);
  }

  /** The codes of single characters form a prefix code. */
  lemma EncodeHead(x: char, u: string, y: char, v: string)
    requires EncodeChar(x, SPECIAL) + u == EncodeChar(y, SPECIAL) + v
    ensures x == y && u == v
  {
    var e, f := EncodeChar(x, SPECIAL), EncodeChar(y, SPECIAL);
    assert e[0] == (e + u)[0] == (f + v)[0] == f[0];
    if e[0] == '&' {
      assert e[1] == (e + u)[1] == (f + v)[1] == f[1];
    }
    assert u == (e + u)[|e|..] && v == (f + v)[|f|..];
  }

  lemma {:induction false} EncodeInjective(s: string, t: string)
    requires Encode(s, SPECIAL) == Encode(t, SPECIAL)
    ensures s == t
  {
    if s == "" || t == "" {
    } else {
      EncodeHead(s[0], Encode(s[1..], SPECIAL), t[0], Encode(t[1..], SPECIAL));
      EncodeInjective(s[1..], t[1..]);
      assert s == [s[0]] + s[1..] && t == [t[0]] + t[1..];
    }
  }

  lemma EscapeInjective(s: string, t: string)
    requires EscapeHtml(s) == EscapeHtml(t)
    ensures s == t
  {
    EscapeIsOnePass(s);
    EscapeIsOnePass(t);
    EncodeInjective(s, t);
  }

  /** Escaping adds or removes no brace: the entities have none. */
  lemma {:induction false} EncodeLacks(s: string, c: char)
    requires c == '{' || c == '}'
    ensures Lacks(Encode(s, SPECIAL), c) <==> Lacks(s, c)
  {
    if s != "" {
      EncodeLacks(s[1..], c);
      LacksConcat(EncodeChar(s[0], SPECIAL), Encode(s[1..], SPECIAL), c);
      LacksConcat([s[0]], s[1..], c);
      assert s == [s[0]] + s[1..];
    }
  }

  lemma EscapeLacks(value: string, c: char)
    requires c == '{' || c == '}'
    ensures Lacks(EscapeHtml(value), c) <==> Lacks(value, c)
  {
    EscapeIsOnePass(value);
    EncodeLacks(value, c);
  }

  // ---- Decoding ---------------------------------------------------------------

  /** ASCII case folding, all that the `i` flag does without the `u` flag here. */
  function Fold(c: char): char {
    if 'A' <= c <= 'Z' then (c as int + 32) as char else c
  }

  /** `s` starts with `p`, letters compared without case. */
  predicate StartsFolded(s: string, p: string) {
    |p| <= |s| && forall i :: 0 <= i < |p| ==> Fold(s[i]) == p[i]
  }

  predicate HasFolded(s: string, p: string) {
    exists k :: 0 <= k <= |s| && StartsFolded(s[k..], p)
  }

  /** `s.replace(/p/gi, c)` */
  function DecodeEntity(s: string, p: string, c: char): string
    requires p != ""
  {
    if s == "" then ""
    else if StartsFolded(s, p) then [c] + DecodeEntity(s[|p|..], p, c)
    else [s[0]] + DecodeEntity(s[1..], p, c)
  }

  const NBSP := "&nbsp;"
  const APOS := "&#39;"

  /** The six entity replacements of `htmlToPlaintext`, in its order. */
  function DecodeEntities(s: string): string {
    DecodeMarkup(DecodeEntity(DecodeEntity(s, NBSP, ' '), EntityOf('&'), '&'))
  }

  /** The last four: everything that runs after `&amp;` has become `&`. */
  function DecodeMarkup(s: string): string {
    var lt := DecodeEntity(s, EntityOf('<'), '<');
    var gt := DecodeEntity(lt, EntityOf('>'), '>');
    var quot := DecodeEntity(gt, EntityOf('"'), '"');
    DecodeEntity(quot, APOS, '\'')
  }

  lemma DecodeStep(s: string, p: string, c: char)
    requires p != "" && s != "" && !StartsFolded(s, p)
    ensures DecodeEntity(s, p, c) == [s[0]] + DecodeEntity(s[1..], p, c)
  {
  }

  lemma NotAnEntityStart(s: string, p: string)
    requires s != "" && s[0] != '&' && p != "" && p[0] == '&'
    ensures !StartsFolded(s, p)
  {
    assert Fold(s[0]) != '&';
  }

  /** Nothing starts inside text without an ampersand. */
  lemma {:induction false} DecodeSkips(s: string, t: string, p: string, c: char)
    requires p != "" && p[0] == '&' && Lacks(s, '&')
    ensures DecodeEntity(s + t, p, c) == s + DecodeEntity(t, p, c)
  {
    hide DecodeEntity, StartsFolded;
    if s == "" {
      assert s + t == t;
    } else {
      assert (s + t)[1..] == s[1..] + t;
      NotAnEntityStart(s + t, p);
      DecodeStep(s + t, p, c);
      DecodeSkips(s[1..], t, p, c);
      assert s == [s[0]] + s[1..];
    }
  }

  /** An entity that is not `p` is copied. */
  lemma DecodeSkipsEntity(x: char, t: string, p: string, c: char)
    requires |p| >= 2 && p[0] == '&' && p[1] != EntityOf(x)[1]
    ensures DecodeEntity(EntityOf(x) + t, p, c) == EntityOf(x) + DecodeEntity(t, p, c)
  {
    var e := EntityOf(x);
    assert !StartsFolded(e + t, p) by { assert Fold((e + t)[1]) == e[1]; }
    assert (e + t)[1..] == e[1..] + t;
    DecodeSkips(e[1..], t, p, c);
    assert e == [e[0]] + e[1..];
  }

  /** An entity that is `p` is decoded. */
  lemma DecodeTakesEntity(x: char, t: string)
    ensures DecodeEntity(EntityOf(x) + t, EntityOf(x), x) == [x] + DecodeEntity(t, EntityOf(x), x)
  {
    var e := EntityOf(x);
    assert forall i :: 0 <= i < |e| ==> Fold(e[i]) == e[i];
    assert StartsFolded(e + t, e);
    assert (e + t)[|e|..] == t;
  }

  lemma {:induction false} DecodeNbspAbsent(s: string)
    ensures DecodeEntity(Encode(s, SPECIAL), NBSP, ' ') == Encode(s, SPECIAL)
  {
    if s != "" {
      var t := Encode(s[1..], SPECIAL);
      DecodeNbspAbsent(s[1..]);
      if s[0] in SPECIAL {
        DecodeSkipsEntity(s[0], t, NBSP, ' ');
      } else {
        DecodeSkips([s[0]], t, NBSP, ' ');
      }
    }
  }

  lemma {:induction false} DecodeAmp(s: string)
    ensures DecodeEntity(Encode(s, SPECIAL), EntityOf('&'), '&') == Encode(s, SPECIAL - {'&'})
  {
    if s != "" {
      var t := Encode(s[1..], SPECIAL);
      DecodeAmp(s[1..]);
      if s[0] == '&' {
        DecodeTakesEntity('&', t);
      } else if s[0] in SPECIAL {
        DecodeSkipsEntity(s[0], t, EntityOf('&'), '&');
      } else {
        DecodeSkips([s[0]], t, EntityOf('&'), '&');
      }
    }
  }

  /** A run with no encoded character and no ampersand reads the same after encoding. */
  lemma {:induction false} StartsAfterEncoding(s: string, cs: set<char>, p: string)
    requires cs <= SPECIAL && Lacks(p, '&') && (forall i :: 0 <= i < |p| ==> p[i] !in SPECIAL)
    ensures StartsFolded(Encode(s, cs), p) <==> StartsFolded(s, p)
  {
    if p == "" {
    } else if s == "" {
    } else {
      var x, t := EncodeChar(s[0], cs), Encode(s[1..], cs);
      StartsAfterEncoding(s[1..], cs, p[1..]);
      assert StartsFolded(s, p) <==> Fold(s[0]) == p[0] && StartsFolded(s[1..], p[1..]) by { StartsSplits(s, p); }
      StartsSplits(x + t, p);
      if s[0] in cs {
        assert Fold((x + t)[0]) == '&' != p[0];
        assert Fold(s[0]) == s[0] != p[0];
      } else {
        assert (x + t)[1..] == t;
      }
    }
  }

  lemma StartsSplits(s: string, p: string)
    requires s != "" && p != ""
    ensures StartsFolded(s, p) <==> Fold(s[0]) == p[0] && StartsFolded(s[1..], p[1..])
  {
    if Fold(s[0]) == p[0] && StartsFolded(s[1..], p[1..]) {
      forall i | 0 <= i < |p| ensures Fold(s[i]) == p[i] {
        if i > 0 {
          assert s[1..][i - 1] == s[i] && p[1..][i - 1] == p[i];
        }
      }
    }
  }

  /** Text that spells an entity holds nothing to encode. */
  lemma {:induction false} EncodeKeeps(m: string, t: string, cs: set<char>)
    requires forall i :: 0 <= i < |m| ==> m[i] !in cs
    ensures Encode(m + t, cs) == m + Encode(t, cs)
  {
    hide EntityOf;
    if m == "" {
      assert m + t == t;
    } else {
      assert (m + t)[1..] == m[1..] + t;
      EncodeKeeps(m[1..], t, cs);
      assert EncodeChar(m[0], cs) == [m[0]];
      assert m == [m[0]] + m[1..];
    }
  }

  /** A value without special characters is its own escape. */
  lemma EscapeKeepsPlain(value: string)
    requires forall i :: 0 <= i < |value| ==> value[i] !in SPECIAL
    ensures EscapeHtml(value) == value
  {
    EscapeIsOnePass(value);
    EncodeKeeps(value, "", SPECIAL);
    assert value + "" == value;
  }

  /**
   * Decoding one entity of an encoded value: the character leaves the set of encoded
   * ones, and the same entity spelled in the value itself is decoded as well.
   */
  lemma {:induction false} DecodeCommutes(s: string, cs: set<char>, c: char)
    requires cs <= SPECIAL - {'&'} && c in cs
    ensures DecodeEntity(Encode(s, cs), EntityOf(c), c) == Encode(DecodeEntity(s, EntityOf(c), c), cs - {c})
    decreases |s|
  {
    var e := EntityOf(c);
    if s == "" {
    } else if StartsFolded(s, e) {
      SpelledEntity(s, cs, c);
      DecodeCommutes(s[|e|..], cs, c);
    } else {
      DecodeCommutes(s[1..], cs, c);
      DecodesHead(s, cs, c);
      var d := DecodeEntity(s[1..], e, c);
      assert ([s[0]] + d)[1..] == d;
    }
  }

  /** One character that starts no spelled entity: encoding then decoding leaves it coded for `cs - {c}`. */
  lemma {:induction false} DecodesHead(s: string, cs: set<char>, c: char)
    requires cs <= SPECIAL - {'&'} && c in cs && s != "" && !StartsFolded(s, EntityOf(c))
    ensures DecodeEntity(Encode(s, cs), EntityOf(c), c)
         == EncodeChar(s[0], cs - {c}) + DecodeEntity(Encode(s[1..], cs), EntityOf(c), c)
  {
    var e, t := EntityOf(c), Encode(s[1..], cs);
    if s[0] == c {
      DecodeTakesEntity(c, t);
    } else if s[0] in cs {
      DecodeSkipsEntity(s[0], t, e, c);
    } else if s[0] != '&' {
      DecodeSkips([s[0]], t, e, c);
    } else {
      RawAmpersandStays(s, cs, c);
    }
  }

  /** A bare ampersand of the value does not become the start of an entity by encoding what follows. */
  lemma {:induction false} RawAmpersandStays(s: string, cs: set<char>, c: char)
    requires cs <= SPECIAL - {'&'} && c in cs && s != "" && s[0] == '&' && !StartsFolded(s, EntityOf(c))
    ensures DecodeEntity(Encode(s, cs), EntityOf(c), c) == "&" + DecodeEntity(Encode(s[1..], cs), EntityOf(c), c)
  {
    hide DecodeEntity, StartsFolded, EntityOf;
    var e, t := EntityOf(c), Encode(s[1..], cs);
    assert Encode(s, cs) == "&" + t && ("&" + t)[1..] == t;
    EntityTail(c);
    StartsAfterEncoding(s[1..], cs, e[1..]);
    StartsSplits(s, e);
    StartsSplits("&" + t, e);
    DecodeStep("&" + t, e, c);
  }

  lemma EntityTail(c: char)
    ensures var e := EntityOf(c);
            && |e| >= 2 && e[0] == '&' && Lacks(e[1..], '&') && forall i :: 0 <= i < |e| - 1 ==> e[1..][i] !in SPECIAL
  {
  }

  /** An entity spelled out in the value survives encoding and is then decoded. */
  lemma SpelledEntity(s: string, cs: set<char>, c: char)
    requires cs <= SPECIAL - {'&'} && c in cs && StartsFolded(s, EntityOf(c))
    ensures var e := EntityOf(c);
            && DecodeEntity(Encode(s, cs), e, c) == [c] + DecodeEntity(Encode(s[|e|..], cs), e, c)
            && Encode(DecodeEntity(s, e, c), cs - {c}) == [c] + Encode(DecodeEntity(s[|e|..], e, c), cs - {c})
  {
    var e := EntityOf(c);
    var m, t := s[..|e|], s[|e|..];
    assert s == m + t;
    forall i | 0 <= i < |m| ensures m[i] !in cs {
      assert Fold(m[i]) == e[i];
    }
    EncodeKeeps(m, t, cs);
    assert StartsFolded(m + Encode(t, cs), e);
    assert (m + Encode(t, cs))[|e|..] == Encode(t, cs);
    assert DecodeEntity(s, e, c) == [c] + DecodeEntity(t, e, c);
    assert ([c] + DecodeEntity(t, e, c))[1..] == DecodeEntity(t, e, c);
  }

  /** Decoding an escaped value decodes the markup entities the value itself spells, and nothing else. */
  lemma DecodeOfEscape(value: string)
    ensures DecodeEntities(EscapeHtml(value)) == DecodeMarkup(value)
  {
    EscapeIsOnePass(value);
    DecodeNbspAbsent(value);
    DecodeAmp(value);
    var lt := DecodeEntity(value, EntityOf('<'), '<');
    var gt := DecodeEntity(lt, EntityOf('>'), '>');
    var quot := DecodeEntity(gt, EntityOf('"'), '"');
    DecodeCommutes(value, {'<', '>', '"'}, '<');
    assert SPECIAL - {'&'} == {'<', '>', '"'} && {'<', '>', '"'} - {'<'} == {'>', '"'};
    DecodeCommutes(lt, {'>', '"'}, '>');
    assert {'>', '"'} - {'>'} == {'"'};
    DecodeCommutes(gt, {'"'}, '"');
    assert {'"'} - {'"'} == {};
    EncodeNothing(quot);
  }

  lemma HasFoldedSplits(s: string, p: string)
    requires s != "" && !StartsFolded(s, p)
    ensures HasFolded(s, p) <==> HasFolded(s[1..], p)
  {
    if HasFolded(s, p) {
      var k :| 0 <= k <= |s| && StartsFolded(s[k..], p);
      assert k > 0 by { assert s[0..] == s; }
      assert s[k..] == s[1..][k - 1..];
    }
    if HasFolded(s[1..], p) {
      var k :| 0 <= k <= |s[1..]| && StartsFolded(s[1..][k..], p);
      assert s[1..][k..] == s[k + 1..];
    }
  }

  /** A replacement is the identity exactly when its entity does not occur; otherwise it shortens. */
  lemma {:induction false} DecodeEntityFixes(s: string, p: string, c: char)
    requires |p| >= 2
    ensures |DecodeEntity(s, p, c)| <= |s|
    ensures |DecodeEntity(s, p, c)| == |s| <==> !HasFolded(s, p)
    ensures !HasFolded(s, p) ==> DecodeEntity(s, p, c) == s
    decreases |s|
  {
    if s == "" {
    } else if StartsFolded(s, p) {
      assert s[0..] == s;
      assert HasFolded(s, p);
      DecodeEntityFixes(s[|p|..], p, c);
    } else {
      DecodeEntityFixes(s[1..], p, c);
      HasFoldedSplits(s, p);
      assert s == [s[0]] + s[1..];
    }
  }

  /**
   * Escape then decode gives the value back exactly when the value spells none of the
   * four entities decoded after `&amp;`. A value without an ampersand spells none.
   */
  lemma DecodeInvertsEscapeIff(value: string)
    ensures DecodeEntities(EscapeHtml(value)) == value
       <==> && !HasFolded(value, "&lt;") && !HasFolded(value, "&gt;")
            && !HasFolded(value, "&quot;") && !HasFolded(value, "&#39;")
  {
    DecodeOfEscape(value);
    var lt := DecodeEntity(value, EntityOf('<'), '<');
    var gt := DecodeEntity(lt, EntityOf('>'), '>');
    var quot := DecodeEntity(gt, EntityOf('"'), '"');
    DecodeEntityFixes(value, EntityOf('<'), '<');
    DecodeEntityFixes(lt, EntityOf('>'), '>');
    DecodeEntityFixes(gt, EntityOf('"'), '"');
    DecodeEntityFixes(quot, APOS, '\'');
  }

  lemma DecodeInvertsEscapeWithoutAmpersand(value: string)
    requires Lacks(value, '&')
    ensures DecodeEntities(EscapeHtml(value)) == value
  {
    forall p | p in {"&lt;", "&gt;", "&quot;", "&#39;"} ensures !HasFolded(value, p) {
      forall k | 0 <= k <= |value| ensures !StartsFolded(value[k..], p) {
        if k < |value| {
          assert Fold(value[k..][0]) != '&';
        }
      }
    }
    DecodeInvertsEscapeIff(value);
  }
}

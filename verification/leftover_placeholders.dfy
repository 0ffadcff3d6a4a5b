// Which templates can leave a placeholder in the text that is sent, whatever the values
// (src/modules/email/email-template-merge.util.ts).
module LeftoverPlaceholders {
  import opened Wrappers
  import opened Text
  import opened TemplateScanner
  import opened TemplateMerge
  import opened TemplateTokens
  import HtmlEscape

  // ---- `{{name}}` as an automaton ---------------------------------------------

  /** How much of `{{name}}` has been read. */
  datatype Stage = Open1 | Open2 | InName | Gap | Close1 | Close2

  function Next(s: Stage, c: char): Option<Stage> {
    match s
    case Open1 => if c == '{' then Some(Open2) else None
    case Open2 => if IsSpace(c) then Some(Open2) else if IsLetter(c) then Some(InName) else None
    case InName =>
      if IsNameChar(c) then Some(InName) else if IsSpace(c) then Some(Gap) else if c == '}' then Some(Close1) else None
    case Gap => if IsSpace(c) then Some(Gap) else if c == '}' then Some(Close1) else None
    case Close1 => if c == '}' then Some(Close2) else None
    case Close2 => None
  }

  /** `x` continues what has been read to a whole match. */
  predicate Completes(x: string, s: Stage) {
    if s == Close2 then x == "" || x[0] != '}'
    else x != "" && Next(s, x[0]).Some? && Completes(x[1..], Next(s, x[0]).value)
  }

  /** `u[c..]` starts with the closing braces. */
  predicate ClosesAt(u: string, c: nat) {
    c + 2 <= |u| && u[c] == '}' && u[c + 1] == '}' && (c + 2 < |u| ==> u[c + 2] != '}')
  }

  lemma CloseStages(u: string, i: nat)
    requires i < |u| && u[i] == '}'
    ensures Completes(u[i + 1..], Close1) <==> ClosesAt(u, i)
  {
    var x := u[i + 1..];
    if x != "" {
      assert x[0] == u[i + 1];
      assert x[1..] == u[i + 2..];
    }
  }

  lemma {:induction false} GapStage(u: string, i: nat)
    requires i <= |u|
    ensures Completes(u[i..], Gap) <==> ClosesAt(u, SpaceEnd(u, i))
    decreases |u| - i
  {
    var x := u[i..];
    if i < |u| {
      assert x[0] == u[i] && x[1..] == u[i + 1..];
      ClassesAreDisjoint(u[i]);
      if IsSpace(u[i]) {
        GapStage(u, i + 1);
      } else if u[i] == '}' {
        CloseStages(u, i);
      }
    }
  }

  lemma {:induction false} NameStage(u: string, i: nat)
    requires i <= |u|
    ensures Completes(u[i..], InName) <==> ClosesAt(u, SpaceEnd(u, NameEnd(u, i)))
    decreases |u| - i
  {
    var x := u[i..];
    if i < |u| {
      assert x[0] == u[i] && x[1..] == u[i + 1..];
      ClassesAreDisjoint(u[i]);
      if IsNameChar(u[i]) {
        NameStage(u, i + 1);
      } else if IsSpace(u[i]) {
        GapStage(u, i + 1);
      } else if u[i] == '}' {
        CloseStages(u, i);
      }
    }
  }

  lemma {:induction false} OpenStage(u: string, i: nat)
    requires i <= |u|
    ensures var a := SpaceEnd(u, i);
            Completes(u[i..], Open2) <==> a < |u| && IsLetter(u[a]) && ClosesAt(u, SpaceEnd(u, NameEnd(u, a)))
    decreases |u| - i
  {
    var x := u[i..];
    if i < |u| {
      assert x[0] == u[i] && x[1..] == u[i + 1..];
      ClassesAreDisjoint(u[i]);
      if IsSpace(u[i]) {
        OpenStage(u, i + 1);
      } else if IsLetter(u[i]) {
        NameStage(u, i + 1);
      }
    }
  }

  /** The automaton reads exactly the matches of the expression. */
  lemma CompletesIsTheRegex(x: string)
    ensures Completes(x, Open1) <==> DoubleAt("{" + x).Some?
  {
    hide Completes;
    var u := "{" + x;
    if x != "" && x[0] == '{' {
      assert x[1..] == u[2..];
      assert Completes(x, Open1) <==> Completes(u[2..], Open2) by { OpenOnce(x); }
      OpenStage(u, 2);
      if |u| > 2 && u[2] == '{' {
        ClassesAreDisjoint(u[2]);
      }
    } else {
      assert !Completes(x, Open1) by { OpenOnce(x); }
    }
  }

  lemma OpenOnce(x: string)
    ensures Completes(x, Open1) <==> x != "" && x[0] == '{' && Completes(x[1..], Open2)
  {
  }

  // ---- Completing with values -------------------------------------------------

  /**
   * Some values without open braces make the tokens complete what has been read; the
   * placeholders in `blank` are known to be empty. Between the two open braces only
   * empty values fit; after them, the first value that need not be empty can complete
   * everything.
   */
  predicate CanComplete(ts: seq<Token>, s: Stage, blank: set<string>) {
    if ts == [] then s == Close2
    else match ts[0]
      case Placeholder(name) =>
        if s == Open1 then CanComplete(ts[1..], s, blank + {name})
        else name !in blank || CanComplete(ts[1..], s, blank)
      case Literal(c) =>
        if s == Close2 then c != '}'
        else Next(s, c).Some? && CanComplete(ts[1..], Next(s, c).value, blank)
  }

  /** The template can leave a placeholder: one of its literal braces can come to open one. */
  predicate CanLeave(ts: seq<Token>) {
    exists k :: 0 <= k < |ts| && CanOpenAt(ts, k)
  }

  predicate CanOpenAt(ts: seq<Token>, k: nat)
    requires k < |ts|
  {
    ts[k] == Literal('{') && CanComplete(ts[k + 1..], Open1, {})
  }

  /** Every placeholder has a value, and no value has an open brace. */
  predicate Plain(ts: seq<Token>, values: map<string, string>) {
    forall name :: name in Placeholders(ts) ==> name in values && Lacks(values[name], '{')
  }

  lemma PlainTail(ts: seq<Token>, values: map<string, string>)
    requires ts != [] && Plain(ts, values)
    ensures Plain(ts[1..], values)
    ensures ts[0].Placeholder? ==> ts[0].name in values && Lacks(values[ts[0].name], '{')
  {
    hide Placeholders;
    assert ts == [ts[0]] + ts[1..];
    PlaceholdersStep(ts[0], ts[1..]);
  }

  /** Before the second open brace there is room for nothing else. */
  lemma OnlyNothingFits(value: string, rest: string)
    requires Lacks(value, '{') && Completes(value + rest, Open1)
    ensures value == ""
  {
  }

  /** What does complete it, can. */
  lemma {:induction false} CompletingNeeds(ts: seq<Token>, s: Stage, blank: set<string>, values: map<string, string>)
    requires Plain(ts, values) && Completes(Written(ts, values), s)
    requires forall name :: name in blank && name in values ==> values[name] == ""
    ensures CanComplete(ts, s, blank)
  {
    hide Placeholders, IsSpace, IsLetter, IsNameChar, Plain;
    if ts != [] {
      PlainTail(ts, values);
      var rest := Written(ts[1..], values);
      if ts[0].Placeholder? {
        var value := values[ts[0].name];
        if s == Open1 {
          OnlyNothingFits(value, rest);
          assert value + rest == rest;
          CompletingNeeds(ts[1..], s, blank + {ts[0].name}, values);
        } else if ts[0].name in blank {
          assert value + rest == rest;
          CompletingNeeds(ts[1..], s, blank, values);
        }
      } else {
        assert ([ts[0].c] + rest)[1..] == rest;
        if s != Close2 {
          CompletingNeeds(ts[1..], Next(s, ts[0].c).value, blank, values);
        }
      }
    }
  }

  /** A value that completes the match on its own. */
  function Filler(s: Stage): string {
    match s
    case Open1 => ""
    case Open2 => "a}}a"
    case InName => "}}a"
    case Gap => "}}a"
    case Close1 => "}a"
    case Close2 => "a"
  }

  lemma FillerCompletes(s: Stage, rest: string)
    requires s != Open1
    ensures Completes(Filler(s) + rest, s)
  {
    hide IsSpace, IsNameChar, IsLetter, Completes;
    assert Completes("a" + rest, Close2) by { CompletesLast("a" + rest); }
    CompletesStep('}', "a" + rest, Close1);
    CompletesStep('}', "}a" + rest, InName);
    CompletesStep('}', "}a" + rest, Gap);
    CompletesStep('a', "}}a" + rest, Open2);
    assert [Filler(s)[0]] + (Filler(s)[1..] + rest) == Filler(s) + rest;
    assert "}" + ("a" + rest) == "}a" + rest && "}" + ("}a" + rest) == "}}a" + rest
        && "a" + ("}}a" + rest) == "a}}a" + rest;
    LetterOrBrace();
  }

  lemma CompletesStep(c: char, x: string, s: Stage)
    requires s != Close2
    ensures Completes([c] + x, s) <==> Next(s, c).Some? && Completes(x, Next(s, c).value)
  {
    assert ([c] + x)[1..] == x;
  }

  lemma CompletesLast(x: string)
    ensures Completes(x, Close2) <==> x == "" || x[0] != '}'
  {
  }

  lemma LetterOrBrace()
    ensures IsLetter('a') && !IsSpace('a') && !IsSpace('}') && !IsNameChar('}')
  {
  }

  /** Nothing for the names in `blank`, one text for all others. */
  function Assigned(names: set<string>, blank: set<string>, filler: string): map<string, string> {
    map name | name in names :: if name in blank then "" else filler
  }

  /** What can complete it, does with suitable values. */
  lemma {:induction false} CompletingSuffices(ts: seq<Token>, s: Stage, blank: set<string>, names: set<string>)
    returns (blanks: set<string>, at: Stage)
    requires CanComplete(ts, s, blank) && Placeholders(ts) <= names
    ensures blank <= blanks && (s != Open1 ==> blanks == blank)
    ensures Completes(Written(ts, Assigned(names, blanks, Filler(at))), s)
  {
    hide Placeholders, IsSpace, IsLetter, IsNameChar, Filler;
    blanks, at := blank, s;
    if ts != [] {
      assert ts == [ts[0]] + ts[1..];
      PlaceholdersStep(ts[0], ts[1..]);
      if ts[0].Placeholder? {
        var name := ts[0].name;
        assert name in names;
        if s == Open1 {
          blanks, at := CompletingSuffices(ts[1..], s, blank + {name}, names);
          assert name in blanks;
          SkipsBlank(ts, Assigned(names, blanks, Filler(at)));
        } else if name in blank {
          blanks, at := CompletingSuffices(ts[1..], s, blank, names);
          SkipsBlank(ts, Assigned(names, blanks, Filler(at)));
        } else {
          FillerCompletes(s, Written(ts[1..], Assigned(names, blanks, Filler(at))));
        }
      } else if s != Close2 {
        blanks, at := CompletingSuffices(ts[1..], Next(s, ts[0].c).value, blank, names);
        var rest := Written(ts[1..], Assigned(names, blanks, Filler(at)));
        assert ([ts[0].c] + rest)[1..] == rest;
      }
    }
  }

  lemma SkipsBlank(ts: seq<Token>, values: map<string, string>)
    requires ts != [] && ts[0].Placeholder? && ts[0].name in values && values[ts[0].name] == ""
    ensures Written(ts, values) == Written(ts[1..], values)
  {
  }

  // ---- Placeholders in the written text ---------------------------------------

  /** The set of names can be computed one character at a time as well as match by match. */
  lemma {:induction false} NamesOneCharacter(u: string)
    requires u != ""
    ensures NamesOf(u) == HeadNames(u) + NamesOf(u[1..])
  {
    hide DoubleAt, NamesOf;
    var o := Options(false, {});
    if DoubleAt(u).Some? {
      StepOverMatch(u, map[], o);
      var n := DoubleAt(u).value.len;
      var m, t := u[1..n], u[n..];
      assert m + t == u[1..];
      forall j | 0 <= j < |m| ensures DoubleAt((m + t)[j..]).None? {
        NoMatchInsideMatch(u, j + 1);
        assert u[1..][j..] == u[j + 1..];
      }
      SubstituteCopies(m, t, map[], o);
    } else {
      StepOverLiteral(u, map[], o);
    }
  }

  /** Text without an open brace starts no match. */
  lemma NamesSkipPlain(v: string, t: string)
    requires Lacks(v, '{')
    ensures NamesOf(v + t) == NamesOf(t)
  {
    forall j | 0 <= j < |v| ensures DoubleAt((v + t)[j..]).None? {
      assert (v + t)[j..][0] == v[j];
    }
    SubstituteCopies(v, t, map[], Options(false, {}));
  }

  /** A character puts a placeholder in front exactly when it is a brace and the rest completes it. */
  lemma LeftAtHead(c: char, rest: string)
    ensures NamesOf([c] + rest) == {} <==> !(c == '{' && Completes(rest, Open1)) && NamesOf(rest) == {}
  {
    hide NamesOf, Completes;
    var u := [c] + rest;
    assert u[1..] == rest;
    NamesOneCharacter(u);
    if c == '{' {
      assert u == "{" + rest;
      CompletesIsTheRegex(rest);
    }
  }

  predicate OpensAt(ts: seq<Token>, values: map<string, string>, k: nat)
    requires k < |ts|
  {
    ts[k] == Literal('{') && Completes(Written(ts[k + 1..], values), Open1)
  }

  /** With plain values a placeholder is left exactly when a literal brace is completed to one. */
  lemma {:induction false} LeftIsOpened(ts: seq<Token>, values: map<string, string>)
    requires Plain(ts, values)
    ensures NamesOf(Written(ts, values)) == {} <==> forall k :: 0 <= k < |ts| ==> !OpensAt(ts, values, k)
  {
    hide NamesOf, Completes, Plain;
    if ts == [] {
      EmptyHasNoNames();
    } else {
      PlainTail(ts, values);
      LeftIsOpened(ts[1..], values);
      var rest := Written(ts[1..], values);
      assert forall k :: 0 < k < |ts| ==> ts[1..][k - 1] == ts[k] && ts[1..][k - 1 + 1..] == ts[k + 1..];
      assert forall k :: 0 < k < |ts| ==> (OpensAt(ts, values, k) <==> OpensAt(ts[1..], values, k - 1));
      assert forall k :: 0 <= k < |ts| - 1 ==> (OpensAt(ts, values, k + 1) <==> OpensAt(ts[1..], values, k));
      if ts[0].Placeholder? {
        NamesSkipPlain(values[ts[0].name], rest);
        assert !OpensAt(ts, values, 0);
      } else {
        LeftAtHead(ts[0].c, rest);
        assert OpensAt(ts, values, 0) <==> ts[0].c == '{' && Completes(rest, Open1);
      }
    }
  }

  lemma EmptyHasNoNames()
    ensures NamesOf("") == {}
  {
  }

  lemma PlainDrop(ts: seq<Token>, k: nat, values: map<string, string>)
    requires k <= |ts| && Plain(ts, values)
    ensures Plain(ts[k..], values)
  {
    hide Placeholders;
    assert ts == ts[..k] + ts[k..];
    PlaceholdersConcat(ts[..k], ts[k..]);
  }

  /** A template that cannot leave a placeholder does not. */
  lemma LeavesNothing(ts: seq<Token>, values: map<string, string>)
    requires Plain(ts, values) && !CanLeave(ts)
    ensures NamesOf(Written(ts, values)) == {}
  {
    hide NamesOf, Completes, Plain, CanComplete;
    LeftIsOpened(ts, values);
    forall k | 0 <= k < |ts| ensures !OpensAt(ts, values, k) {
      assert !CanOpenAt(ts, k);
      if OpensAt(ts, values, k) {
        PlainDrop(ts, k + 1, values);
        CompletingNeeds(ts[k + 1..], Open1, {}, values);
        assert false;
      }
    }
  }

  /** No brace and nothing that escaping changes. */
  predicate Harmless(value: string) {
    Lacks(value, '{') && forall i :: 0 <= i < |value| ==> value[i] !in HtmlEscape.SPECIAL
  }

  lemma FillerIsHarmless(s: Stage)
    ensures Harmless(Filler(s)) && Harmless("")
  {
  }

  /** All values that are not empty are the same text. */
  predicate OneText(values: map<string, string>) {
    forall a, b :: a in values && b in values ==> values[a] == "" || values[b] == "" || values[a] == values[b]
  }

  lemma AssignsOneText(names: set<string>, blanks: set<string>, text: string)
    ensures OneText(Assigned(names, blanks, text))
  {
  }

  /** One that can, does with values that need no escaping: one text for all that need not be empty. */
  lemma LeavesOne(ts: seq<Token>, names: set<string>) returns (values: map<string, string>)
    requires CanLeave(ts) && Placeholders(ts) <= names
    ensures values.Keys == names && forall name :: name in names ==> Harmless(values[name])
    ensures OneText(values)
    ensures NamesOf(Written(ts, values)) != {}
  {
    hide NamesOf, Completes, CanComplete, Placeholders, Harmless, Filler, OneText;
    var k :| 0 <= k < |ts| && CanOpenAt(ts, k);
    assert ts == ts[..k + 1] + ts[k + 1..];
    PlaceholdersConcat(ts[..k + 1], ts[k + 1..]);
    var blanks, at := CompletingSuffices(ts[k + 1..], Open1, {}, names);
    values := Assigned(names, blanks, Filler(at));
    FillerIsHarmless(at);
    AssignsOneText(names, blanks, Filler(at));
    assert Plain(ts, values) by {
      forall name | name in names ensures Lacks(values[name], '{') {
        assert Harmless(values[name]);
        HarmlessLacks(values[name]);
      }
    }
    assert OpensAt(ts, values, k);
    LeftIsOpened(ts, values);
  }

  lemma HarmlessLacks(value: string)
    requires Harmless(value)
    ensures Lacks(value, '{') && HtmlEscape.EscapeHtml(value) == value
  {
    HtmlEscape.EscapeKeepsPlain(value);
  }
}

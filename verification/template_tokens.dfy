// A template as the scan of src/modules/email/email-template-merge.util.ts sees it:
// literal characters and placeholders, in order.
module TemplateTokens {
  import opened TemplateScanner
  import opened TemplateMerge
  import HtmlEscape

  datatype Token = Literal(c: char) | Placeholder(name: string)

  function HeadToken(t: string): Token
    requires t != ""
  {
    if DoubleAt(t).Some? then Placeholder(DoubleAt(t).value.name) else Literal(t[0])
  }

  function Tokens(t: string): seq<Token>
    decreases |t|
  {
    if t == "" then [] else [HeadToken(t)] + Tokens(t[Advance(t)..])
  }

  function Placeholders(ts: seq<Token>): set<string> {
    set i | 0 <= i < |ts| && ts[i].Placeholder? :: ts[i].name
  }

  function WrittenToken(k: Token, values: map<string, string>): string {
    if k.Literal? then [k.c] else if k.name in values then values[k.name] else ""
  }

  /** The text that the tokens become once every placeholder has its value. */
  function Written(ts: seq<Token>, values: map<string, string>): string {
    if ts == [] then "" else WrittenToken(ts[0], values) + Written(ts[1..], values)
  }

  /** The values as they are written: escaped, or raw where trusted. */
  function Rendered(vars: map<string, string>, o: Options): map<string, string> {
    map name | name in vars :: Render("", name, vars, o)
  }

  lemma PlaceholdersStep(k: Token, ts: seq<Token>)
    ensures Placeholders([k] + ts) == (if k.Placeholder? then {k.name} else {}) + Placeholders(ts)
  {
    var all := [k] + ts;
    assert forall i :: 0 <= i < |ts| ==> all[i + 1] == ts[i];
    forall name | name in Placeholders(ts) ensures name in Placeholders(all) {
      var i :| 0 <= i < |ts| && ts[i].Placeholder? && ts[i].name == name;
      assert all[i + 1].Placeholder?;
    }
    if k.Placeholder? {
      assert all[0].Placeholder? && all[0].name == k.name;
    }
  }

  /** The tokens name the placeholders that the scan finds. */
  lemma {:induction false} TokensName(t: string)
    ensures Placeholders(Tokens(t)) == NamesOf(t)
    decreases |t|
  {
    hide DoubleAt, Placeholders;
    if t == "" {
      NoPlaceholders();
    } else {
      TokensName(t[Advance(t)..]);
      PlaceholdersStep(HeadToken(t), Tokens(t[Advance(t)..]));
    }
  }

  lemma NoPlaceholders()
    ensures Placeholders([]) == {}
  {
  }

  /** Substitution writes the tokens of the template with the rendered values. */
  lemma {:induction false} SubstitutionWrites(t: string, vars: map<string, string>, o: Options)
    requires NamesOf(t) <= vars.Keys
    ensures SubstituteDoubleBraces(t, vars, o) == Written(Tokens(t), Rendered(vars, o))
    decreases |t|
  {
    hide DoubleAt, HtmlEscape.EscapeHtml;
    if t != "" {
      SubstitutionWrites(t[Advance(t)..], vars, o);
      assert Tokens(t)[0] == HeadToken(t) && Tokens(t)[1..] == Tokens(t[Advance(t)..]);
      assert Emit(t, vars, o) == WrittenToken(HeadToken(t), Rendered(vars, o));
    }
  }

  lemma {:induction false} WrittenConcat(a: seq<Token>, b: seq<Token>, values: map<string, string>)
    ensures Written(a + b, values) == Written(a, values) + Written(b, values)
  {
    if a == [] {
      assert a + b == b;
    } else {
      assert (a + b)[1..] == a[1..] + b;
      WrittenConcat(a[1..], b, values);
    }
  }

  lemma PlaceholdersConcat(a: seq<Token>, b: seq<Token>)
    ensures Placeholders(a + b) == Placeholders(a) + Placeholders(b)
  {
    var all := a + b;
    assert forall i :: 0 <= i < |b| ==> all[|a| + i] == b[i];
    forall name | name in Placeholders(a) ensures name in Placeholders(all) {
      var i :| 0 <= i < |a| && a[i].Placeholder? && a[i].name == name;
      assert all[i].Placeholder?;
    }
    forall name | name in Placeholders(b) ensures name in Placeholders(all) {
      var i :| 0 <= i < |b| && b[i].Placeholder? && b[i].name == name;
      assert all[|a| + i].Placeholder?;
    }
  }

  /** What is written depends only on the values of the placeholders. */
  lemma {:induction false} WrittenDependsOn(ts: seq<Token>, a: map<string, string>, b: map<string, string>)
    requires forall name :: name in Placeholders(ts) ==> name in a && name in b && a[name] == b[name]
    ensures Written(ts, a) == Written(ts, b)
  {
    hide Placeholders;
    if ts != [] {
      assert ts == [ts[0]] + ts[1..];
      PlaceholdersStep(ts[0], ts[1..]);
      WrittenDependsOn(ts[1..], a, b);
    }
  }
}

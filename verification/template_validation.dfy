// The save-time validators of src/modules/email/email-html-validation.ts.
module TemplateValidation {
  import opened Wrappers
  import opened Text
  import opened TemplateScanner
  import opened TemplateMerge
  import opened ContentSlot
  import opened MergeTheorems
  import opened TemplateRegistry

  const MAX_FIELD_BYTES := 200 * 1024

  datatype ValidationError =
    | SlotInvalid(found: nat)
    | StrayTripleBraces
    | SlotNotAllowed
    | HtmlBlocked(constructs: seq<string>)
    | UnknownPlaceholders(names: seq<string>)
    | TooLarge
  {
    function Code(): string {
      match this
      case SlotInvalid(_) => "EMAIL_CONTAINER_SLOT_INVALID"
      case StrayTripleBraces => "EMAIL_CONTAINER_SLOT_INVALID"
      case SlotNotAllowed => "EMAIL_CONTAINER_SLOT_INVALID"
      case HtmlBlocked(_) => "EMAIL_HTML_BLOCKED"
      case UnknownPlaceholders(_) => "EMAIL_UNKNOWN_PLACEHOLDERS"
      case TooLarge => "EMAIL_HTML_BLOCKED"
    }
  }

  datatype ContentFields = ContentFields(subjectTemplate: string, bodyHtml: string, textTemplate: string)

  predicate IsTooLarge(t: string) {
    Utf8Length(t) > MAX_FIELD_BYTES
  }

  /** What a saved container shell satisfies; `scan` lists the blocked HTML constructs. */
  predicate ShellAccepted(shell: string, scan: string -> seq<string>) {
    && CountContentSlots(shell) == 1
    && !HasStrayTripleBraces(shell)
    && scan(shell) == []
    && NamesOf(StripSlots(shell)) <= Names(SYSTEM_PLACEHOLDERS)
    && !IsTooLarge(shell)
  }

  /** What a saved content template satisfies. */
  predicate ContentAccepted(key: TemplateKey, f: ContentFields, scan: string -> seq<string>) {
    var allowed := Names(GetPlaceholdersForKey(key));
    && CountContentSlots(f.bodyHtml) == 0
    && !HasStrayTripleBraces(f.bodyHtml)
    && scan(f.bodyHtml) == []
    && NamesOf(f.subjectTemplate) <= allowed
    && NamesOf(f.bodyHtml) <= allowed
    && NamesOf(f.textTemplate) <= allowed
    && !IsTooLarge(f.subjectTemplate) && !IsTooLarge(f.bodyHtml) && !IsTooLarge(f.textTemplate)
  }

  /** The code a rejected shell is refused with: that of the first error found. */
  function ShellCode(shell: string, scan: string -> seq<string>): string {
    if CountContentSlots(shell) != 1 || HasStrayTripleBraces(shell) then "EMAIL_CONTAINER_SLOT_INVALID"
    else if scan(shell) != [] then "EMAIL_HTML_BLOCKED"
    else if !(NamesOf(StripSlots(shell)) <= Names(SYSTEM_PLACEHOLDERS)) then "EMAIL_UNKNOWN_PLACEHOLDERS"
    else "EMAIL_HTML_BLOCKED"
  }

  function ContentCode(key: TemplateKey, f: ContentFields, scan: string -> seq<string>): string {
    var allowed := Names(GetPlaceholdersForKey(key));
    if CountContentSlots(f.bodyHtml) > 0 || HasStrayTripleBraces(f.bodyHtml) then "EMAIL_CONTAINER_SLOT_INVALID"
    else if scan(f.bodyHtml) != [] then "EMAIL_HTML_BLOCKED"
    else if !(NamesOf(f.subjectTemplate) <= allowed && NamesOf(f.bodyHtml) <= allowed
        && NamesOf(f.textTemplate) <= allowed)
    then "EMAIL_UNKNOWN_PLACEHOLDERS"
    else "EMAIL_HTML_BLOCKED"
  }

  // ---- The scanning loop ------------------------------------------------------

  /** `regex.exec(text)` with `lastIndex == i`: where the next match starts. */
  function Exec(text: string, i: nat): (r: Option<nat>)
    requires i <= |text|
    ensures r.Some? ==> i <= r.value <= |text| && DoubleAt(text[r.value..]).Some?
    decreases |text| - i
  {
    if i == |text| then None
    else if DoubleAt(text[i..]).Some? then Some(i)
    else Exec(text, i + 1)
  }

  /** The names from `i` on are the next match's name and the names after that match. */
  lemma {:induction false} ExecNames(text: string, i: nat)
    requires i <= |text|
    ensures var r := Exec(text, i);
            && (r.None? ==> NamesOf(text[i..]) == {})
            && (r.Some? ==> var h := DoubleAt(text[r.value..]).value;
                            NamesOf(text[i..]) == {h.name} + NamesOf(text[r.value + h.len..]))
    decreases |text| - i
  {
    hide DoubleAt, NamesOf;
    var u, o := text[i..], Options(false, {});
    if i == |text| {
      assert u == "";
      NamesOfEmpty();
    } else if DoubleAt(u).Some? {
      StepOverMatch(u, map[], o);
      assert u[DoubleAt(u).value.len..] == text[i + DoubleAt(u).value.len..];
    } else {
      StepOverLiteral(u, map[], o);
      assert u[1..] == text[i + 1..];
      ExecNames(text, i + 1);
    }
  }

  lemma NamesOfEmpty()
    ensures NamesOf("") == {}
  {
  }

  predicate Distinct(s: seq<string>) {
    forall i, j :: 0 <= i < j < |s| ==> s[i] != s[j]
  }

  function Elements(s: seq<string>): set<string> {
    set x | x in s
  }

  /** `names.add(name)` on an insertion-ordered set. */
  function Add(names: seq<string>, name: string): (r: seq<string>)
    requires Distinct(names)
    ensures Distinct(r) && Elements(r) == Elements(names) + {name}
  {
    if name in names then names else names + [name]
  }

  /** `[...new Set(matches)]`: every name of the text once. */
  method ExtractPlaceholderNames(text: string) returns (names: seq<string>)
    ensures Distinct(names) && Elements(names) == NamesOf(text)
  {
    hide DoubleAt, NamesOf, Exec;
    names := [];
    var lastIndex := 0;
    assert text[0..] == text;
    var m := Exec(text, 0);
    while m.Some?
      invariant lastIndex <= |text| && m == Exec(text, lastIndex)
      invariant Distinct(names) && Elements(names) + NamesOf(text[lastIndex..]) == NamesOf(text)
      decreases |text| - lastIndex
    {
      ExecNames(text, lastIndex);
      var hit := DoubleAt(text[m.value..]).value;
      names := Add(names, hit.name);
      lastIndex := m.value + hit.len;
      m := Exec(text, lastIndex);
    }
    ExecNames(text, lastIndex);
  }

  /** `names.filter((name) => !allowed.has(name))` */
  function NotAllowed(names: seq<string>, allowed: set<string>): (r: seq<string>)
    ensures Elements(r) == Elements(names) - allowed
    ensures r == [] <==> Elements(names) <= allowed
  {
    if names == [] then []
    else
      var rest := NotAllowed(names[1..], allowed);
      assert Elements(names) == {names[0]} + Elements(names[1..]);
      if names[0] in allowed then rest
      else
        assert Elements([names[0]] + rest) == {names[0]} + Elements(rest);
        [names[0]] + rest
  }

  // ---- The validators ---------------------------------------------------------

  predicate IsSlotError(e: ValidationError) {
    e.SlotInvalid? || e.StrayTripleBraces? || e.SlotNotAllowed?
  }

  /** The complaints in the order in which they are made. */
  function Complaints(slot: Option<ValidationError>, blocked: seq<string>, unknown: seq<string>, large: bool)
    : seq<ValidationError>
  {
    (if slot.Some? then [slot.value] else []) + (if |blocked| > 0 then [HtmlBlocked(blocked)] else [])
    + (if |unknown| > 0 then [UnknownPlaceholders(unknown)] else []) + (if large then [TooLarge] else [])
  }

  lemma ComplaintsAre(slot: Option<ValidationError>, blocked: seq<string>, unknown: seq<string>, large: bool)
    requires slot.Some? ==> IsSlotError(slot.value)
    ensures var errors := Complaints(slot, blocked, unknown, large);
            && (errors == [] <==> slot.None? && blocked == [] && unknown == [] && !large)
            && (forall e :: e in errors && IsSlotError(e) ==> slot == Some(e))
            && (slot.Some? ==> slot.value in errors)
            && (HtmlBlocked(blocked) in errors <==> blocked != [])
            && (forall e :: e in errors && e.HtmlBlocked? ==> e.constructs == blocked != [])
            && ((exists e :: e in errors && e.UnknownPlaceholders?) <==> unknown != [])
            && (forall e :: e in errors && e.UnknownPlaceholders? ==> e.names == unknown)
            && (TooLarge in errors <==> large)
            && (errors != [] ==> errors[0].Code() == if slot.Some? then "EMAIL_CONTAINER_SLOT_INVALID"
                                                     else if blocked != [] || unknown == [] then "EMAIL_HTML_BLOCKED"
                                                     else "EMAIL_UNKNOWN_PLACEHOLDERS")
  {
    hide Complaints;
    FirstComplaint(slot, blocked, unknown, large);
    forall e {
      IsComplaint(slot, blocked, unknown, large, e);
    }
    if unknown != [] {
      assert UnknownPlaceholders(unknown) in Complaints(slot, blocked, unknown, large);
    }
  }

  lemma IsComplaint(slot: Option<ValidationError>, blocked: seq<string>, unknown: seq<string>, large: bool,
                    e: ValidationError)
    ensures e in Complaints(slot, blocked, unknown, large)
       <==> || slot == Some(e) || (blocked != [] && e == HtmlBlocked(blocked))
            || (unknown != [] && e == UnknownPlaceholders(unknown)) || (large && e == TooLarge)
  {
  }

  lemma FirstComplaint(slot: Option<ValidationError>, blocked: seq<string>, unknown: seq<string>, large: bool)
    requires slot.Some? ==> IsSlotError(slot.value)
    ensures var errors := Complaints(slot, blocked, unknown, large);
            && (errors == [] <==> slot.None? && blocked == [] && unknown == [] && !large)
            && (errors != [] ==> errors[0].Code() == if slot.Some? then "EMAIL_CONTAINER_SLOT_INVALID"
                                                     else if blocked != [] || unknown == [] then "EMAIL_HTML_BLOCKED"
                                                     else "EMAIL_UNKNOWN_PLACEHOLDERS")
  {
  }

  /** `errors.push(...)`, check by check. */
  method Collect(slot: Option<ValidationError>, blocked: seq<string>, unknown: seq<string>, large: bool)
    returns (errors: seq<ValidationError>)
    ensures errors == Complaints(slot, blocked, unknown, large)
  {
    errors := if slot.Some? then [slot.value] else [];
    if |blocked| > 0 {
      errors := errors + [HtmlBlocked(blocked)];
    }
    if |unknown| > 0 {
      errors := errors + [UnknownPlaceholders(unknown)];
    }
    if large {
      errors := errors + [TooLarge];
    }
  }

  method ValidateContainerHtmlShell(shell: string, scan: string -> seq<string>) returns (errors: seq<ValidationError>)
    ensures errors == [] <==> ShellAccepted(shell, scan)
    ensures errors != [] ==> errors[0].Code() == ShellCode(shell, scan)
    ensures SlotInvalid(CountContentSlots(shell)) in errors <==> CountContentSlots(shell) != 1
    ensures StrayTripleBraces in errors <==> CountContentSlots(shell) == 1 && HasStrayTripleBraces(shell)
    ensures forall e :: e in errors && e.HtmlBlocked? ==> e.constructs == scan(shell) != []
    ensures forall e :: e in errors && e.UnknownPlaceholders? ==>
              Elements(e.names) == NamesOf(StripSlots(shell)) - Names(SYSTEM_PLACEHOLDERS) && e.names != []
    ensures HtmlBlocked(scan(shell)) in errors <==> scan(shell) != []
    ensures (exists e :: e in errors && e.UnknownPlaceholders?) <==> !(NamesOf(StripSlots(shell)) <= {"logoUrl"})
    ensures TooLarge in errors <==> Utf8Length(shell) > 204800
  {
    hide NamesOf, CountContentSlots, StripSlots, HasStrayTripleBraces, IsTooLarge, Elements, Distinct, Names;
    hide ShellAccepted, ShellCode, NotAllowed, Utf8Length, Complaints;
    SystemNames();
    SizeLimit(shell);
    var slotCount := CountContentSlots(shell);
    var slot := None;
    if slotCount != 1 {
      slot := Some(SlotInvalid(slotCount));
    } else if HasStrayTripleBraces(shell) {
      slot := Some(StrayTripleBraces);
    }
    var names := ExtractPlaceholderNames(StripSlots(shell));
    var unknown := NotAllowed(names, Names(SYSTEM_PLACEHOLDERS));
    errors := Collect(slot, scan(shell), unknown, IsTooLarge(shell));
    ComplaintsAre(slot, scan(shell), unknown, IsTooLarge(shell));
    ShellVerdict(shell, scan);
  }

  lemma SizeLimit(t: string)
    ensures IsTooLarge(t) <==> Utf8Length(t) > 204800
  {
  }

  lemma SystemNames()
    ensures Names(SYSTEM_PLACEHOLDERS) == {"logoUrl"}
  {
    assert SYSTEM_PLACEHOLDERS[0] == PlaceholderInfo("logoUrl", false);
  }

  /** What is accepted, and the first complaint about what is not, check by check. */
  lemma ShellVerdict(shell: string, scan: string -> seq<string>)
    ensures var slots := CountContentSlots(shell) != 1 || HasStrayTripleBraces(shell);
            var named := NamesOf(StripSlots(shell)) <= Names(SYSTEM_PLACEHOLDERS);
            && (ShellAccepted(shell, scan) <==> !slots && scan(shell) == [] && named && !IsTooLarge(shell))
            && ShellCode(shell, scan) == if slots then "EMAIL_CONTAINER_SLOT_INVALID"
                                         else if scan(shell) != [] || named then "EMAIL_HTML_BLOCKED"
                                         else "EMAIL_UNKNOWN_PLACEHOLDERS"
  {
    hide NamesOf, CountContentSlots, StripSlots, HasStrayTripleBraces, IsTooLarge, Names;
  }

  method ValidateEmailContentTemplate(key: TemplateKey, f: ContentFields, scan: string -> seq<string>)
    returns (errors: seq<ValidationError>)
    ensures errors == [] <==> ContentAccepted(key, f, scan)
    ensures errors != [] ==> errors[0].Code() == ContentCode(key, f, scan)
    ensures TooLarge in errors
            <==> Utf8Length(f.subjectTemplate) > 204800 || Utf8Length(f.bodyHtml) > 204800
                 || Utf8Length(f.textTemplate) > 204800
    ensures HtmlBlocked(scan(f.bodyHtml)) in errors <==> scan(f.bodyHtml) != []
    ensures (exists e :: e in errors && e.UnknownPlaceholders?)
            <==> !(NamesOf(f.subjectTemplate) + NamesOf(f.bodyHtml) + NamesOf(f.textTemplate)
                   <= Names(GetPlaceholdersForKey(key)))
    ensures SlotNotAllowed in errors <==> CountContentSlots(f.bodyHtml) > 0 || HasStrayTripleBraces(f.bodyHtml)
    ensures forall e :: e in errors && e.HtmlBlocked? ==> e.constructs == scan(f.bodyHtml) != []
    ensures forall e :: e in errors && e.UnknownPlaceholders? ==>
              Elements(e.names) == (NamesOf(f.subjectTemplate) + NamesOf(f.bodyHtml) + NamesOf(f.textTemplate))
                                   - Names(GetPlaceholdersForKey(key))
  {
    hide NamesOf, CountContentSlots, HasStrayTripleBraces, IsTooLarge, FieldsToScan, NamesOfAll, Elements, Distinct;
    hide GetPlaceholdersForKey, Names, ContentAccepted, ContentCode, Utf8Length, Complaints;
    SizeLimit(f.subjectTemplate);
    SizeLimit(f.bodyHtml);
    SizeLimit(f.textTemplate);
    var allowed := Names(GetPlaceholdersForKey(key));
    var slot := None;
    if CountContentSlots(f.bodyHtml) > 0 || HasStrayTripleBraces(f.bodyHtml) {
      slot := Some(SlotNotAllowed);
    }
    var fieldsToScan := FieldsToScan(f);
    var unknown := UnknownIn(fieldsToScan, allowed);
    var large := AnyTooLarge(fieldsToScan);
    errors := Collect(slot, scan(f.bodyHtml), unknown, large);
    ComplaintsAre(slot, scan(f.bodyHtml), unknown, large);
    ScannedNames(f);
    ScannedSizes(f);
    NoElementsIff(unknown);
    AllAllowed(NamesOf(f.subjectTemplate), NamesOf(f.bodyHtml), NamesOf(f.textTemplate), allowed);
    ContentVerdict(key, f, scan);
  }

  lemma ContentVerdict(key: TemplateKey, f: ContentFields, scan: string -> seq<string>)
    ensures var allowed := Names(GetPlaceholdersForKey(key));
            var slots := CountContentSlots(f.bodyHtml) > 0 || HasStrayTripleBraces(f.bodyHtml);
            var named := NamesOf(f.subjectTemplate) <= allowed && NamesOf(f.bodyHtml) <= allowed
                && NamesOf(f.textTemplate) <= allowed;
            var large := IsTooLarge(f.subjectTemplate) || IsTooLarge(f.bodyHtml) || IsTooLarge(f.textTemplate);
            && (ContentAccepted(key, f, scan) <==> !slots && scan(f.bodyHtml) == [] && named && !large)
            && ContentCode(key, f, scan) == if slots then "EMAIL_CONTAINER_SLOT_INVALID"
                                            else if scan(f.bodyHtml) != [] || named then "EMAIL_HTML_BLOCKED"
                                            else "EMAIL_UNKNOWN_PLACEHOLDERS"
  {
    hide NamesOf, CountContentSlots, HasStrayTripleBraces, IsTooLarge, GetPlaceholdersForKey, Names;
  }

  /** An empty plaintext template is not scanned. */
  function FieldsToScan(f: ContentFields): seq<string> {
    [f.subjectTemplate, f.bodyHtml] + if f.textTemplate != "" then [f.textTemplate] else []
  }

  function NamesOfAll(fields: seq<string>): set<string> {
    if fields == [] then {} else NamesOfAll(fields[..|fields| - 1]) + NamesOf(fields[|fields| - 1])
  }

  lemma ScannedNames(f: ContentFields)
    ensures NamesOfAll(FieldsToScan(f)) == NamesOf(f.subjectTemplate) + NamesOf(f.bodyHtml) + NamesOf(f.textTemplate)
  {
    hide NamesOf;
    var fs, two := FieldsToScan(f), [f.subjectTemplate, f.bodyHtml];
    assert two[..1] == [f.subjectTemplate] && two[..1][..0] == [];
    assert NamesOfAll(two[..1]) == NamesOf(f.subjectTemplate);
    assert f.textTemplate != "" ==> fs[..2] == two;
    NamesOfEmpty();
  }

  lemma ScannedSizes(f: ContentFields)
    ensures (exists t :: t in FieldsToScan(f) && IsTooLarge(t))
       <==> IsTooLarge(f.subjectTemplate) || IsTooLarge(f.bodyHtml) || IsTooLarge(f.textTemplate)
  {
    var fs := FieldsToScan(f);
    assert fs[0] == f.subjectTemplate && fs[1] == f.bodyHtml;
    assert f.textTemplate != "" ==> fs[2] == f.textTemplate;
  }

  method UnknownIn(fields: seq<string>, allowed: set<string>) returns (unknown: seq<string>)
    ensures Distinct(unknown) && Elements(unknown) == NamesOfAll(fields) - allowed
  {
    hide NamesOf, Elements, Distinct;
    unknown := [];
    NoElements();
    for i := 0 to |fields|
      invariant Distinct(unknown) && Elements(unknown) == NamesOfAll(fields[..i]) - allowed
    {
      var names := ExtractPlaceholderNames(fields[i]);
      unknown := AddUnknown(unknown, names, allowed);
      assert fields[..i + 1][..i] == fields[..i];
    }
    assert fields[..|fields|] == fields;
  }

  lemma AllAllowed(a: set<string>, b: set<string>, c: set<string>, allowed: set<string>)
    ensures a + b + c - allowed == {} <==> a <= allowed && b <= allowed && c <= allowed
  {
    if a + b + c - allowed == {} {
      assert forall x :: x in a + b + c ==> x !in a + b + c - allowed;
    }
  }

  lemma NoElementsIff(s: seq<string>)
    ensures s == [] <==> Elements(s) == {}
  {
    if s != [] {
      assert s[0] in Elements(s);
    }
  }

  lemma NoElements()
    ensures Distinct([]) && Elements([]) == {}
  {
  }

  method AddUnknown(unknown: seq<string>, names: seq<string>, allowed: set<string>) returns (r: seq<string>)
    requires Distinct(unknown)
    ensures Distinct(r) && Elements(r) == Elements(unknown) + (Elements(names) - allowed)
  {
    r := unknown;
    for j := 0 to |names|
      invariant Distinct(r) && Elements(r) == Elements(unknown) + (Elements(names[..j]) - allowed)
    {
      assert Elements(names[..j + 1]) == Elements(names[..j]) + {names[j]};
      if names[j] !in allowed {
        r := Add(r, names[j]);
      }
    }
    assert names[..|names|] == names;
  }

  method AnyTooLarge(fields: seq<string>) returns (large: bool)
    ensures large <==> exists t :: t in fields && IsTooLarge(t)
  {
    for i := 0 to |fields|
      invariant forall t :: t in fields[..i] ==> !IsTooLarge(t)
    {
      if IsTooLarge(fields[i]) {
        return true;
      }
      assert fields[..i + 1] == fields[..i] + [fields[i]];
    }
    assert fields[..|fields|] == fields;
    return false;
  }

  // ---- What acceptance guarantees ---------------------------------------------

  /**
   * An accepted shell splits around its slot, and every placeholder of the whole
   * shell is a system placeholder although only the stripped text was checked.
   */
  lemma AcceptedShellSplits(shell: string, scan: string -> seq<string>) returns (p: string, m: string, s: string)
    requires ShellAccepted(shell, scan)
    ensures shell == p + (m + s) && IsSlot(m) && StripSlots(shell) == p + s
    ensures NoTriple(p + s, '{') && NoTriple(p + s, '}')
    ensures NamesOf(shell) <= {"logoUrl"}
  {
    p, m, s := OneSlotSplits(shell);
    SplitAtSlot(p, m, s, "");
    StrippedNamesCover(p, m, s);
    assert SYSTEM_PLACEHOLDERS[0].name == "logoUrl";
  }

  /** Without the stray-brace check the stripped text could hide a placeholder of the shell. */
  lemma StrayCheckIsNeeded(m: string)
    requires IsSlot(m)
    ensures var shell := "{{x}}" + (m + "}");
            "x" in NamesOf(shell) && "x" !in NamesOf(StripSlots(shell)) && HasStrayTripleBraces(shell)
  {
    hide NamesOf, DoubleAt, SlotAt, SubstituteDoubleBraces;
    SubstituteAroundSlot("{{x}}", m, "}", map[], Options(false, {}));
    LonePlaceholder("{{x}}", "x");
    assert NoTriple("{{x}}", '}') && NoTriple("}", '}');
    OnlySlot("{{x}}", m, "}", '}');
    SplitAtSlot("{{x}}", m, "}", "");
    NoPlaceholderBeforeBrace();
  }

  lemma LonePlaceholder(t: string, name: string)
    requires |t| >= 5 && t == "{{" + name + "}}" && NameIn(t, 2, |t| - 2)
    ensures DoubleAt(t) == Some(Hit(name, |t|)) && NamesOf(t) == {name}
  {
    assert t[|t| - 2] == '}' && t[|t| - 1] == '}' && t[0] == '{' && t[1] == '{';
    ClassesAreDisjoint(t[2]);
    DoublePartsHit(t, 2, |t| - 2, |t| - 2);
    assert t[2..|t| - 2] == name;
    StepOverMatch(t, map[], Options(false, {}));
    NamesOfEmpty();
  }

  lemma NoPlaceholderBeforeBrace()
    ensures !NoTriple("{{x}}" + "}", '}') && "x" !in NamesOf("{{x}}" + "}")
  {
    var t := "{{x}}" + "}";
    assert t[3] == '}' && t[3 + 1] == '}' && t[3 + 2] == '}';
    if k: nat :| OccursAt(t, k, "x") {
      DoubleShape(t[k..]);
      assert false;
    }
    NamesAreOccurrences(t, "x");
  }
}

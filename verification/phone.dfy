// Thai phone canonicalisation of src/common/utils/phone.util.ts.
module Phone {
  import opened Text

  const THAI_SUBSCRIBER_LENGTH := 9

  /** `value.replace(/\D/g, '')` */
  function Digits(s: string): (d: string)
    ensures |d| <= |s| && AllDigits(d)
    ensures |d| == |s| <==> AllDigits(s)
    ensures AllDigits(s) ==> d == s
  {
    if s == "" then "" else (if IsDigit(s[0]) then [s[0]] else []) + Digits(s[1..])
  }

  predicate AllDigits(s: string) {
    forall i :: 0 <= i < |s| ==> IsDigit(s[i])
  }

  /** `s.slice(i, i + 9)` */
  function SliceNine(s: string, i: nat): (r: string)
    ensures |r| <= 9
  {
    if i >= |s| then "" else if |s| - i < 9 then s[i..] else s[i..i + 9]
  }

  /** Where the subscriber number starts in the digits of an accepted format. */
  function SubscriberStart(digits: string): nat {
    if StartsWith(digits, "660") then 3
    else if StartsWith(digits, "66") then 2
    else if StartsWith(digits, "0") then 1
    else 0
  }

  function GetThaiSubscriber(value: string): (r: string)
    ensures |r| <= 9
  {
    SliceNine(Digits(value), SubscriberStart(Digits(value)))
  }

  /** Always local `0`-leading format where nine subscriber digits are found; null is the empty string. */
  function NormalizeThaiPhoneToLocal(value: string): string {
    var trimmed := Trim(value);
    if trimmed == "" then ""
    else if StartsWith(trimmed, "+") && !StartsWith(trimmed, "+66") then trimmed
    else
      var subscriber := GetThaiSubscriber(trimmed);
      if |subscriber| == THAI_SUBSCRIBER_LENGTH then "0" + subscriber else trimmed
  }

  predicate Trimmed(s: string) {
    s == "" || (!IsSpace(s[0]) && !IsSpace(s[|s| - 1]))
  }

  lemma SubscriberIsDigits(value: string)
    ensures AllDigits(GetThaiSubscriber(value))
  {
  }

  /** Local format with nine digits after the zero is a fixed point. */
  lemma LocalIsNormal(subscriber: string)
    requires |subscriber| == 9 && AllDigits(subscriber)
    ensures NormalizeThaiPhoneToLocal("0" + subscriber) == "0" + subscriber
  {
    var local := "0" + subscriber;
    assert local[0] == '0' && local[9] == subscriber[8];
    assert AllDigits(local) && Digits(local) == local;
    assert Trim(local) == local;
    assert SliceNine(local, 1) == subscriber;
    assert !StartsWith(local, "66") && !StartsWith(local, "660") && !StartsWith(local, "+") by {
      assert "66"[0] == '6' && "660"[0] == '6' && "+"[0] == '+';
    }
  }

  lemma NormalIsTrimmed(value: string)
    ensures Trimmed(NormalizeThaiPhoneToLocal(value))
  {
    var subscriber := GetThaiSubscriber(Trim(value));
    SubscriberIsDigits(Trim(value));
    assert |subscriber| == 9 ==> ("0" + subscriber)[9] == subscriber[8];
  }

  /** Normalising twice is normalising once, on every string. */
  lemma {:induction false} NormalizeIsIdempotent(value: string)
    ensures NormalizeThaiPhoneToLocal(NormalizeThaiPhoneToLocal(value)) == NormalizeThaiPhoneToLocal(value)
  {
    hide Digits, SliceNine, GetThaiSubscriber;
    var trimmed := Trim(value);
    var subscriber := GetThaiSubscriber(trimmed);
    SubscriberIsDigits(trimmed);
    if |subscriber| == 9 {
      LocalIsNormal(subscriber);
    }
  }

  lemma {:induction false} DigitsConcat(a: string, b: string)
    ensures Digits(a + b) == Digits(a) + Digits(b)
  {
    if a == "" {
      assert a + b == b;
    } else {
      assert (a + b)[1..] == a[1..] + b;
      DigitsConcat(a[1..], b);
    }
  }

  /** A character between others counts when it is a digit, and only then. */
  lemma DigitsAre(a: string, c: char, b: string)
    ensures Digits(a + ([c] + b)) == Digits(a) + ((if IsDigit(c) then [c] else []) + Digits(b))
  {
    DigitsConcat(a, [c] + b);
    assert ([c] + b)[1..] == b;
  }

  /** A number of another country is kept as typed, white space around it taken off. */
  lemma ForeignNumberIsKept(value: string)
    requires var t := Trim(value); t != "" && t[0] == '+' && !(|t| >= 3 && t[1] == '6' && t[2] == '6')
    ensures NormalizeThaiPhoneToLocal(value) == Trim(value)
  {
    assert "+66"[1] == '6' && "+66"[2] == '6';
  }

  /**
   * Nine subscriber digits without a leading zero have one normal form in every accepted
   * format, whatever separators stand between them; further digits are cut off.
   */
  lemma AcceptedFormatsAgree(value: string, prefix: string, x: string, rest: string)
    requires Digits(Trim(value)) == prefix + (x + rest) && |x| == 9 && x[0] != '0'
    requires prefix == "0" || prefix == "66" || prefix == "660" || (prefix == "" && !(x[0] == '6' && x[1] == '6'))
    requires Trim(value)[0] == '+' ==> StartsWith(Trim(value), "+66")
    ensures NormalizeThaiPhoneToLocal(value) == "0" + x
  {
    hide Digits, Trim;
    PrefixIsRead(Digits(Trim(value)), prefix, x, rest);
    assert StartsWith(Trim(value), "+") ==> Trim(value)[0] == "+"[0];
  }

  lemma PrefixIsRead(d: string, prefix: string, x: string, rest: string)
    requires d == prefix + (x + rest) && |x| == 9 && x[0] != '0'
    requires prefix == "0" || prefix == "66" || prefix == "660" || (prefix == "" && !(x[0] == '6' && x[1] == '6'))
    ensures SubscriberStart(d) == |prefix| && SliceNine(d, |prefix|) == x
  {
    assert forall i :: 0 <= i < |prefix| ==> d[i] == prefix[i];
    assert forall i :: 0 <= i < 9 ==> d[|prefix| + i] == x[i];
    assert "660"[..2] == "66" && "66"[0] == '6' && "66"[1] == '6' && "0"[0] == '0' && "660"[2] == '0';
    assert StartsWith(d, "660") ==> d[0] == "660"[0] && d[1] == "660"[1] && d[2] == "660"[2];
    assert StartsWith(d, "66") ==> d[0] == "66"[0] && d[1] == "66"[1];
    assert StartsWith(d, "0") ==> d[0] == "0"[0];
    assert prefix == "660" ==> d[..3] == "660";
    assert prefix == "66" ==> d[..2] == "66";
    assert prefix == "0" ==> d[..1] == "0";
  }

  /** With fewer than nine subscriber digits nothing is rewritten. */
  lemma ShortNumberIsKept(value: string)
    requires |Digits(Trim(value))| < 9
    ensures NormalizeThaiPhoneToLocal(value) == Trim(value)
  {
    hide Digits, Trim;
  }

  /** The older `+66` form of a local number. */
  function Legacy(local: string): string
    requires local != ""
  {
    "+66" + local[1..]
  }

  /** `guestPhoneLookupValues` */
  function GuestPhoneLookupValues(value: string): set<string> {
    var local := NormalizeThaiPhoneToLocal(Trim(value));
    (if local == "" then {} else {local})
    + (if StartsWith(local, "0") && |local| == 10 then {Legacy(local)} else {})
  }

  lemma TrimFirst(value: string)
    ensures NormalizeThaiPhoneToLocal(Trim(value)) == NormalizeThaiPhoneToLocal(value)
  {
  }

  /** A lookup searches for the local form and at most one other text. */
  lemma {:induction false} LookupForms(value: string)
    ensures forall p :: p in GuestPhoneLookupValues(value) ==>
              NormalizeThaiPhoneToLocal(value) != ""
              && (p == NormalizeThaiPhoneToLocal(value) || p == Legacy(NormalizeThaiPhoneToLocal(value)))
  {
    hide Digits, Trim, GetThaiSubscriber;
    TrimFirst(value);
  }

  /** What may be in the phone column: normal forms, and `+66` forms that normalise to local ones. */
  predicate Stored(phone: string) {
    || NormalizeThaiPhoneToLocal(phone) == phone
    || (var local := NormalizeThaiPhoneToLocal(phone);
        StartsWith(local, "0") && |local| == 10 && phone == Legacy(local))
  }

  /** No stored phone with the same normal form is missed by a lookup. */
  lemma {:induction false} LookupIsComplete(stored: string, value: string)
    requires Stored(stored) && NormalizeThaiPhoneToLocal(stored) == NormalizeThaiPhoneToLocal(value) != ""
    ensures stored in GuestPhoneLookupValues(value)
  {
    TrimFirst(value);
  }

  /** The digits of `+66` followed by nine more characters. */
  lemma LegacyDigits(x: string)
    requires |x| == 9
    ensures Digits("+66" + x) == "66" + Digits(x)
  {
    var s := "+66" + x;
    assert s[1..] == "66" + x && ("66" + x)[1..] == "6" + x && ("6" + x)[1..] == x;
    assert Digits(s) == Digits("66" + x);
    assert Digits("66" + x) == "6" + Digits("6" + x);
    assert Digits("6" + x) == "6" + Digits(x);
  }

  /** The nine digits found in a legacy form are all of its characters unless one is no digit or a zero leads. */
  lemma LegacySubscriber(x: string)
    requires |x| == 9
    ensures AllDigits(x) && x[0] != '0' ==> GetThaiSubscriber("+66" + x) == x
    ensures !(AllDigits(x) && x[0] != '0') ==> |GetThaiSubscriber("+66" + x)| < 9
  {
    var d := "66" + Digits(x);
    LegacyDigits(x);
    assert d[0] == '6' && d[1] == '6' && d[2..] == Digits(x);
    assert StartsWith(d, "66");
    assert "660"[2] == '0';
    assert StartsWith(d, "660") ==> d[2] == "660"[2];
    if |d| > 2 && d[2] == '0' {
      assert d[..3] == "660";
      assert d[2] == Digits(x)[0];
    }
  }

  /**
   * A lookup value has the same normal form exactly when it is the local number itself
   * or the local number is ten digits without a second leading zero.
   */
  lemma {:induction false} LookupIsSoundIff(value: string)
    ensures forall p :: p in GuestPhoneLookupValues(value) ==>
              (NormalizeThaiPhoneToLocal(p) == NormalizeThaiPhoneToLocal(value)
               <==> p == NormalizeThaiPhoneToLocal(value) || PlainLocal(NormalizeThaiPhoneToLocal(value)))
  {
    hide Digits, Trim, GetThaiSubscriber, NormalizeThaiPhoneToLocal;
    TrimFirst(value);
    NormalizeIsIdempotent(value);
    NormalIsTrimmed(value);
    var local := NormalizeThaiPhoneToLocal(value);
    if StartsWith(local, "0") && |local| == 10 {
      LegacyNormal(local);
    }
  }

  /** Ten digits, the second of them no zero. */
  predicate PlainLocal(local: string) {
    |local| == 10 && AllDigits(local[1..]) && local[1] != '0'
  }

  lemma {:induction false} LegacyNormal(local: string)
    requires |local| == 10 && local[0] == '0' && Trimmed(local)
    ensures NormalizeThaiPhoneToLocal(Legacy(local))
         == if AllDigits(local[1..]) && local[1] != '0' then local else Legacy(local)
  {
    var x, p := local[1..], Legacy(local);
    assert p[0] == '+' && p[|p| - 1] == local[9];
    assert Trim(p) == p;
    assert p[..3] == "+66" && StartsWith(p, "+66");
    LegacySubscriber(x);
    assert "0" + x == local;
  }

  /** Looking up one number finds a row that holds another: it normalises to itself. */
  lemma {:induction false} AnotherNumberIsFound()
    ensures var typed, stored := "0012345678", "+66012345678";
            && Stored(stored) && stored in GuestPhoneLookupValues(typed)
            && NormalizeThaiPhoneToLocal(stored) != NormalizeThaiPhoneToLocal(typed)
  {
    hide Digits, GetThaiSubscriber, Trim;
    var typed, x := "0012345678", "012345678";
    assert AllDigits(x) && typed == "0" + x;
    LocalIsNormal(x);
    TrimFirst(typed);
    assert typed[1..] == x && Legacy(typed) == "+66" + x == "+66012345678";
    hide NormalizeThaiPhoneToLocal;
    assert Trimmed(typed);
    LegacyNormal(typed);
  }
}

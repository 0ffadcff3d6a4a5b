// The character classes and string helpers that the repository's regular
// expressions and `String.prototype` calls rely on.
module Text {

  /** ECMAScript `\s`: WhiteSpace and LineTerminator code points. */
  predicate IsSpace(c: char) {
    var n := c as int;
    || 9 <= n <= 13
    || n == 0x20 || n == 0xA0 || n == 0x1680
    || 0x2000 <= n <= 0x200A
    || n == 0x2028 || n == 0x2029 || n == 0x202F || n == 0x205F
    || n == 0x3000 || n == 0xFEFF
  }

  predicate IsLetter(c: char) {
    'a' <= c <= 'z' || 'A' <= c <= 'Z'
  }

  predicate IsDigit(c: char) {
    '0' <= c <= '9'
  }

  predicate IsNameChar(c: char) {
    IsLetter(c) || IsDigit(c) || c == '_'
  }

  /** `s[i..j]` is white space. */
  predicate SpacesIn(s: string, i: nat, j: nat)
    requires j <= |s|
  {
    forall k :: i <= k < j ==> IsSpace(s[k])
  }

  /** `s[i..j]` is `[a-zA-Z][a-zA-Z0-9_]*`. */
  predicate NameIn(s: string, i: nat, j: nat)
    requires j <= |s|
  {
    i < j && IsLetter(s[i]) && forall k :: i <= k < j ==> IsNameChar(s[k])
  }

  /** Where a greedy `\\s*` that starts at `i` stops. */
  function SpaceEnd(s: string, i: nat): (j: nat)
    requires i <= |s|
    ensures i <= j <= |s| && SpacesIn(s, i, j) && (j < |s| ==> !IsSpace(s[j]))
    decreases |s| - i
  {
    if i == |s| || !IsSpace(s[i]) then i else SpaceEnd(s, i + 1)
  }

  /** Where a greedy `[a-zA-Z0-9_]*` that starts at `i` stops. */
  function NameEnd(s: string, i: nat): (j: nat)
    requires i <= |s|
    ensures i <= j <= |s| && (forall k :: i <= k < j ==> IsNameChar(s[k])) && (j < |s| ==> !IsNameChar(s[j]))
    decreases |s| - i
  {
    if i == |s| || !IsNameChar(s[i]) then i else NameEnd(s, i + 1)
  }

  /** The characters that end a run in a placeholder belong to no run. */
  lemma ClassesAreDisjoint(c: char)
    ensures IsSpace(c) ==> !IsNameChar(c) && c != '{' && c != '}'
    ensures IsNameChar(c) ==> c != '{' && c != '}'
    ensures IsLetter(c) ==> IsNameChar(c)
  {
  }

  /** `String.prototype.trim` */
  function Trim(s: string): (t: string)
    ensures |t| <= |s|
    ensures t == "" || (!IsSpace(t[0]) && !IsSpace(t[|t| - 1]))
    ensures (s == "" || (!IsSpace(s[0]) && !IsSpace(s[|s| - 1]))) ==> t == s
  {
    if s == "" then s
    else if IsSpace(s[0]) then Trim(s[1..])
    else if IsSpace(s[|s| - 1]) then Trim(s[..|s| - 1])
    else s
  }

  /** Trimming takes off white space at both ends and nothing else. */
  lemma {:induction false} TrimIs(s: string) returns (i: nat, j: nat)
    ensures i <= j <= |s| && Trim(s) == s[i..j] && SpacesIn(s, 0, i) && SpacesIn(s, j, |s|)
    ensures i < j ==> !IsSpace(s[i]) && !IsSpace(s[j - 1])
  {
    hide IsSpace;
    if s == "" {
      i, j := 0, 0;
    } else if IsSpace(s[0]) {
      var u := s[1..];
      i, j := TrimIs(u);
      assert u[i..j] == s[i + 1..j + 1];
      assert forall k :: 0 < k < |s| ==> s[k] == u[k - 1];
      i, j := i + 1, j + 1;
    } else if IsSpace(s[|s| - 1]) {
      var u := s[..|s| - 1];
      i, j := TrimIs(u);
      assert u[i..j] == s[i..j];
      assert forall k :: 0 <= k < |u| ==> s[k] == u[k];
    } else {
      i, j := 0, |s|;
    }
  }

  predicate StartsWith(s: string, prefix: string) {
    prefix <= s
  }

  /** `c` appears nowhere in `s`. */
  predicate Lacks(s: string, c: char) {
    forall i :: 0 <= i < |s| ==> s[i] != c
  }

  lemma LacksConcat(s: string, t: string, c: char)
    ensures Lacks(s + t, c) <==> Lacks(s, c) && Lacks(t, c)
  {
    if Lacks(s + t, c) {
      assert forall i :: 0 <= i < |s| ==> (s + t)[i] == s[i];
      assert forall i :: 0 <= i < |t| ==> (s + t)[|s| + i] == t[i];
    }
  }

  /** Three copies of `c` in a row appear nowhere in `s`. */
  predicate NoTriple(s: string, c: char) {
    forall i :: 0 <= i && i + 2 < |s| ==> !(s[i] == c && s[i + 1] == c && s[i + 2] == c)
  }

  function PowerOfTwo(n: nat): nat {
    if n == 0 then 1 else 2 * PowerOfTwo(n - 1)
  }

  /** The bits of a code point that `k` bytes of UTF-8 have room for (section 3 of RFC 3629). */
  function PayloadBits(k: nat): nat {
    if k == 1 then 7 else 5 * k + 1
  }

  /** UTF-8 writes each code point in the fewest bytes that have room for it, one after the other. */
  lemma {:induction false} Utf8LengthIs(s: string, t: string, c: char, k: nat)
    requires 1 <= k <= 4 && (c as int) < PowerOfTwo(PayloadBits(k))
    requires k > 1 ==> (c as int) >= PowerOfTwo(PayloadBits(k - 1))
    ensures Utf8Length(s + ([c] + t)) == Utf8Length(s) + k + Utf8Length(t)
  {
    if s == "" {
      Powers();
      assert s + ([c] + t) == [c] + t && ([c] + t)[1..] == t;
    } else {
      assert (s + ([c] + t))[1..] == s[1..] + ([c] + t);
      Utf8LengthIs(s[1..], t, c, k);
    }
  }

  lemma Powers()
    ensures PowerOfTwo(7) == 0x80 && PowerOfTwo(11) == 0x800 && PowerOfTwo(16) == 0x10000 && PowerOfTwo(21) == 0x200000
  {
    assert PowerOfTwo(7) == 128;
    assert PowerOfTwo(11) == 16 * PowerOfTwo(7);
    assert PowerOfTwo(16) == 32 * PowerOfTwo(11);
    assert PowerOfTwo(21) == 32 * PowerOfTwo(16);
  }

  /** The UTF-8 length that `Buffer.byteLength` reports. */
  function Utf8Length(s: string): nat {
    if s == "" then 0
    else
      var n := s[0] as int;
      (if n < 0x80 then 1 else if n < 0x800 then 2 else if n < 0x10000 then 3 else 4) + Utf8Length(s[1..])
  }
}

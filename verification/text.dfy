/** The string helpers of src/big-commit-.ts: JavaScript's view of a string as UTF-16
    code units, `sanitizeInput` and `isValidEmail`. */
module Text {
  import opened Wrappers
  import Seqs

  /** The UTF-16 code units of one character, as `charCodeAt` reports them: one unit
      below U+10000, a surrogate pair above. */
  function CharUnits(c: char): (r: seq<int>)
    ensures 1 <= |r| <= 2
    ensures forall k :: 0 <= k < |r| ==> 0 <= r[k] < 0x1_0000
    ensures |r| == 1 <==> (c as int) < 0x1_0000
    ensures |r| == 1 ==> r[0] == c as int
    ensures |r| == 2 ==> 0xD800 <= r[0] < 0xDC00 <= r[1] < 0xE000
    ensures |r| == 2 ==> 0x1_0000 + (r[0] - 0xD800) * 0x400 + (r[1] - 0xDC00) == c as int
  {
    var code := c as int;
    if code < 0x1_0000 then [code]
    else
      var v := code - 0x1_0000;
      [0xD800 + v / 0x400, 0xDC00 + v % 0x400]
  }

  /** The UTF-16 code units of a string, in order. */
  function Utf16(s: string): (r: seq<int>)
    ensures |r| >= |s|
    ensures forall k :: 0 <= k < |r| ==> 0 <= r[k] < 0x1_0000
  {
    if s == [] then [] else CharUnits(s[0]) + Utf16(s[1..])
  }

  /** JavaScript's `length` of a string: its number of UTF-16 code units. */
  function JsLength(s: string): nat
  {
    |Utf16(s)|
  }

  /** A string of characters all below U+10000 has one code unit per character. */
  lemma {:induction false} Utf16OfBasicPlane(s: string)
    requires forall i :: 0 <= i < |s| ==> (s[i] as int) < 0x1_0000
    ensures JsLength(s) == |s|
    ensures forall i :: 0 <= i < |s| ==> Utf16(s)[i] == s[i] as int
  {
    if s != [] {
      Utf16OfBasicPlane(s[1..]);
    }
  }

  // ---------------------------------------------------------------- sanitizeInput

  /** A character that `sanitizeInput` keeps: anything but an angle bracket. */
  predicate Kept(c: char)
  {
    c != '<' && c != '>'
  }

  /** `input.replace(/[<>]/g, '')`: every '<' and '>' deleted, the rest in order. */
  function SanitizeInput(input: string): (r: string)
    ensures '<' !in r && '>' !in r
    ensures |r| <= |input|
    ensures forall i :: 0 <= i < |input| ==> (input[i] in r <==> Kept(input[i]))
    ensures forall c :: multiset(r)[c] == if Kept(c) then multiset(input)[c] else 0
  {
    Seqs.FilterMultiset(Kept, input);
    Seqs.Filter(Kept, input)
  }

  /** One character: a bracket becomes nothing, anything else stays. */
  lemma SanitizeChar(c: char)
    ensures SanitizeInput([c]) == if Kept(c) then [c] else []
  {
  }

  /** Deleting a bracket: it contributes nothing to the result. */
  lemma SanitizeDeletes(a: string, c: char, b: string)
    requires !Kept(c)
    ensures SanitizeInput(a + [c] + b) == SanitizeInput(a) + SanitizeInput(b)
  {
    var ac := a + [c];
    Seqs.FilterAppend(Kept, ac, b);
    Seqs.FilterAppend(Kept, a, [c]);
    Seqs.FilterSingleton(Kept, c);
    assert Seqs.Filter(Kept, ac) == Seqs.Filter(Kept, a);
  }

  /** Sanitizing works piece by piece: the kept characters stay in their order. */
  lemma SanitizeAppend(a: string, b: string)
    ensures SanitizeInput(a + b) == SanitizeInput(a) + SanitizeInput(b)
  {
    Seqs.FilterAppend(Kept, a, b);
  }

  /** Sanitizing a sanitized string changes nothing. */
  lemma SanitizeIdempotent(input: string)
    ensures SanitizeInput(SanitizeInput(input)) == SanitizeInput(input)
  {
    Seqs.FilterIdempotent(Kept, input);
  }

  /** A string is left as it is exactly when it holds no angle bracket. */
  lemma SanitizeFixesExactly(input: string)
    ensures SanitizeInput(input) == input <==> '<' !in input && '>' !in input
  {
    Seqs.FilterIsIdentityIff(Kept, input);
  }

  // ---------------------------------------------------------------- isValidEmail

  /** The characters JavaScript's regular-expression class `\s` matches. */
  predicate IsWhitespace(c: char)
  {
    c == '\t' || c == '\n' || c == '\U{000B}' || c == '\U{000C}' || c == '\r' || c == ' '
    || c == '\U{00A0}' || c == '\U{1680}' || ('\U{2000}' <= c <= '\U{200A}')
    || c == '\U{2028}' || c == '\U{2029}' || c == '\U{202F}' || c == '\U{205F}'
    || c == '\U{3000}' || c == '\U{FEFF}'
  }

  /** A character matched by `[^\s@]`. */
  predicate PartChar(c: char)
  {
    !IsWhitespace(c) && c != '@'
  }

  /** No character of `s` is matched by `\s`. */
  predicate NoWhitespace(s: string)
  {
    forall k :: 0 <= k < |s| ==> !IsWhitespace(s[k])
  }

  /** A string matched by `[^\s@]+`. */
  predicate IsPart(p: string)
  {
    |p| > 0 && forall i :: 0 <= i < |p| ==> PartChar(p[i])
  }

  /** The language of `^[^\s@]+@[^\s@]+\.[^\s@]+$`: a part, '@', a part, '.', a part. */
  ghost predicate EmailShape(s: string)
  {
    exists i, j :: 0 < i && i + 1 < j && j + 1 < |s| && s[i] == '@' && s[j] == '.'
      && IsPart(s[..i]) && IsPart(s[i + 1..j]) && IsPart(s[j + 1..])
  }

  /** The first position of `c` in `s`, if any. */
  function IndexOf(s: string, c: char): (r: Option<nat>)
    ensures r.None? ==> c !in s
    ensures r.Some? ==> r.value < |s| && s[r.value] == c && c !in s[..r.value]
  {
    if s == [] then None
    else if s[0] == c then Some(0)
    else match IndexOf(s[1..], c)
      case None => None
      case Some(k) =>
        assert s[..k + 1] == [s[0]] + s[1..][..k];
        Some(k + 1)
  }

  /** True when some '.' in `d` is neither its first nor its last character. */
  predicate HasInnerDot(d: string)
  {
    |d| >= 3 && '.' in d[1..|d| - 1]
  }

  /** `isValidEmail`, decided by one scan for the '@' and one for an inner '.'. */
  predicate IsValidEmail(email: string)
  {
    NoWhitespace(email)
    && match IndexOf(email, '@')
       case None => false
       case Some(at) => at > 0 && '@' !in email[at + 1..] && HasInnerDot(email[at + 1..])
  }

  /** The scan accepts exactly the strings the regular expression matches. */
  lemma IsValidEmailIffShape(email: string)
    ensures IsValidEmail(email) <==> EmailShape(email)
  {
    if IsValidEmail(email) {
      ValidEmailHasShape(email);
    }
    if EmailShape(email) {
      ShapedEmailIsValid(email);
    }
  }

  /** An accepted address has at least five characters, holds exactly one '@', which is
      not its first character, and no whitespace. */
  lemma ValidEmailBounds(email: string)
    requires IsValidEmail(email)
    ensures |email| >= 5 && NoWhitespace(email)
    ensures multiset(email)['@'] == 1 && email[0] != '@'
  {
    var at := IndexOf(email, '@').value;
    assert email == email[..at] + [email[at]] + email[at + 1..];
  }

  lemma ValidEmailHasShape(email: string)
    requires IsValidEmail(email)
    ensures EmailShape(email)
  {
    var at := IndexOf(email, '@').value;
    var d := email[at + 1..];
    var m :| 0 <= m < |d| - 2 && d[1..|d| - 1][m] == '.';
    var j := at + 2 + m;
    assert email[j] == '.';
    NoWhitespaceSlice(email, 0, at);
    assert email[..at] == email[0..at];
    PartIff(email[..at]);
    NoWhitespaceSlice(email, at + 1, j);
    NotInSlice(d, '@', 0, m + 1);
    assert email[at + 1..j] == d[0..m + 1];
    PartIff(email[at + 1..j]);
    NoWhitespaceSlice(email, j + 1, |email|);
    NotInSlice(d, '@', m + 2, |d|);
    assert email[j + 1..] == email[j + 1..|email|] == d[m + 2..|d|];
    PartIff(email[j + 1..]);
  }

  lemma ShapedEmailIsValid(email: string)
    requires EmailShape(email)
    ensures IsValidEmail(email)
  {
    var i, j :| 0 < i && i + 1 < j && j + 1 < |email| && email[i] == '@' && email[j] == '.'
      && IsPart(email[..i]) && IsPart(email[i + 1..j]) && IsPart(email[j + 1..]);
    ShapeHasNoWhitespace(email, i, j);
    assert '@' !in email[..i] by {
      PartIff(email[..i]);
    }
    IndexOfFirst(email, '@', i);
    ShapeDomain(email, i, j);
  }

  lemma ShapeHasNoWhitespace(email: string, i: nat, j: nat)
    requires 0 < i && i + 1 < j && j + 1 < |email| && email[i] == '@' && email[j] == '.'
    requires IsPart(email[..i]) && IsPart(email[i + 1..j]) && IsPart(email[j + 1..])
    ensures NoWhitespace(email)
  {
    forall k | 0 <= k < |email| ensures !IsWhitespace(email[k]) {
      ShapeChar(email, i, j, k);
    }
  }

  /** What follows the '@' of a shaped address holds no '@' and an inner '.'. */
  lemma ShapeDomain(email: string, i: nat, j: nat)
    requires 0 < i && i + 1 < j && j + 1 < |email| && email[i] == '@' && email[j] == '.'
    requires IsPart(email[..i]) && IsPart(email[i + 1..j]) && IsPart(email[j + 1..])
    ensures '@' !in email[i + 1..] && HasInnerDot(email[i + 1..])
  {
    var d := email[i + 1..];
    forall k | 0 <= k < |d| ensures d[k] != '@' {
      ShapeChar(email, i, j, i + 1 + k);
    }
    assert d[1..|d| - 1][j - i - 2] == '.';
  }

  /** Every character of a shaped address but its '@' and its '.' lies in a part. */
  lemma ShapeChar(email: string, i: nat, j: nat, k: nat)
    requires 0 < i && i + 1 < j && j + 1 < |email| && email[i] == '@' && email[j] == '.'
    requires IsPart(email[..i]) && IsPart(email[i + 1..j]) && IsPart(email[j + 1..])
    requires k < |email|
    ensures k == i || k == j || PartChar(email[k])
  {
    if k < i {
      assert email[k] == email[..i][k];
    } else if i < k < j {
      assert email[k] == email[i + 1..j][k - i - 1];
    } else if j < k {
      assert email[k] == email[j + 1..][k - j - 1];
    }
  }

  /** A part is a non-empty string with no whitespace and no '@'. */
  lemma PartIff(p: string)
    ensures IsPart(p) <==> |p| > 0 && NoWhitespace(p) && '@' !in p
  {
    if |p| > 0 && NoWhitespace(p) && '@' !in p {
      forall i | 0 <= i < |p| ensures PartChar(p[i]) {
        assert p[i] in p;
      }
    }
  }

  lemma NoWhitespaceSlice(s: string, a: nat, b: nat)
    requires NoWhitespace(s) && a <= b <= |s|
    ensures NoWhitespace(s[a..b])
  {
    forall k | 0 <= k < b - a ensures !IsWhitespace(s[a..b][k]) {
      assert s[a..b][k] == s[a + k];
    }
  }

  lemma NotInSlice(s: string, c: char, a: nat, b: nat)
    requires c !in s && a <= b <= |s|
    ensures c !in s[a..b]
  {
  }

  /** The first occurrence is found when nothing before it matches. */
  lemma IndexOfFirst(s: string, c: char, i: nat)
    requires i < |s| && s[i] == c && c !in s[..i]
    ensures IndexOf(s, c) == Some(i)
  {
  }
}

/** Values shared by every part of the model: optional values, the result of
    JavaScript's `parseInt`, JavaScript truthiness, and the string operations the
    application uses (lower-casing, `startsWith`, `endsWith`, `includes`, and the
    decimal rendering of a number). */
module Values {

  /** A value that may be missing (`undefined` or `null` in the application). */
  datatype Option<T> = None | Some(value: T) {
    function GetOr(default: T): T {
      match this
      case Some(v) => v
      case None => default
    }
  }

  /** What `parseInt` yields: an integer or NaN. */
  datatype Num = Int(value: int) | NaN

  /** JavaScript truthiness of a number: NaN and 0 are falsy. */
  predicate NumTruthy(n: Num) {
    n.Int? && n.value != 0
  }

  /** JavaScript truthiness of an optional number. */
  predicate OptNumTruthy(n: Option<Num>) {
    n.Some? && NumTruthy(n.value)
  }

  /** JavaScript truthiness of an optional string: missing and "" are falsy. */
  predicate StrTruthy(s: Option<string>) {
    s.Some? && s.value != ""
  }

  /** `String.prototype.toLowerCase` on one character (ASCII letters only). */
  function LowerChar(c: char): (r: char)
    ensures 'A' <= c <= 'Z' ==> r != c && 'a' <= r <= 'z'
    ensures !('A' <= c <= 'Z') ==> r == c
  {
    if 'A' <= c <= 'Z' then (c as int + 32) as char else c
  }

  function ToLower(s: string): (r: string)
    ensures |r| == |s|
    ensures forall i :: 0 <= i < |s| ==> r[i] == LowerChar(s[i])
  {
    if s == [] then [] else [LowerChar(s[0])] + ToLower(s[1..])
  }

  predicate StartsWith(s: string, prefix: string) {
    |prefix| <= |s| && s[..|prefix|] == prefix
  }

  predicate EndsWith(s: string, suffix: string) {
    |suffix| <= |s| && s[|s| - |suffix|..] == suffix
  }

  /** `s.includes(sub)`: `sub` occurs somewhere in `s`. */
  predicate Contains(s: string, sub: string)
    decreases |s|
  {
    StartsWith(s, sub) || (s != [] && Contains(s[1..], sub))
  }

  /** `s.toLowerCase().includes(q.toLowerCase())`. */
  predicate ContainsIgnoreCase(s: string, q: string) {
    Contains(ToLower(s), ToLower(q))
  }

  /** `Contains` means there is a position at which `sub` occurs. */
  lemma {:induction false} ContainsAt(s: string, sub: string)
    ensures Contains(s, sub) <==> exists i :: 0 <= i <= |s| - |sub| && s[i..][..|sub|] == sub
  {
    assert s[0..] == s;
    if s != [] {
      ContainsAt(s[1..], sub);
      if Contains(s[1..], sub) {
        var i :| 0 <= i <= |s[1..]| - |sub| && s[1..][i..][..|sub|] == sub;
        assert s[i + 1..] == s[1..][i..];
      }
      if i :| 0 <= i <= |s| - |sub| && s[i..][..|sub|] == sub {
        if i > 0 {
          assert s[1..][i - 1..] == s[i..];
        }
      }
    }
  }

  /** The empty string occurs in every string, so an empty search term keeps everything. */
  lemma EmptyTermMatchesAll(s: string)
    ensures ContainsIgnoreCase(s, "")
  {
  }

  /** Matching ignores case: upper-casing letters of the query does not change the outcome. */
  lemma ContainsIgnoreCaseLowerQuery(s: string, q: string)
    ensures ContainsIgnoreCase(s, ToLower(q)) == ContainsIgnoreCase(s, q)
  {
    assert ToLower(ToLower(q)) == ToLower(q);
  }

  predicate IsDigit(c: char) {
    '0' <= c <= '9'
  }

  /** The decimal rendering of a non-negative integer, as template strings print it. */
  function NatToDecimal(n: nat): (r: string)
    ensures r != []
    ensures forall i :: 0 <= i < |r| ==> IsDigit(r[i])
    ensures n >= 10 ==> |r| >= 2
  {
    if n < 10 then [('0' as int + n) as char]
    else NatToDecimal(n / 10) + [('0' as int + n % 10) as char]
  }

  /** Distinct numbers print differently. */
  lemma {:induction false} NatToDecimalInjective(a: nat, b: nat)
    requires NatToDecimal(a) == NatToDecimal(b)
    ensures a == b
  {
    var ra, rb := NatToDecimal(a), NatToDecimal(b);
    if a >= 10 && b >= 10 {
      assert ra[..|ra| - 1] == NatToDecimal(a / 10);
      assert rb[..|rb| - 1] == NatToDecimal(b / 10);
      NatToDecimalInjective(a / 10, b / 10);
      assert ra[|ra| - 1] == rb[|rb| - 1];
    } else {
      assert ra[0] == rb[0];
    }
  }

  /** A digit string followed by '-' and a tail splits uniquely: the first '-' ends the digits. */
  lemma DigitsDashUnique(d1: string, t1: string, d2: string, t2: string)
    requires forall i :: 0 <= i < |d1| ==> IsDigit(d1[i])
    requires forall i :: 0 <= i < |d2| ==> IsDigit(d2[i])
    requires d1 + "-" + t1 == d2 + "-" + t2
    ensures d1 == d2 && t1 == t2
  {
    var s1, s2 := d1 + "-" + t1, d2 + "-" + t2;
    assert s1[|d1|] == '-' && s2[|d2|] == '-';
    assert d1 == s1[..|d1|] && d2 == s2[..|d2|];
    assert t1 == s1[|d1| + 1..] && t2 == s2[|d2| + 1..];
  }

  /** A character outside the Basic Multilingual Plane, which UTF-16 stores as a
      surrogate pair. */
  predicate Astral(c: char) {
    c as int >= 0x1_0000
  }

  /** JavaScript's `length`: the number of UTF-16 code units, one per character of the
      Basic Multilingual Plane and two per astral character. */
  function Utf16Length(s: string): (n: nat)
    ensures n == 0 <==> s == []
    ensures |s| <= n <= 2 * |s|
    decreases |s|
  {
    if s == [] then 0 else Utf16Length(s[..|s| - 1]) + (if Astral(s[|s| - 1]) then 2 else 1)
  }

  /** On text without astral characters JavaScript's length is the character count. */
  lemma {:induction false} Utf16LengthOfBmp(s: string)
    requires forall i :: 0 <= i < |s| ==> !Astral(s[i])
    ensures Utf16Length(s) == |s|
    decreases |s|
  {
    if s != [] {
      Utf16LengthOfBmp(s[..|s| - 1]);
    }
  }

  /** A single astral character already has length 2. */
  lemma Utf16LengthOfAstral(c: char)
    requires Astral(c)
    ensures Utf16Length([c]) == 2
  {
    assert [c][..0] == [];
  }
}

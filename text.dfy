/** The handful of Python and JavaScript string primitives the logbook relies on:
    `str.strip()`, `str.endswith`, `str(int)` and `String.prototype.toLowerCase`,
    `includes` and `split(...)[0]`. */
module Text {

  /** Python's `str.isspace()` for one character: the ASCII controls TAB..CR,
      the separators FS..US, SPACE, NEL, NO-BREAK SPACE and the Unicode space
      separators and line/paragraph separators. */
  predicate IsSpace(c: char)
  {
    || ('\t' <= c <= '\r')
    || ('\U{001C}' <= c <= '\U{001F}')
    || c == ' ' || c == '\U{0085}' || c == '\U{00A0}' || c == '\U{1680}'
    || ('\U{2000}' <= c <= '\U{200A}')
    || c == '\U{2028}' || c == '\U{2029}' || c == '\U{202F}' || c == '\U{205F}'
    || c == '\U{3000}'
  }

  predicate AllSpace(s: string)
  {
    forall i :: 0 <= i < |s| ==> IsSpace(s[i])
  }

  /** Leading whitespace removed. */
  function StripLeft(s: string): string
  {
    if s != [] && IsSpace(s[0]) then StripLeft(s[1..]) else s
  }

  /** Trailing whitespace removed. */
  function StripRight(s: string): string
  {
    if s != [] && IsSpace(s[|s| - 1]) then StripRight(s[..|s| - 1]) else s
  }

  /** What `StripLeft` drops is all whitespace and what it keeps is a suffix
      that does not start with whitespace. */
  lemma {:induction false} StripLeftShape(s: string)
    ensures |StripLeft(s)| <= |s| && StripLeft(s) == s[|s| - |StripLeft(s)|..]
    ensures AllSpace(s[..|s| - |StripLeft(s)|])
    ensures StripLeft(s) == [] || !IsSpace(StripLeft(s)[0])
  {
    if s != [] && IsSpace(s[0]) {
      StripLeftShape(s[1..]);
      var k := |s| - |StripLeft(s)|;
      assert s[..k] == [s[0]] + s[1..][..k - 1];
    }
  }

  /** What `StripRight` drops is all whitespace and what it keeps is a prefix
      that does not end with whitespace. */
  lemma {:induction false} StripRightShape(s: string)
    ensures |StripRight(s)| <= |s| && StripRight(s) == s[..|StripRight(s)|]
    ensures AllSpace(s[|StripRight(s)|..])
    ensures StripRight(s) == [] || !IsSpace(StripRight(s)[|StripRight(s)| - 1])
  {
    if s != [] && IsSpace(s[|s| - 1]) {
      StripRightShape(s[..|s| - 1]);
      var k := |StripRight(s)|;
      assert s[k..] == s[..|s| - 1][k..] + [s[|s| - 1]];
    }
  }

  /** Python's `str.strip()` with no argument. */
  function Strip(s: string): (r: string)
  {
    StripRight(StripLeft(s))
  }

  /** Trimming the end of a text that starts with a non-space leaves it non-empty. */
  lemma {:induction false} StripRightKeepsHead(l: string)
    requires l != [] && !IsSpace(l[0])
    ensures StripRight(l) != [] && StripRight(l)[0] == l[0]
  {
    if IsSpace(l[|l| - 1]) {
      StripRightKeepsHead(l[..|l| - 1]);
    }
  }

  /** The stripped text is the middle `s[lo..hi]` of the input with only
      whitespace on either side, and it neither starts nor ends with whitespace. */
  lemma StripShape(s: string) returns (lo: nat, hi: nat)
    ensures lo <= hi <= |s| && Strip(s) == s[lo..hi]
    ensures AllSpace(s[..lo]) && AllSpace(s[hi..])
    ensures Strip(s) == [] || (!IsSpace(Strip(s)[0]) && !IsSpace(Strip(s)[|Strip(s)| - 1]))
  {
    var l := StripLeft(s);
    StripLeftShape(s);
    lo := |s| - |l|;
    var r := StripRight(l);
    StripRightShape(l);
    hi := lo + |r|;
    assert s[hi..] == l[|r|..];
    if l != [] {
      StripRightKeepsHead(l);
    }
  }

  /** `s.strip()` is empty exactly when `s` is all whitespace: this is the test
      behind "blank" in the roster import. */
  lemma StripEmptyIffAllSpace(s: string)
    ensures Strip(s) == [] <==> AllSpace(s)
  {
    var l := StripLeft(s);
    StripLeftShape(s);
    if l == [] {
      assert s[..|s|] == s;
    } else {
      assert !IsSpace(s[|s| - |l|]);
      StripRightKeepsHead(l);
    }
  }

  /** Stripping twice is stripping once. */
  lemma StripIdempotent(s: string)
    ensures Strip(Strip(s)) == Strip(s)
  {
    var lo, hi := StripShape(s);
    var r := Strip(s);
    if r != [] {
      assert StripLeft(r) == r;
      assert StripRight(r) == r;
    }
  }

  /** `s.endswith(suffix)`. */
  predicate EndsWith(s: string, suffix: string)
  {
    |suffix| <= |s| && s[|s| - |suffix|..] == suffix
  }

  lemma EndsWithIffConcat(s: string, suffix: string)
    ensures EndsWith(s, suffix) <==> exists stem :: s == stem + suffix
  {
    if EndsWith(s, suffix) {
      assert s == s[..|s| - |suffix|] + suffix;
    }
  }

  /** JavaScript `toLowerCase` on one character, over the ASCII letters. */
  function LowerChar(c: char): char
  {
    if 'A' <= c <= 'Z' then (c as int + 32) as char else c
  }

  function ToLower(s: string): (r: string)
    ensures |r| == |s|
  {
    if s == [] then [] else [LowerChar(s[0])] + ToLower(s[1..])
  }

  /** Lower-casing works character by character, leaves no upper-case ASCII
      letter behind and is idempotent. */
  lemma {:induction false} ToLowerAt(s: string, i: nat)
    requires i < |s|
    ensures ToLower(s)[i] == LowerChar(s[i])
    ensures !('A' <= ToLower(s)[i] <= 'Z')
  {
    if i > 0 {
      ToLowerAt(s[1..], i - 1);
    }
  }

  lemma ToLowerIdempotent(s: string)
    ensures ToLower(ToLower(s)) == ToLower(s)
  {
    forall i | 0 <= i < |s|
      ensures ToLower(ToLower(s))[i] == ToLower(s)[i]
    {
      ToLowerAt(s, i);
      ToLowerAt(ToLower(s), i);
    }
  }

  lemma {:induction false} ToLowerSlice(s: string, lo: nat, hi: nat)
    requires lo <= hi <= |s|
    ensures ToLower(s[lo..hi]) == ToLower(s)[lo..hi]
  {
    forall i | 0 <= i < hi - lo
      ensures ToLower(s[lo..hi])[i] == ToLower(s)[lo..hi][i]
    {
      ToLowerAt(s[lo..hi], i);
      ToLowerAt(s, lo + i);
    }
  }

  /** `s` contains `q` at offset `at`. */
  predicate OccursAt(s: string, q: string, at: int)
  {
    0 <= at && at + |q| <= |s| && s[at..at + |q|] == q
  }

  /** JavaScript `s.includes(q)`, scanning the offsets left to right. */
  function Includes(s: string, q: string): (b: bool)
    decreases |s|
  {
    if |q| > |s| then false
    else if s[..|q|] == q then true
    else Includes(s[1..], q)
  }

  /** The scan agrees with the definition of a substring. */
  lemma {:induction false} IncludesIffOccurs(s: string, q: string)
    ensures Includes(s, q) <==> exists at :: OccursAt(s, q, at)
    decreases |s|
  {
    if |q| > |s| {
    } else if s[..|q|] == q {
      assert OccursAt(s, q, 0);
    } else {
      IncludesIffOccurs(s[1..], q);
      if exists at :: OccursAt(s[1..], q, at) {
        var at :| OccursAt(s[1..], q, at);
        assert s[at + 1..at + 1 + |q|] == s[1..][at..at + |q|];
        assert OccursAt(s, q, at + 1);
      }
      if exists at :: OccursAt(s, q, at) {
        var at :| OccursAt(s, q, at);
        assert at != 0;
        assert s[1..][at - 1..at - 1 + |q|] == s[at..at + |q|];
        assert OccursAt(s[1..], q, at - 1);
      }
    }
  }

  /** Every string includes the empty string, and itself. */
  lemma IncludesEmptyAndSelf(s: string)
    ensures Includes(s, []) && Includes(s, s)
  {
    assert OccursAt(s, [], 0);
    assert OccursAt(s, s, 0);
    IncludesIffOccurs(s, []);
    IncludesIffOccurs(s, s);
  }

  /** A case-sensitive match is also a case-insensitive one. */
  lemma IncludesLowered(s: string, q: string)
    requires Includes(s, q)
    ensures Includes(ToLower(s), ToLower(q))
  {
    IncludesIffOccurs(s, q);
    var at :| OccursAt(s, q, at);
    OccursLowered(s, q, at);
    IncludesIffOccurs(ToLower(s), ToLower(q));
  }

  lemma OccursLowered(s: string, q: string, at: int)
    requires OccursAt(s, q, at)
    ensures OccursAt(ToLower(s), ToLower(q), at)
  {
    ToLowerSlice(s, at, at + |q|);
  }

  /** JavaScript `s.split(sep)[0]`: the text before the first `sep`, or all of
      `s` when there is none. */
  function BeforeFirst(s: string, sep: char): (r: string)
    ensures |r| <= |s| && r == s[..|r|]
    ensures sep !in r
    ensures |r| < |s| ==> s[|r|] == sep
  {
    if s == [] || s[0] == sep then [] else [s[0]] + BeforeFirst(s[1..], sep)
  }

  /** The text before the first separator is recovered exactly. */
  lemma {:induction false} BeforeFirstOfConcat(prefix: string, sep: char, rest: string)
    requires sep !in prefix
    ensures BeforeFirst(prefix + [sep] + rest, sep) == prefix
  {
    if prefix != [] {
      assert (prefix + [sep] + rest)[1..] == prefix[1..] + [sep] + rest;
      BeforeFirstOfConcat(prefix[1..], sep, rest);
    }
  }

  function DigitChar(d: nat): char
    requires d < 10
  {
    ('0' as int + d) as char
  }

  function DigitValue(c: char): nat
  {
    if '0' <= c <= '9' then c as int - '0' as int else 0
  }

  predicate IsDigit(c: char)
  {
    '0' <= c <= '9'
  }

  /** Python `str(n)` for a non-negative integer: decimal digits, most
      significant first, no leading zero. */
  function NatToString(n: nat): (r: string)
    ensures |r| >= 1
    ensures forall i :: 0 <= i < |r| ==> IsDigit(r[i])
    ensures |r| > 1 ==> r[0] != '0'
  {
    if n < 10 then [DigitChar(n)] else NatToString(n / 10) + [DigitChar(n % 10)]
  }

  /** Reads a string of decimal digits back as a number. */
  function ParseNat(s: string): nat
  {
    if s == [] then 0 else 10 * ParseNat(s[..|s| - 1]) + DigitValue(s[|s| - 1])
  }

  lemma {:induction false} ParseNatToString(n: nat)
    ensures ParseNat(NatToString(n)) == n
  {
    if n >= 10 {
      var p := NatToString(n / 10);
      assert (p + [DigitChar(n % 10)])[..|p|] == p;
      ParseNatToString(n / 10);
    }
  }

  /** Rendering is injective: two ids never print the same. */
  lemma NatToStringInjective(m: nat, n: nat)
    requires NatToString(m) == NatToString(n)
    ensures m == n
  {
    ParseNatToString(m);
    ParseNatToString(n);
  }

  /** The empty text is a right unit of concatenation. */
  lemma RightUnit(a: string)
    ensures a + "" == a
  {
  }

  /** Concatenation regroups freely. Long concatenations are regrouped
      through this lemma rather than by comparing them element by element. */
  lemma Associative<T>(a: seq<T>, b: seq<T>, c: seq<T>)
    ensures a + (b + c) == (a + b) + c
  {
  }
}

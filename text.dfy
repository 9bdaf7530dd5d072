/** The string primitives the inventory pipeline leans on, as JavaScript
    defines them: `trim`, `toLowerCase`/`toUpperCase` (ASCII letters only),
    `replace(/\s+/g, '_')`, the decimal rendering of an index in a template
    string, and `Number(text)` for plain decimal text. */
module Text {

  datatype Option<+T> = None | Some(value: T)

  /** The characters that JavaScript's `trim` strips and that the regular
      expression class `\s` matches: ECMAScript WhiteSpace and LineTerminator. */
  predicate IsSpace(c: char) {
    || c == '\t' || c == '\n' || c == '\U{000B}' || c == '\U{000C}' || c == '\r' || c == ' '
    || c == '\U{00A0}' || c == '\U{1680}' || ('\U{2000}' <= c <= '\U{200A}')
    || c == '\U{2028}' || c == '\U{2029}' || c == '\U{202F}' || c == '\U{205F}'
    || c == '\U{3000}' || c == '\U{FEFF}'
  }

  predicate AllSpace(s: string) {
    forall i :: 0 <= i < |s| ==> IsSpace(s[i])
  }

  predicate NoSpace(s: string) {
    forall i :: 0 <= i < |s| ==> !IsSpace(s[i])
  }

  /** True when `s` has no white space at either end (what `trim` leaves). */
  predicate Trimmed(s: string) {
    s == [] || (!IsSpace(s[0]) && !IsSpace(s[|s| - 1]))
  }

  /** The number of white-space characters `s` starts with. */
  function LeadingSpace(s: string): (k: nat)
    ensures k <= |s|
    ensures forall i :: 0 <= i < k ==> IsSpace(s[i])
    ensures k < |s| ==> !IsSpace(s[k])
  {
    if |s| > 0 && IsSpace(s[0]) then 1 + LeadingSpace(s[1..]) else 0
  }

  /** The index at which the white space that `s` ends with begins. */
  function TrailingSpace(s: string): (k: nat)
    ensures k <= |s|
    ensures forall i :: k <= i < |s| ==> IsSpace(s[i])
    ensures k > 0 ==> !IsSpace(s[k - 1])
  {
    if |s| > 0 && IsSpace(s[|s| - 1]) then TrailingSpace(s[..|s| - 1]) else |s|
  }

  /** `s.trim()`: `s` without its leading and trailing white space. */
  function Trim(s: string): (r: string) {
    var a := s[LeadingSpace(s)..];
    a[..TrailingSpace(a)]
  }

  /** The trimmed text has no space at either end, is empty exactly for
      blank text, and text already trimmed is kept. */
  lemma TrimShape(s: string)
    ensures Trimmed(Trim(s))
    ensures Trim(s) == [] <==> AllSpace(s)
    ensures Trimmed(s) ==> Trim(s) == s
  {
    var a := s[LeadingSpace(s)..];
    var r := a[..TrailingSpace(a)];
    assert r != [] ==> r[0] == a[0];
    assert a == [] ==> AllSpace(s);
    assert Trimmed(s) && s != [] ==> LeadingSpace(s) == 0 && TrailingSpace(s) == |s|;
  }

  /** White space around text is what `trim` removes. */
  lemma TrimPadded(pre: string, s: string, post: string)
    requires AllSpace(pre) && AllSpace(post) && s != [] && !IsSpace(s[0]) && !IsSpace(s[|s| - 1])
    ensures Trim(pre + s + post) == s
  {
    var x := pre + s + post;
    var k := LeadingSpace(x);
    assert x[|pre|] == s[0];
    assert k == |pre|;
    var a := x[k..];
    assert a == s + post;
    var j := TrailingSpace(a);
    assert a[|s| - 1] == s[|s| - 1];
    assert j == |s|;
    assert a[..j] == s;
  }

  function LowerChar(c: char): char {
    if 'A' <= c <= 'Z' then (c as int + 32) as char else c
  }

  function UpperChar(c: char): char {
    if 'a' <= c <= 'z' then (c as int - 32) as char else c
  }

  /** `s.toLowerCase()` on ASCII letters. */
  function ToLower(s: string): (r: string)
    ensures |r| == |s|
  {
    seq(|s|, i requires 0 <= i < |s| => LowerChar(s[i]))
  }

  /** `s.toUpperCase()` on ASCII letters. */
  function ToUpper(s: string): (r: string)
    ensures |r| == |s|
  {
    seq(|s|, i requires 0 <= i < |s| => UpperChar(s[i]))
  }

  /** Lower-casing twice is lower-casing once. */
  lemma ToLowerIdempotent(s: string)
    ensures ToLower(ToLower(s)) == ToLower(s)
  {
    var l := ToLower(s);
    forall i | 0 <= i < |s| ensures ToLower(l)[i] == l[i] {
      assert LowerChar(LowerChar(s[i])) == LowerChar(s[i]);
    }
  }

  /** Trimming upper-cased text leaves text that upper-casing keeps. */
  lemma ToUpperOfTrimToUpper(s: string)
    ensures ToUpper(Trim(ToUpper(s))) == Trim(ToUpper(s))
  {
    var x := ToUpper(s);
    var a := x[LeadingSpace(x)..];
    var t := Trim(x);
    forall i | 0 <= i < |t| ensures ToUpper(t)[i] == t[i] {
      assert t[i] == a[i] == x[LeadingSpace(x) + i];
    }
  }

  /** Case folding never turns a letter into white space or back. */
  lemma LowerKeepsSpace(c: char)
    ensures IsSpace(LowerChar(c)) == IsSpace(c)
  {
  }

  /** Two strings that have white space at the same places start with
      white-space runs of the same length. */
  lemma LeadingSpaceOfSameSpaces(s: string, t: string)
    requires |s| == |t| && forall i :: 0 <= i < |s| ==> IsSpace(s[i]) == IsSpace(t[i])
    ensures LeadingSpace(s) == LeadingSpace(t)
  {
  }

  lemma TrailingSpaceOfSameSpaces(s: string, t: string)
    requires |s| == |t| && forall i :: 0 <= i < |s| ==> IsSpace(s[i]) == IsSpace(t[i])
    ensures TrailingSpace(s) == TrailingSpace(t)
  {
  }

  lemma SameSpacesToLower(s: string)
    ensures forall i :: 0 <= i < |s| ==> IsSpace(ToLower(s)[i]) == IsSpace(s[i])
  {
    forall i | 0 <= i < |s| ensures IsSpace(ToLower(s)[i]) == IsSpace(s[i]) {
      LowerKeepsSpace(s[i]);
    }
  }

  lemma LeadingSpaceToLower(s: string)
    ensures LeadingSpace(ToLower(s)) == LeadingSpace(s)
  {
    SameSpacesToLower(s);
    LeadingSpaceOfSameSpaces(s, ToLower(s));
  }

  lemma TrailingSpaceToLower(s: string)
    ensures TrailingSpace(ToLower(s)) == TrailingSpace(s)
  {
    SameSpacesToLower(s);
    TrailingSpaceOfSameSpaces(s, ToLower(s));
  }

  /** Case folding works character by character, so it commutes with slicing. */
  lemma SliceToLower(s: string, i: nat, j: nat)
    requires i <= j <= |s|
    ensures ToLower(s)[i..j] == ToLower(s[i..j])
  {
  }

  /** Lower-casing and trimming commute: `s.toLowerCase().trim()` equals
      `s.trim().toLowerCase()`. */
  lemma TrimToLower(s: string)
    ensures Trim(ToLower(s)) == ToLower(Trim(s))
  {
    var l := ToLower(s);
    var k := LeadingSpace(s);
    var a := s[k..];
    var j := TrailingSpace(a);
    assert Trim(s) == a[..j];
    LeadingSpaceToLower(s);
    SliceToLower(s, k, |s|);
    assert l[LeadingSpace(l)..] == ToLower(a);
    TrailingSpaceToLower(a);
    SliceToLower(a, 0, j);
    assert Trim(l) == ToLower(a)[..j];
  }

  /** `s.replace(/\s+/g, '_')`: every maximal run of white space becomes one `_`. */
  function ReplaceSpaceRuns(s: string): string {
    Collapse(s, false)
  }

  /** The replacement, told whether the text before `s` ended inside a run of
      white space (a run already written out as its `_`). */
  function Collapse(s: string, inRun: bool): (r: string)
    ensures !inRun ==> (r == [] <==> s == [])
  {
    if s == [] then []
    else if IsSpace(s[0]) then (if inRun then [] else "_") + Collapse(s[1..], true)
    else [s[0]] + Collapse(s[1..], false)
  }

  /** A prefix without white space passes through the replacement unchanged. */
  lemma {:induction false} CollapseKeepsPrefix(p: string, x: string)
    requires NoSpace(p)
    ensures Collapse(p + x, false) == p + Collapse(x, false)
    decreases |p|
  {
    if p != [] {
      assert (p + x)[0] == p[0];
      assert (p + x)[1..] == p[1..] + x;
      CollapseKeepsPrefix(p[1..], x);
      assert [p[0]] + (p[1..] + Collapse(x, false)) == p + Collapse(x, false);
    } else {
      assert p + x == x;
    }
  }

  /** Text without white space is left unchanged by the replacement. */
  lemma ReplaceSpaceRunsNoSpace(s: string)
    requires NoSpace(s)
    ensures ReplaceSpaceRuns(s) == s
  {
    CollapseKeepsPrefix(s, []);
    assert s + [] == s;
  }

  /** Reading a replaced string back: a prefix of the result that holds neither
      white space nor `_` was copied from the input unchanged. */
  lemma {:induction false} CollapsePrefix(t: string, p: string, rest: string)
    requires NoSpace(p) && '_' !in p
    requires Collapse(t, false) == p + rest
    ensures |p| <= |t| && t[..|p|] == p && Collapse(t[|p|..], false) == rest
    decreases |p|
  {
    if p != [] {
      assert (p + rest)[0] == p[0];
      assert t != [] && !IsSpace(t[0]);
      assert ([t[0]] + Collapse(t[1..], false))[1..] == Collapse(t[1..], false);
      assert (p + rest)[1..] == p[1..] + rest;
      CollapsePrefix(t[1..], p[1..], rest);
      assert t[1..][|p| - 1..] == t[|p|..];
    }
  }

  /** Inside a run, further white space adds nothing; the run ends at the next word. */
  lemma {:induction false} CollapseSkipsRun(w: string, b: string)
    requires AllSpace(w) && NoSpace(b)
    ensures Collapse(w + b, true) == Collapse(b, true)
    decreases |w|
  {
    if w != [] {
      assert (w + b)[0] == w[0];
      assert (w + b)[1..] == w[1..] + b;
      CollapseSkipsRun(w[1..], b);
    } else {
      assert w + b == b;
    }
  }

  /** Read back the end of a run: what follows a run and reads as word `b`
      is more white space and then `b`. */
  lemma {:induction false} CollapseRunToWord(v: string, b: string)
    requires NoSpace(b) && '_' !in b && b != []
    requires Collapse(v, true) == b
    ensures |v| >= |b| && v[|v| - |b|..] == b && AllSpace(v[..|v| - |b|])
    decreases |v|
  {
    assert v != [];
    if IsSpace(v[0]) {
      CollapseRunToWord(v[1..], b);
      SpaceBeforeSuffix(v, v[1..], b);
    } else {
      assert Collapse(v, false) == b + [];
      CollapsePrefix(v, b, []);
      assert v[..|v| - |b|] == [];
    }
  }

  /** `t` is word `a`, then a non-empty run of white space, then word `b`. */
  predicate SpacedPair(t: string, a: string, b: string) {
    |t| > |a| + |b| && t[..|a|] == a && t[|t| - |b|..] == b && AllSpace(t[|a|..|t| - |b|])
  }

  lemma ReplaceSpaceRunsOfJoined(t: string, a: string, b: string)
    requires NoSpace(a) && NoSpace(b) && t == a + ("_" + b)
    ensures ReplaceSpaceRuns(t) == a + ("_" + b)
  {
    assert NoSpace(t) by {
      forall i | 0 <= i < |t| ensures !IsSpace(t[i]) {
        if i < |a| { assert t[i] == a[i]; }
        else if i > |a| { assert t[i] == b[i - |a| - 1]; }
      }
    }
    ReplaceSpaceRunsNoSpace(t);
  }

  /** A white-space run followed by a word becomes `_` and the word. */
  lemma CollapseOfSpacedWord(w: string, b: string)
    requires AllSpace(w) && w != [] && NoSpace(b) && b != []
    ensures Collapse(w + b, false) == "_" + b
  {
    assert (w + b)[0] == w[0];
    assert (w + b)[1..] == w[1..] + b;
    CollapseSkipsRun(w[1..], b);
    assert Collapse(b, true) == Collapse(b, false);
    ReplaceSpaceRunsNoSpace(b);
  }

  lemma ReplaceSpaceRunsOfSpacedPair(t: string, a: string, b: string)
    requires NoSpace(a) && NoSpace(b) && b != [] && SpacedPair(t, a, b)
    ensures ReplaceSpaceRuns(t) == a + ("_" + b)
  {
    var w := t[|a|..|t| - |b|];
    assert t == a + (w + b);
    CollapseKeepsPrefix(a, w + b);
    CollapseOfSpacedWord(w, b);
  }

  /** Two words joined by `_`, or by any white-space run, read `a_b` after the replacement. */
  lemma ReplaceSpaceRunsOfPair(t: string, a: string, b: string)
    requires NoSpace(a) && NoSpace(b) && b != []
    requires t == a + ("_" + b) || SpacedPair(t, a, b)
    ensures ReplaceSpaceRuns(t) == a + ("_" + b)
  {
    if t == a + ("_" + b) {
      ReplaceSpaceRunsOfJoined(t, a, b);
    } else {
      ReplaceSpaceRunsOfSpacedPair(t, a, b);
    }
  }

  lemma CollapseToRunThenWord(u: string, b: string)
    requires NoSpace(b) && '_' !in b && b != []
    requires Collapse(u, false) == "_" + b && u != [] && IsSpace(u[0])
    ensures |u| > |b| && u[|u| - |b|..] == b && AllSpace(u[..|u| - |b|])
  {
    var v := u[1..];
    assert Collapse(v, true) == b by {
      assert Collapse(u, false) == "_" + Collapse(v, true);
    }
    CollapseRunToWord(v, b);
    SpaceBeforeSuffix(u, v, b);
  }

  /** Putting one more white-space character in front of "white space, then `b`". */
  lemma SpaceBeforeSuffix(u: string, v: string, b: string)
    requires u != [] && IsSpace(u[0]) && v == u[1..]
    requires |v| >= |b| && v[|v| - |b|..] == b && AllSpace(v[..|v| - |b|])
    ensures |u| > |b| && u[|u| - |b|..] == b && AllSpace(u[..|u| - |b|])
  {
    assert u[|u| - |b|..] == v[|v| - |b|..];
    assert u[..|u| - |b|] == [u[0]] + v[..|v| - |b|];
  }

  lemma CollapseToUnderscoreThenWord(u: string, b: string)
    requires NoSpace(b) && '_' !in b && b != []
    requires Collapse(u, false) == "_" + b && u != [] && !IsSpace(u[0])
    ensures u == "_" + b
  {
    assert ([u[0]] + Collapse(u[1..], false))[1..] == Collapse(u[1..], false);
    assert Collapse(u[1..], false) == b + [];
    CollapsePrefix(u[1..], b, []);
    assert u == [u[0]] + u[1..];
  }

  /** What reads `_` followed by a word after the replacement: `_` and the word,
      or a white-space run and the word. */
  lemma CollapseToSpacedWord(u: string, b: string)
    requires NoSpace(b) && '_' !in b && b != []
    requires Collapse(u, false) == "_" + b
    ensures u == "_" + b || (|u| > |b| && u[|u| - |b|..] == b && AllSpace(u[..|u| - |b|]))
  {
    assert u != [];
    if IsSpace(u[0]) {
      CollapseToRunThenWord(u, b);
    } else {
      CollapseToUnderscoreThenWord(u, b);
    }
  }

  lemma SpacedPairOfSuffix(t: string, a: string, b: string, u: string)
    requires t == a + u
    requires u == "_" + b || (|u| > |b| && u[|u| - |b|..] == b && AllSpace(u[..|u| - |b|]))
    ensures t == a + ("_" + b) || SpacedPair(t, a, b)
  {
    if u != "_" + b {
      assert t[|t| - |b|..] == u[|u| - |b|..];
      assert t[|a|..|t| - |b|] == u[..|u| - |b|];
    }
  }

  /** Conversely, only those two spellings read `a_b` after the replacement. */
  lemma ReplaceSpaceRunsToPair(t: string, a: string, b: string)
    requires NoSpace(a) && NoSpace(b) && '_' !in a && '_' !in b && b != []
    requires ReplaceSpaceRuns(t) == a + ("_" + b)
    ensures t == a + ("_" + b) || SpacedPair(t, a, b)
  {
    CollapsePrefix(t, a, "_" + b);
    var u := t[|a|..];
    CollapseToSpacedWord(u, b);
    assert t == a + u;
    SpacedPairOfSuffix(t, a, b, u);
  }

  // ---- decimal digits ----

  predicate IsDigit(c: char) {
    '0' <= c <= '9'
  }

  predicate AllDigits(s: string) {
    forall i :: 0 <= i < |s| ==> IsDigit(s[i])
  }

  function DigitChar(d: nat): (c: char)
    requires d < 10
    ensures IsDigit(c)
  {
    ('0' as int + d) as char
  }

  function DigitValue(c: char): nat
    requires IsDigit(c)
  {
    c as int - '0' as int
  }

  /** `String(n)` for a natural number: its decimal digits, most significant first. */
  function NatToString(n: nat): (r: string)
    ensures r != [] && AllDigits(r)
  {
    if n < 10 then [DigitChar(n)] else NatToString(n / 10) + [DigitChar(n % 10)]
  }

  /** The value of a run of decimal digits read most significant first. */
  function DigitsValue(s: string): nat
    requires AllDigits(s)
  {
    if s == [] then 0 else DigitsValue(s[..|s| - 1]) * 10 + DigitValue(s[|s| - 1])
  }

  /** The value of the digits after a decimal point. */
  function FractionValue(s: string): real
    requires AllDigits(s)
  {
    if s == [] then 0.0 else (DigitValue(s[0]) as real + FractionValue(s[1..])) / 10.0
  }

  /** Reading the digits of `n` back gives `n`. */
  lemma {:induction false} DigitsValueOfNatToString(n: nat)
    ensures DigitsValue(NatToString(n)) == n
  {
    if n >= 10 {
      var s := NatToString(n);
      assert s[..|s| - 1] == NatToString(n / 10);
      DigitsValueOfNatToString(n / 10);
    }
  }

  /** Different numbers render as different text. */
  lemma NatToStringInjective(m: nat, n: nat)
    ensures NatToString(m) == NatToString(n) ==> m == n
  {
    DigitsValueOfNatToString(m);
    DigitsValueOfNatToString(n);
  }

  /** The number of leading decimal digits of `s`. */
  function DigitPrefixLength(s: string): (k: nat)
    ensures k <= |s| && AllDigits(s[..k])
    ensures k < |s| ==> !IsDigit(s[k])
    ensures AllDigits(s) ==> k == |s|
  {
    if s != [] && IsDigit(s[0]) then
      var k := 1 + DigitPrefixLength(s[1..]);
      assert s[..k] == [s[0]] + s[1..][..k - 1];
      k
    else 0
  }

  /** Unsigned decimal text `digits`, `digits.`, `.digits` or `digits.digits`
      with at least one digit. */
  function UnsignedDecimal(t: string): Option<real> {
    var k := DigitPrefixLength(t);
    if k == |t| then
      if k > 0 then Some(DigitsValue(t) as real) else None
    else if t[k] == '.' && AllDigits(t[k + 1..]) && (k > 0 || k + 1 < |t|) then
      Some(DigitsValue(t[..k]) as real + FractionValue(t[k + 1..]))
    else None
  }

  /** `Number(text)` on decimal text: white space around the number is
      ignored, white space alone reads as 0, an optional sign precedes the
      digits, and anything else is read as not a number (NaN, here `None`).
      JavaScript also reads exponent, hexadecimal, binary, octal and
      `Infinity` text as numbers; the model does not. */
  function JsNumber(text: string): Option<real> {
    var t := Trim(text);
    if t == [] then Some(0.0)
    else if t[0] == '+' || t[0] == '-' then
      match UnsignedDecimal(t[1..])
      case None => None
      case Some(v) => Some(if t[0] == '-' then -v else v)
    else UnsignedDecimal(t)
  }

  /** The text `UnsignedDecimal` accepts, described by its characters: only
      digits and decimal points, at least one digit and at most one point. */
  predicate UnsignedText(u: string) {
    (exists i :: 0 <= i < |u| && IsDigit(u[i])) &&
    (forall i :: 0 <= i < |u| ==> IsDigit(u[i]) || u[i] == '.') &&
    (forall i, j :: 0 <= i < j < |u| && u[i] == '.' ==> u[j] != '.')
  }

  /** Decimal text: an optional sign, then unsigned decimal text. */
  predicate DecimalText(t: string) {
    t != [] && UnsignedText(if t[0] == '+' || t[0] == '-' then t[1..] else t)
  }

  /** The unsigned reader gives a value exactly for unsigned decimal text. */
  lemma UnsignedDecimalIff(u: string)
    ensures UnsignedDecimal(u).Some? <==> UnsignedText(u)
  {
    var k := DigitPrefixLength(u);
    if k == |u| {
      if k > 0 {
        assert IsDigit(u[0]);
      }
    } else if u[k] == '.' && AllDigits(u[k + 1..]) && (k > 0 || k + 1 < |u|) {
      assert IsDigit(u[if k > 0 then 0 else k + 1]) by {
        if k == 0 {
          assert u[k + 1..][0] == u[k + 1];
        }
      }
      forall i | 0 <= i < k ensures IsDigit(u[i]) {
        assert u[..k][i] == u[i];
      }
      forall i | k < i < |u| ensures IsDigit(u[i]) {
        assert u[k + 1..][i - k - 1] == u[i];
      }
    } else if u[k] == '.' && !AllDigits(u[k + 1..]) {
      var m :| 0 <= m < |u[k + 1..]| && !IsDigit(u[k + 1..][m]);
      assert u[k + 1 + m] == u[k + 1..][m];
    } else if u[k] == '.' {
      assert u == ".";
    }
  }

  /** The model's `Number(text)` is a number exactly when the trimmed text is
      empty or decimal text; any other text, such as `abc`, `1.2.3` or `12kg`,
      reads as NaN. */
  lemma JsNumberDefinedIff(text: string)
    ensures JsNumber(text).Some? <==> AllSpace(text) || DecimalText(Trim(text))
  {
    TrimShape(text);
    var t := Trim(text);
    if t != [] {
      if t[0] == '+' || t[0] == '-' {
        UnsignedDecimalIff(t[1..]);
      } else {
        UnsignedDecimalIff(t);
      }
    }
  }

  /** Digit strings read back as their value. */
  lemma UnsignedDecimalOfDigits(s: string)
    requires s != [] && AllDigits(s)
    ensures UnsignedDecimal(s) == Some(DigitsValue(s) as real)
  {
    assert s[..|s|] == s;
  }

  /** Digit text reads as its value. */
  lemma JsNumberOfDigits(s: string)
    requires s != [] && AllDigits(s)
    ensures JsNumber(s) == Some(DigitsValue(s) as real)
  {
    assert !IsSpace(s[0]) && !IsSpace(s[|s| - 1]) by {
      assert IsDigit(s[0]) && IsDigit(s[|s| - 1]);
    }
    TrimShape(s);
    assert Trim(s) == s;
    UnsignedDecimalOfDigits(s);
  }

  /** Trimmed text that starts with a minus sign reads as the negated unsigned remainder. */
  lemma JsNumberOfMinus(m: string, v: real)
    requires m != [] && Trim(m) == m && m[0] == '-' && UnsignedDecimal(m[1..]) == Some(v)
    ensures JsNumber(m) == Some(-v)
  {
  }

  /** Digit text after a minus sign reads as the negated value. */
  lemma JsNumberOfNegatedDigits(s: string, m: string)
    requires s != [] && AllDigits(s) && m == "-" + s
    ensures JsNumber(m) == Some(-(DigitsValue(s) as real))
  {
    assert !IsSpace(m[0]) && !IsSpace(m[|m| - 1]) by {
      assert m[0] == '-' && m[|m| - 1] == s[|s| - 1] && IsDigit(s[|s| - 1]);
    }
    TrimShape(m);
    assert Trim(m) == m;
    assert m[1..] == s;
    UnsignedDecimalOfDigits(s);
    JsNumberOfMinus(m, DigitsValue(s) as real);
  }

  /** `Number(String(n)) === n` for every natural number. */
  lemma JsNumberOfNatToString(n: nat)
    ensures JsNumber(NatToString(n)) == Some(n as real)
  {
    DigitsValueOfNatToString(n);
    JsNumberOfDigits(NatToString(n));
  }
}

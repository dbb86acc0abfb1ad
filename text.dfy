/** The JavaScript string operations the core relies on, with the semantics
    ECMAScript gives them: `toLowerCase` (ASCII letters only), `includes`,
    `startsWith`, `indexOf`, `replace` with a string pattern, `split` with a
    non-empty string separator, `join`, `trim`, `parseInt(s, 10)`, `Number(s)`,
    `String(n)` and `padStart`. */
module Text {
  import opened Common

  // ---------------------------------------------------------------- case

  function LowerChar(c: char): char
  {
    if 'A' <= c <= 'Z' then (c as int + 32) as char else c
  }

  /** `s.toLowerCase()` for ASCII letters; every other character is kept. */
  function Lower(s: string): (r: string)
    ensures |r| == |s|
    ensures forall i :: 0 <= i < |s| ==> r[i] == LowerChar(s[i])
  {
    if s == [] then [] else [LowerChar(s[0])] + Lower(s[1..])
  }

  /** Lower-casing twice is lower-casing once, so a lower-cased search term
      matches exactly what the original term matches. */
  lemma LowerIdempotent(s: string)
    ensures Lower(Lower(s)) == Lower(s)
  {
    assert forall i :: 0 <= i < |s| ==> LowerChar(LowerChar(s[i])) == LowerChar(s[i]);
  }

  // ----------------------------------------------------------- searching

  /** `t` occurs in `s` starting at index `i`. */
  predicate OccursAt(s: string, t: string, i: int)
  {
    0 <= i && i + |t| <= |s| && s[i..i + |t|] == t
  }

  /** Reference definition of "t is a substring of s". */
  ghost predicate IsInfix(t: string, s: string)
  {
    exists i :: OccursAt(s, t, i)
  }

  /** `s.includes(t)`, scanning from the left. */
  function Includes(s: string, t: string): bool
    decreases |s|
  {
    if |t| > |s| then false
    else if s[..|t|] == t then true
    else Includes(s[1..], t)
  }

  /** `includes` answers exactly the substring question, in both directions. */
  lemma {:induction false} IncludesIsInfix(s: string, t: string)
    ensures Includes(s, t) <==> IsInfix(t, s)
    decreases |s|
  {
    if |t| > |s| {
      assert forall i :: !OccursAt(s, t, i);
    } else if s[..|t|] == t {
      assert OccursAt(s, t, 0);
    } else {
      IncludesIsInfix(s[1..], t);
      if IsInfix(t, s) {
        var i :| OccursAt(s, t, i);
        assert i != 0;
        assert s[1..][i - 1..i - 1 + |t|] == s[i..i + |t|];
        assert OccursAt(s[1..], t, i - 1);
      }
      if IsInfix(t, s[1..]) {
        var i :| OccursAt(s[1..], t, i);
        assert s[1..][i..i + |t|] == s[i + 1..i + 1 + |t|];
        assert OccursAt(s, t, i + 1);
      }
    }
  }

  /** `s.startsWith(p)`. */
  predicate StartsWith(s: string, p: string)
  {
    |p| <= |s| && s[..|p|] == p
  }

  /** The first index at or after `from` where `pat` occurs in `s`, or -1. */
  function IndexFrom(s: string, pat: string, from: nat): (r: int)
    ensures r == -1 || (from <= r && OccursAt(s, pat, r))
    ensures forall j :: from <= j && (r == -1 || j < r) ==> !OccursAt(s, pat, j)
    decreases |s| - from
  {
    if from + |pat| > |s| then -1
    else if s[from..from + |pat|] == pat then from
    else IndexFrom(s, pat, from + 1)
  }

  /** `s.indexOf(pat)`. */
  function IndexOf(s: string, pat: string): int
  {
    IndexFrom(s, pat, 0)
  }

  /** `s.replace(pat, rep)` with a string pattern: only the first occurrence. */
  function ReplaceFirst(s: string, pat: string, rep: string): string
  {
    var i := IndexOf(s, pat);
    if i < 0 then s else s[..i] + rep + s[i + |pat|..]
  }

  /** Removing a non-empty prefix by `replace(prefix, '')` leaves the rest of the string. */
  lemma ReplaceLeadingPrefix(s: string, pat: string)
    requires pat != [] && StartsWith(s, pat)
    ensures ReplaceFirst(s, pat, "") == s[|pat|..]
  {
    assert OccursAt(s, pat, 0);
  }

  // ------------------------------------------------------- split and join

  /** `s.split(sep)` for a non-empty separator. */
  function Split(s: string, sep: string): (r: seq<string>)
    requires sep != []
    ensures |r| >= 1
    decreases |s|
  {
    var i := IndexOf(s, sep);
    if i < 0 then [s] else [s[..i]] + Split(s[i + |sep|..], sep)
  }

  /** `parts.join(sep)`. */
  function Join(parts: seq<string>, sep: string): string
  {
    if |parts| == 0 then []
    else if |parts| == 1 then parts[0]
    else parts[0] + sep + Join(parts[1..], sep)
  }

  /** Joining the pieces of a split restores the string. */
  lemma {:induction false} JoinSplit(s: string, sep: string)
    requires sep != []
    ensures Join(Split(s, sep), sep) == s
    decreases |s|
  {
    var i := IndexOf(s, sep);
    if i >= 0 {
      assert OccursAt(s, sep, i);
      var rest := s[i + |sep|..];
      var tail := Split(rest, sep);
      JoinSplit(rest, sep);
      var parts := [s[..i]] + tail;
      assert Split(s, sep) == parts;
      assert |parts| >= 2 && parts[0] == s[..i] && parts[1..] == tail;
      assert Join(parts, sep) == s[..i] + sep + Join(tail, sep);
      assert s == s[..i] + sep + rest;
    }
  }

  /** A string free of `c` does not contain `[c]` anywhere. */
  lemma NoOccurrence(s: string, c: char)
    requires c !in s
    ensures IndexOf(s, [c]) == -1
  {
    forall j | 0 <= j && j + 1 <= |s|
      ensures !OccursAt(s, [c], j)
    {
      assert s[j..j + 1][0] == s[j];
    }
  }

  /** Splitting on a single character undoes joining on it, provided no part
      contains that character. */
  lemma {:induction false} SplitJoin(parts: seq<string>, c: char)
    requires |parts| >= 1
    requires forall i :: 0 <= i < |parts| ==> c !in parts[i]
    ensures Split(Join(parts, [c]), [c]) == parts
  {
    if |parts| == 1 {
      NoOccurrence(parts[0], c);
    } else {
      var p := parts[0];
      var rest := Join(parts[1..], [c]);
      var s := p + [c] + rest;
      assert Join(parts, [c]) == s;
      assert s[|p|..|p| + 1] == [c];
      assert OccursAt(s, [c], |p|);
      forall j | 0 <= j < |p|
        ensures !OccursAt(s, [c], j)
      {
        assert s[j..j + 1][0] == s[j] == p[j];
      }
      assert IndexOf(s, [c]) == |p|;
      assert s[..|p|] == p;
      assert s[|p| + 1..] == rest;
      SplitJoin(parts[1..], c);
      assert Split(s, [c]) == [p] + parts[1..];
    }
  }

  /** Splitting `a + sep + b` gives back `[a, b]` when `sep` occurs neither
      within `a` (nor straddling its end) nor within `b`. */
  lemma SplitOnce(a: string, sep: string, b: string)
    requires sep != []
    requires forall j :: 0 <= j < |a| ==> !OccursAt(a + sep + b, sep, j)
    requires IndexOf(b, sep) == -1
    ensures Split(a + sep + b, sep) == [a, b]
  {
    var s := a + sep + b;
    assert s[|a|..|a| + |sep|] == sep;
    assert OccursAt(s, sep, |a|);
    assert IndexOf(s, sep) == |a|;
    assert s[..|a|] == a;
    assert s[|a| + |sep|..] == b;
  }

  // -------------------------------------------------------------- trimming

  /** ECMAScript WhiteSpace and LineTerminator code points (what `trim` strips
      and what `parseInt` skips at the start). */
  predicate IsJsSpace(c: char)
  {
    c == '\t' || c == '\n' || c == '\U{000B}' || c == '\U{000C}' || c == '\r' || c == ' '
    || c == '\U{00A0}' || c == '\U{1680}' || ('\U{2000}' <= c <= '\U{200A}')
    || c == '\U{2028}' || c == '\U{2029}' || c == '\U{202F}' || c == '\U{205F}'
    || c == '\U{3000}' || c == '\U{FEFF}'
  }

  /** `s.trimStart()`: the suffix left after the leading white space. */
  function TrimStart(s: string): (r: string)
    ensures |r| <= |s| && r == s[|s| - |r|..]
    ensures forall i :: 0 <= i < |s| - |r| ==> IsJsSpace(s[i])
    ensures r == [] || !IsJsSpace(r[0])
  {
    if s != [] && IsJsSpace(s[0]) then TrimStart(s[1..]) else s
  }

  /** `s.trimEnd()`: the prefix left before the trailing white space. */
  function TrimEnd(s: string): (r: string)
    ensures |r| <= |s| && r == s[..|r|]
    ensures forall i :: |r| <= i < |s| ==> IsJsSpace(s[i])
    ensures r == [] || !IsJsSpace(r[|r| - 1])
  {
    if s != [] && IsJsSpace(s[|s| - 1]) then TrimEnd(s[..|s| - 1]) else s
  }

  /** `s.trim()`. */
  function Trim(s: string): string
  {
    TrimEnd(TrimStart(s))
  }

  /** A string that neither starts nor ends with white space is its own trim. */
  lemma TrimUnchanged(s: string)
    requires s == [] || (!IsJsSpace(s[0]) && !IsJsSpace(s[|s| - 1]))
    ensures Trim(s) == s
  {
  }

  // --------------------------------------------------------------- numbers

  predicate IsDigit(c: char) { '0' <= c <= '9' }

  predicate AllDigits(s: string) { forall i :: 0 <= i < |s| ==> IsDigit(s[i]) }

  function DigitValue(c: char): nat
    requires IsDigit(c)
  {
    c as int - '0' as int
  }

  function DigitChar(d: nat): char
    requires d < 10
  {
    ('0' as int + d) as char
  }

  /** The value of a string of decimal digits (empty: 0). */
  function DigitsValue(ds: string): nat
    requires AllDigits(ds)
  {
    if ds == [] then 0 else DigitsValue(ds[..|ds| - 1]) * 10 + DigitValue(ds[|ds| - 1])
  }

  /** The longest prefix of `s` made of decimal digits. */
  function LeadingDigits(s: string): (r: string)
    ensures |r| <= |s| && r == s[..|r|] && AllDigits(r)
    ensures |r| == |s| || !IsDigit(s[|r|])
  {
    if s != [] && IsDigit(s[0]) then
      var tail := LeadingDigits(s[1..]);
      assert s[..1 + |tail|] == [s[0]] + s[1..][..|tail|];
      [s[0]] + tail
    else []
  }

  /** The value of the run of decimal digits `s` starts with; None if it
      does not start with a digit. */
  function ParseDigits(s: string): Option<int>
  {
    if LeadingDigits(s) == [] then None else Some(DigitsValue(LeadingDigits(s)))
  }

  /** `parseInt(s, 10)`: skip leading white space, take an optional sign, then
      the longest run of decimal digits; no digits at all gives NaN (None). */
  function ParseInt(s: string): Option<int>
  {
    ParseSigned(TrimStart(s))
  }

  function Negated(o: Option<int>): Option<int>
  {
    if o.Some? then Some(-o.value) else None
  }

  /** `parseInt` after the leading white space. */
  function ParseSigned(t: string): Option<int>
  {
    if t != [] && t[0] == '-' then Negated(ParseDigits(t[1..]))
    else if t != [] && t[0] == '+' then ParseDigits(t[1..])
    else ParseDigits(t)
  }

  /** `String(n)` for a non-negative integer: its decimal digits, no leading zero. */
  function NatToString(n: nat): (r: string)
    ensures |r| >= 1 && AllDigits(r)
    ensures DigitsValue(r) == n
    ensures r[0] != '0' || n == 0
  {
    if n < 10 then [DigitChar(n)]
    else
      var prefix := NatToString(n / 10);
      var r := prefix + [DigitChar(n % 10)];
      assert r[..|r| - 1] == prefix;
      r
  }

  function Pow10(k: nat): (r: nat)
    ensures r >= 1
  {
    if k == 0 then 1 else 10 * Pow10(k - 1)
  }

  /** A number below `10^k` is written with at most `k` digits. */
  lemma {:induction false} NatToStringWidth(n: nat, k: nat)
    requires 1 <= k && n < Pow10(k)
    ensures |NatToString(n)| <= k
  {
    if n >= 10 {
      assert k >= 2;
      assert n / 10 < Pow10(k - 1);
      NatToStringWidth(n / 10, k - 1);
    }
  }

  /** `String(n)` for any integer. */
  function IntToString(n: int): string
  {
    if n < 0 then "-" + NatToString(-n) else NatToString(n)
  }

  /** `String(n)` holds only digits and a leading minus sign, and is at least
      two characters long when `n` is negative. */
  lemma IntToStringChars(n: int)
    ensures forall i :: 0 <= i < |IntToString(n)| ==> IsDigit(IntToString(n)[i]) || IntToString(n)[i] == '-'
    ensures n < 0 ==> |IntToString(n)| >= 2
  {
    if n < 0 {
      var ds := NatToString(-n);
      assert forall i :: 1 <= i < |IntToString(n)| ==> IntToString(n)[i] == ds[i - 1];
    }
  }

  /** `s.padStart(width, c)` for a one-character pad string. */
  function PadStart(s: string, width: nat, c: char): (r: string)
    ensures |r| == if |s| >= width then |s| else width
    ensures r[|r| - |s|..] == s
    ensures forall i :: 0 <= i < |r| - |s| ==> r[i] == c
  {
    if |s| >= width then s else seq(width - |s|, _ => c) + s
  }

  /** Leading zeros do not change the value of a digit string. */
  lemma {:induction false} LeadingZeros(zs: string, ds: string)
    requires forall i :: 0 <= i < |zs| ==> zs[i] == '0'
    requires AllDigits(ds)
    ensures AllDigits(zs + ds) && DigitsValue(zs + ds) == DigitsValue(ds)
    decreases |ds|, |zs|
  {
    var s := zs + ds;
    if ds == [] {
      assert s == zs;
      if zs != [] {
        LeadingZeros(zs[..|zs| - 1], []);
        assert s[..|s| - 1] == zs[..|zs| - 1] + [];
      }
    } else {
      LeadingZeros(zs, ds[..|ds| - 1]);
      assert s[..|s| - 1] == zs + ds[..|ds| - 1];
    }
  }

  /** The leading digits of `ds + rest` are `ds` when `rest` does not start with one. */
  lemma {:induction false} LeadingDigitsAppend(ds: string, rest: string)
    requires AllDigits(ds)
    requires rest == [] || !IsDigit(rest[0])
    ensures LeadingDigits(ds + rest) == ds
    decreases |ds|
  {
    if ds == [] {
      assert ds + rest == rest;
    } else {
      assert (ds + rest)[0] == ds[0];
      assert (ds + rest)[1..] == ds[1..] + rest;
      LeadingDigitsAppend(ds[1..], rest);
      assert ds == [ds[0]] + ds[1..];
    }
  }

  /** The digit run at the start of `ds + rest` is `ds`. */
  lemma ParseDigitsAppend(ds: string, rest: string)
    requires ds != [] && AllDigits(ds)
    requires rest == [] || !IsDigit(rest[0])
    ensures ParseDigits(ds + rest) == Some(DigitsValue(ds) as int)
  {
    LeadingDigitsAppend(ds, rest);
  }

  /** A string that does not start with white space is its own `trimStart`. */
  lemma TrimStartUnchanged(s: string)
    requires s == [] || !IsJsSpace(s[0])
    ensures TrimStart(s) == s
  {
  }

  /** `parseInt` on a string that starts with digits. */
  lemma ParseIntOfDigits(ds: string, rest: string)
    requires ds != [] && AllDigits(ds)
    requires rest == [] || !IsDigit(rest[0])
    ensures ParseInt(ds + rest) == Some(DigitsValue(ds) as int)
  {
    assert (ds + rest)[0] == ds[0];
    TrimStartUnchanged(ds + rest);
    ParseDigitsAppend(ds, rest);
  }

  /** A leading minus sign negates what follows it. */
  lemma ParseIntMinus(u: string)
    ensures ParseInt("-" + u) == Negated(ParseDigits(u))
  {
    assert ("-" + u)[0] == '-';
    TrimStartUnchanged("-" + u);
    assert ("-" + u)[1..] == u;
  }

  /** `parseInt` reads back `String(n)`, and stops at the first non-digit
      after it. */
  lemma ParseIntOfDecimal(n: int, rest: string)
    requires rest == [] || !IsDigit(rest[0])
    ensures ParseInt(IntToString(n) + rest) == Some(n)
  {
    if n < 0 {
      assert IntToString(n) + rest == "-" + (NatToString(-n) + rest);
      ParseIntMinus(NatToString(-n) + rest);
      ParseDigitsAppend(NatToString(-n), rest);
    } else {
      ParseIntOfDigits(NatToString(n), rest);
    }
  }

  /** `Number(s)` restricted to integer numerals: white space is trimmed, the
      empty string is 0, and an optional sign may precede decimal digits.
      Every other string is NaN (`None`) here. JavaScript's `Number` also
      reads fractions, exponents, `0x`/`0o`/`0b` prefixes and `Infinity`;
      those forms are not modelled. */
  function ToNumber(s: string): Option<int>
  {
    var t := Trim(s);
    if t == [] then Some(0)
    else
      var body := if t[0] == '-' || t[0] == '+' then t[1..] else t;
      if body != [] && AllDigits(body) then
        var value: int := DigitsValue(body);
        Some(if t[0] == '-' then -value else value)
      else None
  }

  /** `Number(String(n)) == n`. */
  lemma ToNumberOfIntToString(n: int)
    ensures ToNumber(IntToString(n)) == Some(n)
  {
    var s := IntToString(n);
    assert s == [] || (!IsJsSpace(s[0]) && !IsJsSpace(s[|s| - 1]));
    TrimUnchanged(s);
    if n < 0 {
      assert s[1..] == NatToString(-n);
    }
  }

  /** `Number` reads a plain digit string as its value. */
  lemma DigitStringNumber(s: string)
    requires s != [] && AllDigits(s)
    ensures ToNumber(s) == Some(DigitsValue(s) as int)
  {
    assert IsDigit(s[0]) && IsDigit(s[|s| - 1]);
    TrimUnchanged(s);
  }

  /** `Number(String(n).padStart(w, '0')) == n` for a natural number `n`. */
  lemma ToNumberOfPadded(n: nat, width: nat)
    ensures ToNumber(PadStart(NatToString(n), width, '0')) == Some(n)
  {
    var ds := NatToString(n);
    var s := PadStart(ds, width, '0');
    var zs := s[..|s| - |ds|];
    assert s == zs + ds;
    LeadingZeros(zs, ds);
    DigitStringNumber(s);
  }
}

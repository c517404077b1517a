/**
 * The JavaScript string built-ins the core relies on, restricted to ASCII:
 * `toLowerCase` maps 'A'..'Z' only, `trim` strips the six ASCII white-space
 * characters, `includes` is substring search, `Number` is modelled on
 * all-digit strings only, and `Array(n + 1).join(c)` is `Repeat`.
 */
module JsString {

  /** The ASCII characters `String.prototype.trim` removes. */
  predicate IsSpace(c: char) {
    c == ' ' || c == '\t' || c == '\n' || c == '\r' || c == '\U{B}' || c == '\U{C}'
  }

  function LowerChar(c: char): (d: char)
    ensures IsSpace(d) <==> IsSpace(c)
    ensures 'A' <= c <= 'Z' ==> d != c
    ensures !('A' <= d <= 'Z')
  {
    if 'A' <= c <= 'Z' then (c as int + 32) as char else c
  }

  /** `s.toLowerCase()` on ASCII letters. */
  function ToLower(s: string): (r: string)
    ensures |r| == |s|
    ensures forall i :: 0 <= i < |s| ==> r[i] == LowerChar(s[i])
  {
    seq(|s|, i requires 0 <= i < |s| => LowerChar(s[i]))
  }

  /** Drops the leading white space: the result is the longest suffix that does not start with a space. */
  function TrimStart(s: string): (r: string)
    ensures |r| <= |s| && forall i :: 0 <= i < |r| ==> r[i] == s[|s| - |r| + i]
    ensures r == [] || !IsSpace(r[0])
    ensures forall i :: 0 <= i < |s| - |r| ==> IsSpace(s[i])
  {
    if s != [] && IsSpace(s[0]) then
      var t := s[1..];
      var r := TrimStart(t);
      SuffixStep(s, t, r);
      r
    else s
  }

  /** A suffix of `s[1..]` that starts after white space only is a suffix of `s` with the same property. */
  lemma SuffixStep(s: string, t: string, r: string)
    requires s != [] && IsSpace(s[0]) && t == s[1..]
    requires |r| <= |t| && forall i :: 0 <= i < |r| ==> r[i] == t[|t| - |r| + i]
    requires forall i :: 0 <= i < |t| - |r| ==> IsSpace(t[i])
    ensures forall i :: 0 <= i < |r| ==> r[i] == s[|s| - |r| + i]
    ensures forall i :: 0 <= i < |s| - |r| ==> IsSpace(s[i])
  {
    forall i | 0 <= i < |r| ensures r[i] == s[|s| - |r| + i] {
      assert t[|t| - |r| + i] == s[|s| - |r| + i];
    }
    forall i | 1 <= i < |s| - |r| ensures IsSpace(s[i]) {
      assert t[i - 1] == s[i];
    }
  }

  /** Drops the trailing white space: the result is the longest prefix that does not end with a space. */
  function TrimEnd(s: string): (r: string)
    ensures |r| <= |s| && r == s[..|r|]
    ensures r == [] || !IsSpace(r[|r| - 1])
    ensures forall i :: |r| <= i < |s| ==> IsSpace(s[i])
  {
    if s != [] && IsSpace(s[|s| - 1]) then TrimEnd(s[..|s| - 1]) else s
  }

  /** `s.trim()`. */
  function Trim(s: string): string {
    TrimEnd(TrimStart(s))
  }

  lemma TrimShape(s: string)
    ensures var r := Trim(s);
      |r| <= |s| && (r == [] || (!IsSpace(r[0]) && !IsSpace(r[|r| - 1])))
  {
    var t := TrimStart(s);
    var r := TrimEnd(t);
    if r != [] {
      assert r[0] == t[0];
    }
  }

  lemma {:induction false} ToLowerIdempotent(s: string)
    ensures ToLower(ToLower(s)) == ToLower(s)
  {
    var l := ToLower(s);
    assert forall i :: 0 <= i < |s| ==> ToLower(l)[i] == l[i];
  }

  lemma {:induction false} TrimIdempotent(s: string)
    ensures Trim(Trim(s)) == Trim(s)
  {
    var t := TrimStart(s);
    var r := TrimEnd(t);
    // r is a prefix of t, and t does not start with a space
    if r != [] {
      assert r[0] == t[0];
    }
    assert TrimStart(r) == r;
    assert TrimEnd(r) == r;
  }

  lemma {:induction false} ToLowerTrimStart(s: string)
    ensures ToLower(TrimStart(s)) == TrimStart(ToLower(s))
    decreases |s|
  {
    if s != [] && IsSpace(s[0]) {
      assert ToLower(s)[1..] == ToLower(s[1..]);
      ToLowerTrimStart(s[1..]);
    }
  }

  lemma {:induction false} ToLowerTrimEnd(s: string)
    ensures ToLower(TrimEnd(s)) == TrimEnd(ToLower(s))
    decreases |s|
  {
    if s != [] && IsSpace(s[|s| - 1]) {
      assert ToLower(s)[..|s| - 1] == ToLower(s[..|s| - 1]);
      ToLowerTrimEnd(s[..|s| - 1]);
    }
  }

  /** Lower-casing and trimming commute, because lower-casing never makes or unmakes white space. */
  lemma ToLowerTrim(s: string)
    ensures ToLower(Trim(s)) == Trim(ToLower(s))
  {
    ToLowerTrimStart(s);
    ToLowerTrimEnd(TrimStart(s));
  }

  /** `hay.includes(needle)`, the SQL `LIKE '%needle%'` of a case-sensitive store. */
  predicate Contains(hay: string, needle: string) {
    exists i | 0 <= i <= |hay| - |needle| :: OccursAt(hay, needle, i)
  }

  predicate OccursAt(hay: string, needle: string, i: int) {
    0 <= i <= |hay| - |needle| && hay[i..i + |needle|] == needle
  }

  /** A needle whose first character never appears in the haystack does not occur in it. */
  lemma NotContainsMissingFirst(hay: string, needle: string)
    requires needle != [] && needle[0] !in hay
    ensures !Contains(hay, needle)
  {
    forall i | 0 <= i <= |hay| - |needle|
      ensures !OccursAt(hay, needle, i)
    {
      assert hay[i..i + |needle|][0] == hay[i];
    }
  }

  /** A letter that appears in neither case in `s` does not appear in its lower-cased form. */
  lemma ToLowerMissing(s: string, c: char)
    requires 'a' <= c <= 'z' && c !in s && (c as int - 32) as char !in s
    ensures c !in ToLower(s)
  {
    forall k | 0 <= k < |s| ensures ToLower(s)[k] != c {
      assert s[k] != c && s[k] != (c as int - 32) as char;
    }
  }

  /** `Array(n + 1).join(fill)`: n copies of fill. */
  function Repeat(fill: string, n: nat): (r: string)
    ensures |r| == n * |fill|
    ensures forall k :: 0 <= k < |r| ==> r[k] == fill[k % |fill|]
  {
    if n == 0 || fill == [] then []
    else
      var rest := Repeat(fill, n - 1);
      RepeatStep(fill, rest);
      fill + rest
  }

  /** Putting one more copy in front keeps every character in step with the fill. */
  lemma RepeatStep(fill: string, rest: string)
    requires |fill| > 0
    requires forall k :: 0 <= k < |rest| ==> rest[k] == fill[k % |fill|]
    ensures forall k :: 0 <= k < |fill| + |rest| ==> (fill + rest)[k] == fill[k % |fill|]
  {
    forall k | 0 <= k < |fill| + |rest|
      ensures (fill + rest)[k] == fill[k % |fill|]
    {
      RepeatStepAt(fill, rest, k);
    }
  }

  lemma RepeatStepAt(fill: string, rest: string, k: nat)
    requires |fill| > 0 && k < |fill| + |rest|
    requires forall k :: 0 <= k < |rest| ==> rest[k] == fill[k % |fill|]
    ensures (fill + rest)[k] == fill[k % |fill|]
  {
    if k < |fill| {
      ModSmall(k, |fill|);
    } else {
      ModShift(k, |fill|);
      assert (fill + rest)[k] == rest[k - |fill|];
    }
  }

  lemma ModSmall(k: int, m: int)
    requires 0 <= k < m
    ensures k % m == k
  {
  }

  lemma ModShift(k: int, m: int)
    requires m > 0 && k >= m
    ensures (k - m) % m == k % m
  {
    var q, r := (k - m) / m, (k - m) % m;
    assert k == (q + 1) * m + r;
    var d := q + 1 - k / m;
    assert d * m == k % m - r;
  }

  /** `/\d/` : the ASCII decimal digits. */
  predicate IsDigit(c: char) {
    '0' <= c <= '9'
  }

  /** `/\d+/.test(s)`: the regular expression is not anchored, so one digit anywhere suffices. */
  predicate HasDigit(s: string) {
    exists i :: 0 <= i < |s| && IsDigit(s[i])
  }

  predicate AllDigits(s: string) {
    forall i :: 0 <= i < |s| ==> IsDigit(s[i])
  }

  /** `Number(s)` for a non-empty all-digit string: its decimal value (leading zeros allowed). */
  function DecimalValue(s: string): (n: nat)
    requires AllDigits(s)
    ensures s != [] && s[0] != '0' ==> n > 0
    ensures (forall i :: 0 <= i < |s| ==> s[i] == '0') <==> n == 0
  {
    if s == [] then 0 else DecimalValue(s[..|s| - 1]) * 10 + (s[|s| - 1] - '0') as nat
  }

  /** `String(n)`, the decimal rendering used in template literals. */
  function NatToString(n: nat): (s: string)
    ensures s != [] && AllDigits(s)
    ensures s[0] == '0' ==> n == 0
    decreases n
  {
    if n < 10 then [('0' as int + n) as char]
    else NatToString(n / 10) + [('0' as int + n % 10) as char]
  }

  /** Rendering a number and reading it back gives the number. */
  lemma {:induction false} DecimalRoundTrip(n: nat)
    ensures DecimalValue(NatToString(n)) == n
    decreases n
  {
    if n >= 10 {
      var s := NatToString(n);
      assert s[..|s| - 1] == NatToString(n / 10);
      DecimalRoundTrip(n / 10);
    }
  }

  /** `parts.join(sep)`. */
  function JoinWith(parts: seq<string>, sep: string): (r: string)
    ensures parts == [] ==> r == []
    ensures |parts| == 1 ==> r == parts[0]
  {
    if parts == [] then []
    else if |parts| == 1 then parts[0]
    else parts[0] + sep + JoinWith(parts[1..], sep)
  }
}

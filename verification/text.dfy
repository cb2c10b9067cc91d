/** String helpers shared by the build scripts' models: character classes of
    JavaScript regular expressions, prefixes and suffixes, joining, decimal
    rendering of numbers and single-character replacement. */
module Text {

  datatype Option<T> = None | Some(value: T)

  /** `\w` in a JavaScript regular expression: [A-Za-z0-9_]. */
  predicate IsWordChar(c: char) {
    ('a' <= c <= 'z') || ('A' <= c <= 'Z') || ('0' <= c <= '9') || c == '_'
  }

  /** The characters in the class `[a-zA-Z0-9-_]` that the project-name
      sanitisers keep. */
  predicate IsNameChar(c: char) {
    IsWordChar(c) || c == '-'
  }

  /** A line terminator in the sense of ECMAScript: what `.` does not match
      and what `$` stops at in multiline mode. */
  predicate IsLineTerminator(c: char) {
    c == '\n' || c == '\r' || c == '\U{2028}' || c == '\U{2029}'
  }

  /** `\s` in a JavaScript regular expression, which is also the set that
      String.prototype.trim removes: white space and line terminators. */
  predicate IsSpace(c: char) {
    c == '\t' || c == '\U{000B}' || c == '\U{000C}' || c == ' ' || c == '\U{00A0}'
    || c == '\U{FEFF}' || c == '\U{1680}' || ('\U{2000}' <= c <= '\U{200A}')
    || c == '\U{202F}' || c == '\U{205F}' || c == '\U{3000}'
    || IsLineTerminator(c)
  }

  /** Every character of `s` is white space. */
  predicate AllSpace(s: string) {
    forall k :: 0 <= k < |s| ==> IsSpace(s[k])
  }

  /** Length of the longest run of white space starting at `i`. */
  function SpaceRun(s: string, i: nat): (n: nat)
    requires i <= |s|
    ensures i + n <= |s|
    decreases |s| - i
  {
    if i < |s| && IsSpace(s[i]) then 1 + SpaceRun(s, i + 1) else 0
  }

  /** The run is all white space and cannot be extended. */
  lemma {:induction false} SpaceRunIs(s: string, i: nat)
    requires i <= |s|
    ensures forall k :: i <= k < i + SpaceRun(s, i) ==> IsSpace(s[k])
    ensures i + SpaceRun(s, i) == |s| || !IsSpace(s[i + SpaceRun(s, i)])
    decreases |s| - i
  {
    if i < |s| && IsSpace(s[i]) {
      SpaceRunIs(s, i + 1);
    }
  }

  /** The least `k` with `i <= k <= n` and `P(k)`: the leftmost-first
      search of a regular expression over start positions. */
  function FirstFrom(i: nat, n: nat, P: nat -> bool): (r: Option<nat>)
    ensures r.Some? ==> i <= r.value <= n && P(r.value)
    decreases n + 1 - i
  {
    if i > n then None
    else if P(i) then Some(i)
    else FirstFrom(i + 1, n, P)
  }

  /** Nothing before the position found satisfies `P`. */
  lemma {:induction false} FirstFromLeast(i: nat, n: nat, P: nat -> bool)
    ensures FirstFrom(i, n, P).Some? ==>
              forall k :: i <= k < FirstFrom(i, n, P).value ==> !P(k)
    decreases n + 1 - i
  {
    if i <= n && !P(i) {
      FirstFromLeast(i + 1, n, P);
    }
  }

  /** The search fails exactly when nothing in range satisfies `P`. */
  lemma {:induction false} FirstFromNone(i: nat, n: nat, P: nat -> bool)
    ensures FirstFrom(i, n, P).None? <==> forall k :: i <= k <= n ==> !P(k)
    decreases n + 1 - i
  {
    if i <= n {
      FirstFromNone(i + 1, n, P);
    }
  }

  predicate StartsWith(s: string, p: string) {
    |p| <= |s| && s[..|p|] == p
  }

  predicate EndsWith(s: string, p: string) {
    |p| <= |s| && s[|s| - |p|..] == p
  }

  /** `s` holds `p` starting at index `i`. */
  predicate HasAt(s: string, i: nat, p: string) {
    i + |p| <= |s| && s[i..i + |p|] == p
  }

  /** `s.split(c)[0]`: the text before the first `c`, or all of it. */
  function BeforeFirst(s: string, c: char): (r: string)
    ensures c !in r && StartsWith(s, r)
    ensures |r| < |s| ==> s[|r|] == c
  {
    if s == [] then ""
    else if s[0] == c then ""
    else
      var r := [s[0]] + BeforeFirst(s[1..], c);
      assert s[..|r|] == [s[0]] + s[1..][..|r| - 1];
      r
  }

  /** The text before the first `c` when a `c` follows `a`, which has none. */
  lemma {:induction false} BeforeFirstAt(a: string, c: char, b: string)
    requires c !in a
    ensures BeforeFirst(a + [c] + b, c) == a
  {
    if a != [] {
      assert (a + [c] + b)[1..] == a[1..] + [c] + b;
      BeforeFirstAt(a[1..], c, b);
      assert a == [a[0]] + a[1..];
    }
  }

  /** The first index of `c` at or after `i`. */
  function CharFrom(s: string, i: nat, c: char): (r: Option<nat>)
    requires i <= |s|
    ensures r.Some? ==> i <= r.value < |s| && s[r.value] == c && c !in s[i..r.value]
    ensures r.None? ==> c !in s[i..]
    decreases |s| - i
  {
    if i == |s| then None
    else if s[i] == c then Some(i)
    else
      var r := CharFrom(s, i + 1, c);
      assert r.Some? ==> s[i..r.value] == [s[i]] + s[i + 1..r.value];
      assert s[i..] == [s[i]] + s[i + 1..];
      r
  }

  lemma {:induction false} CharFromIs(s: string, i: nat, q: nat, c: char)
    requires i <= q < |s| && s[q] == c && forall k :: i <= k < q ==> s[k] != c
    ensures CharFrom(s, i, c) == Some(q)
    decreases q - i
  {
    if i < q {
      CharFromIs(s, i + 1, q, c);
    }
  }

  /** ASCII lower-casing, which is what the `i` flag of a (non-Unicode)
      regular expression amounts to for the ASCII literals used here. */
  function LowerAscii(c: char): char {
    if 'A' <= c <= 'Z' then (c as int + 32) as char else c
  }

  /** `s` holds `p` at index `i`, ignoring ASCII case; `p` is lower case. */
  predicate HasAtIgnoreCase(s: string, i: nat, p: string) {
    i + |p| <= |s| && forall k :: 0 <= k < |p| ==> LowerAscii(s[i + k]) == p[k]
  }

  /** A sequence is what comes before an element, the element, and what
      comes after it. */
  lemma SplitAround<T>(s: seq<T>, k: nat)
    requires k < |s|
    ensures s[..k] + ([s[k]] + s[k + 1..]) == s
  {
    assert s[k..] == [s[k]] + s[k + 1..];
    assert s == s[..k] + s[k..];
  }

  /** Concatenation regroups freely. */
  lemma ConcatAssoc<T>(a: seq<T>, b: seq<T>, c: seq<T>)
    ensures a + (b + c) == a + b + c
  {
  }

  /** Array.prototype.join. */
  function Join(parts: seq<string>, sep: string): string {
    if |parts| == 0 then ""
    else if |parts| == 1 then parts[0]
    else parts[0] + sep + Join(parts[1..], sep)
  }

  lemma {:induction false} JoinSnoc(parts: seq<string>, x: string, sep: string)
    requires |parts| > 0
    ensures Join(parts + [x], sep) == Join(parts, sep) + sep + x
  {
    if |parts| == 1 {
      assert parts + [x] == [parts[0], x];
    } else {
      assert (parts + [x])[1..] == parts[1..] + [x];
      JoinSnoc(parts[1..], x, sep);
    }
  }

  /** String.prototype.trim. */
  function Trim(s: string): (r: string)
    ensures |r| <= |s|
    ensures r != [] ==> !IsSpace(r[0]) && !IsSpace(r[|r| - 1])
  {
    TrimEnd(TrimStart(s))
  }

  function TrimStart(s: string): (r: string)
    ensures |r| <= |s| && (r != [] ==> !IsSpace(r[0]))
    ensures r == s[|s| - |r|..]
    ensures AllSpace(s[..|s| - |r|])
  {
    if s != [] && IsSpace(s[0]) then TrimStart(s[1..]) else s
  }

  function TrimEnd(s: string): (r: string)
    ensures |r| <= |s| && (r != [] ==> !IsSpace(r[|r| - 1]))
    ensures r == s[..|r|]
    ensures AllSpace(s[|r|..])
  {
    if s != [] && IsSpace(s[|s| - 1]) then TrimEnd(s[..|s| - 1]) else s
  }

  /** `s.replaceAll(c, rep)` for a one-character pattern `c`. */
  function ReplaceChar(s: string, c: char, rep: string): string {
    if s == [] then ""
    else (if s[0] == c then rep else [s[0]]) + ReplaceChar(s[1..], c, rep)
  }

  lemma {:induction false} ReplaceCharAppend(a: string, b: string, c: char, rep: string)
    ensures ReplaceChar(a + b, c, rep) == ReplaceChar(a, c, rep) + ReplaceChar(b, c, rep)
  {
    if a != [] {
      assert (a + b)[0] == a[0] && (a + b)[1..] == a[1..] + b;
      ReplaceCharAppend(a[1..], b, c, rep);
      var h := if a[0] == c then rep else [a[0]];
      assert ReplaceChar(a + b, c, rep) == h + ReplaceChar(a[1..] + b, c, rep);
    } else {
      assert a + b == b;
    }
  }

  /** `s.replace(/[...]/g, "")`: every character of `s` that is in `drop` deleted. */
  function Remove(s: string, drop: set<char>): (r: string)
    ensures forall k :: 0 <= k < |r| ==> r[k] !in drop
    ensures |r| <= |s|
    ensures (forall k :: 0 <= k < |s| ==> s[k] !in drop) ==> r == s
  {
    if s == [] then ""
    else if s[0] in drop then Remove(s[1..], drop)
    else [s[0]] + Remove(s[1..], drop)
  }

  /** A single character is deleted exactly when it is in `drop`. */
  lemma RemoveOne(c: char, drop: set<char>)
    ensures Remove([c], drop) == if c in drop then "" else [c]
  {
    assert [c][1..] == [];
  }

  /** Removal keeps the order of what it keeps: it distributes over
      concatenation. */
  lemma {:induction false} RemoveAppend(a: string, b: string, drop: set<char>)
    ensures Remove(a + b, drop) == Remove(a, drop) + Remove(b, drop)
  {
    if a != [] {
      assert (a + b)[0] == a[0] && (a + b)[1..] == a[1..] + b;
      RemoveAppend(a[1..], b, drop);
    } else {
      assert a + b == b;
    }
  }

  /** The decimal digit for `d`. */
  function DigitChar(d: nat): (c: char)
    requires d < 10
    ensures '0' <= c <= '9' && c as int - '0' as int == d
  {
    ('0' as int + d) as char
  }

  /** The decimal text of a natural number, as a template literal renders it. */
  function NatToString(n: nat): (r: string)
    ensures |r| >= 1
    ensures forall k :: 0 <= k < |r| ==> '0' <= r[k] <= '9'
    ensures r[0] == '0' ==> n == 0
  {
    if n < 10 then [DigitChar(n)] else NatToString(n / 10) + [DigitChar(n % 10)]
  }

  /** Reading decimal digits back, the partner of NatToString. */
  function ParseDigits(s: string): nat
    requires forall k :: 0 <= k < |s| ==> '0' <= s[k] <= '9'
  {
    if s == [] then 0 else 10 * ParseDigits(s[..|s| - 1]) + (s[|s| - 1] as int - '0' as int)
  }

  /** Decimal rendering round-trips, so different widths get different texts. */
  lemma {:induction false} NatToStringRoundTrip(n: nat)
    ensures ParseDigits(NatToString(n)) == n
  {
    if n >= 10 {
      var r := NatToString(n);
      assert r[..|r| - 1] == NatToString(n / 10);
      NatToStringRoundTrip(n / 10);
    }
  }

  lemma NatToStringInjective(m: nat, n: nat)
    requires NatToString(m) == NatToString(n)
    ensures m == n
  {
    NatToStringRoundTrip(m);
    NatToStringRoundTrip(n);
  }
}

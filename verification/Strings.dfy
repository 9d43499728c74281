/** Byte strings as the C library sees them.  A `char` stands for one byte, a `string` for the
    bytes in front of a terminating NUL. */
module CStrings {

  datatype Option<+T> = None | Some(value: T)

  /** Reading `s[i]` from a zero-filled buffer: every position behind the text reads as NUL. */
  function At(s: string, i: nat): char {
    if i < |s| then s[i] else '\0'
  }

  predicate Free(s: string, c: char) {
    forall k :: 0 <= k < |s| ==> s[k] != c
  }

  /** A text that fits one line of a file and one C string. */
  predicate IsLine(s: string) {
    Free(s, '\n') && Free(s, '\0')
  }

  predicate IsDigit(c: char) { '0' <= c <= '9' }

  predicate IsNameChar(c: char) { 'A' <= c <= 'Z' || '0' <= c <= '9' || c == '_' }

  predicate IsBlank(c: char) { c == ' ' || c == '\t' }

  /** The character classes by their codes: digits; digits, capital letters and the underscore; blank and
      tab; blank and the five control characters from tab on. */
  lemma CharacterCodes(c: char)
    ensures IsDigit(c) <==> 48 <= c as int <= 57
    ensures IsNameChar(c) <==> 65 <= c as int <= 90 || 48 <= c as int <= 57 || c as int == 95
    ensures IsBlank(c) <==> c as int == 32 || c as int == 9
    ensures IsSpace(c) <==> c as int == 32 || 9 <= c as int <= 13
    ensures IsDigit(c) ==> DigitValue(c) == c as int - 48
  {
  }

  /** The length of the longest prefix whose characters all satisfy `p`. */
  function Span(s: string, p: char -> bool): (n: nat)
    ensures n <= |s|
    ensures forall k :: 0 <= k < n ==> p(s[k])
    ensures n < |s| ==> !p(s[n])
  {
    if s == "" || !p(s[0]) then 0 else 1 + Span(s[1..], p)
  }

  lemma SpanIs(s: string, p: char -> bool, n: nat)
    requires n <= |s|
    requires forall k :: 0 <= k < n ==> p(s[k])
    requires n < |s| ==> !p(s[n])
    ensures Span(s, p) == n
  {
  }

  /** `strchr`: the first position of `c`, or `|s|` when there is none. */
  function Find(s: string, c: char): (k: nat)
    ensures k <= |s|
    ensures Free(s[..k], c)
    ensures k < |s| ==> s[k] == c
  {
    if s == "" || s[0] == c then 0
    else
      var k := 1 + Find(s[1..], c);
      assert forall j :: 1 <= j < k ==> s[j] == s[1..][..k - 1][j - 1];
      k
  }

  lemma NoneBefore(s: string, c: char)
    ensures forall j :: 0 <= j < Find(s, c) ==> s[j] != c
  {
    var k := Find(s, c);
    forall j | 0 <= j < k ensures s[j] != c { assert s[..k][j] == s[j]; }
  }

  lemma FindIs(s: string, c: char, k: nat)
    requires k <= |s| && Free(s[..k], c)
    requires k < |s| ==> s[k] == c
    ensures Find(s, c) == k
  {
    var m := Find(s, c);
    assert forall j :: 0 <= j < k ==> s[..k][j] == s[j];
    assert forall j :: 0 <= j < m ==> s[..m][j] == s[j];
  }

  predicate OccursAt(s: string, p: string, k: nat) {
    k <= |s| && p <= s[k..]
  }

  lemma OccursIs(s: string, p: string, k: nat)
    ensures OccursAt(s, p, k) <==> k + |p| <= |s| && s[k..k + |p|] == p
  {
    if k + |p| <= |s| { assert s[k..][..|p|] == s[k..k + |p|]; }
  }

  /** `strstr`: the first position where `p` occurs. */
  function StrStr(s: string, p: string): (r: Option<nat>)
    ensures r.Some? ==> OccursAt(s, p, r.value) && forall j: nat :: j < r.value ==> !OccursAt(s, p, j)
    ensures r.None? ==> forall j: nat :: !OccursAt(s, p, j)
  {
    StrStrFrom(s, p, 0)
  }

  function StrStrFrom(s: string, p: string, from: nat): (r: Option<nat>)
    requires from <= |s|
    ensures r.Some? ==> from <= r.value && OccursAt(s, p, r.value)
                        && forall j: nat :: from <= j < r.value ==> !OccursAt(s, p, j)
    ensures r.None? ==> forall j: nat :: from <= j ==> !OccursAt(s, p, j)
    decreases |s| - from
  {
    if OccursAt(s, p, from) then Some(from)
    else if from == |s| then None
    else StrStrFrom(s, p, from + 1)
  }

  lemma StrStrIs(s: string, p: string, k: nat)
    requires OccursAt(s, p, k) && forall j: nat :: j < k ==> !OccursAt(s, p, j)
    ensures StrStr(s, p) == Some(k)
  {
    var r := StrStr(s, p);
    assert r.Some?;
  }

  /** `strcmp(a, b) < 0`. */
  predicate Less(a: string, b: string) {
    if b == "" then false
    else if a == "" then true
    else a[0] < b[0] || (a[0] == b[0] && Less(a[1..], b[1..]))
  }

  /** The texts agree in front of `k`, and there `a` ends or has the lower character. */
  predicate LowerAt(a: string, b: string, k: nat) {
    k <= |a| && k < |b| && a[..k] == b[..k] && (k == |a| || a[k] < b[k])
  }

  /** The order by the first difference, with a text in front of its extensions. */
  lemma {:induction false} LessIsLower(a: string, b: string)
    ensures Less(a, b) <==> exists k :: LowerAt(a, b, k)
  {
    if a == "" || b == "" {
      if a == "" && b != "" { assert LowerAt(a, b, 0); }
    } else {
      LessIsLower(a[1..], b[1..]);
      if a[0] < b[0] { assert LowerAt(a, b, 0); }
      if k: nat :| LowerAt(a[1..], b[1..], k) && a[0] == b[0] { LowerShifts(a, b, k); }
      if k: nat :| LowerAt(a, b, k) && k > 0 { LowerShifts(a, b, k - 1); }
    }
  }

  lemma LowerShifts(a: string, b: string, k: nat)
    requires a != "" && b != ""
    ensures LowerAt(a, b, k + 1) <==> a[0] == b[0] && LowerAt(a[1..], b[1..], k)
  {
    if k + 1 <= |a| && k + 1 < |b| {
      assert a[..k + 1] == [a[0]] + a[1..][..k] && b[..k + 1] == [b[0]] + b[1..][..k];
      assert a[1..][..k] == a[..k + 1][1..] && b[1..][..k] == b[..k + 1][1..];
    }
  }

  /** A text is lower than every proper extension of it. */
  lemma LessExtension(a: string, more: string)
    requires more != ""
    ensures Less(a, a + more) && !Less(a + more, a)
  {
    assert (a + more)[..|a|] == a;
    assert LowerAt(a, a + more, |a|);
    LessIsLower(a, a + more);
    LessTotal(a, a + more);
  }

  lemma {:induction false} LessTotal(a: string, b: string)
    ensures Less(a, b) || a == b || Less(b, a)
    ensures !(Less(a, b) && Less(b, a))
    ensures !Less(a, a)
  {
    if a != "" {
      LessTotal(a[1..], a[1..]);
      if b != "" {
        LessTotal(a[1..], b[1..]);
        if a[0] == b[0] && a[1..] == b[1..] { assert a == [a[0]] + a[1..] && b == [b[0]] + b[1..]; }
      }
    }
  }

  lemma {:induction false} LessTransitive(a: string, b: string, c: string)
    requires Less(a, b) && Less(b, c)
    ensures Less(a, c)
  {
    if a != "" && a[0] == b[0] == c[0] { LessTransitive(a[1..], b[1..], c[1..]); }
  }

  /** Comparing behind a common prefix. */
  lemma {:induction false} LessPrefix(p: string, a: string, b: string)
    ensures Less(p + a, p + b) == Less(a, b)
  {
    if p == "" {
      assert p + a == a && p + b == b;
    } else {
      LessPrefix(p[1..], a, b);
      assert (p + a)[1..] == p[1..] + a && (p + b)[1..] == p[1..] + b;
    }
  }

  predicate IsSpace(c: char) { c == ' ' || '\t' <= c <= '\r' }

  function DigitValue(c: char): nat
    requires IsDigit(c)
  {
    c as int - '0' as int
  }

  function Value(digits: string): nat
    requires forall k :: 0 <= k < |digits| ==> IsDigit(digits[k])
  {
    if digits == "" then 0
    else Value(digits[..|digits| - 1]) * 10 + DigitValue(digits[|digits| - 1])
  }

  /** The value of the digits at the front. */
  function DigitsValue(d: string): nat {
    Value(d[..Span(d, IsDigit)])
  }

  /** An optional sign, then digits. */
  function SignedValue(t: string): int {
    if t != "" && t[0] == '-' then -(DigitsValue(t[1..]) as int)
    else if t != "" && t[0] == '+' then DigitsValue(t[1..])
    else DigitsValue(t)
  }

  /** `atoi`, without the overflow of a C `int`. */
  function Atoi(s: string): int {
    SignedValue(s[Span(s, IsSpace)..])
  }

  lemma Assoc<T>(a: seq<T>, b: seq<T>, c: seq<T>)
    ensures a + b + c == a + (b + c)
  {
  }

  lemma NoTail<T>(s: seq<T>)
    ensures s + [] == s
  {
  }

  /** `parts` separated by `sep`. */
  function Join(parts: seq<string>, sep: string): string {
    if parts == [] then ""
    else if |parts| == 1 then parts[0]
    else parts[0] + sep + Join(parts[1..], sep)
  }

  lemma {:induction false} JoinAppend(parts: seq<string>, last: string, sep: string)
    requires parts != []
    ensures Join(parts + [last], sep) == Join(parts, sep) + sep + last
  {
    if |parts| > 1 {
      JoinAppend(parts[1..], last, sep);
      assert (parts + [last])[1..] == parts[1..] + [last];
    } else {
      assert (parts + [last])[1..] == [last];
    }
  }

  lemma {:induction false} JoinFree(parts: seq<string>, sep: string, c: char)
    requires Free(sep, c) && forall k :: 0 <= k < |parts| ==> Free(parts[k], c)
    ensures Free(Join(parts, sep), c)
  {
    if |parts| > 1 { JoinFree(parts[1..], sep, c); }
  }

  /** The pieces between the occurrences of `c`. */
  function Split(s: string, c: char): (ps: seq<string>)
    ensures ps != []
    ensures forall k :: 0 <= k < |ps| ==> Free(ps[k], c)
    decreases |s|
  {
    var k := Find(s, c);
    if k == |s| then assert s == s[..k]; [s] else [s[..k]] + Split(s[k + 1..], c)
  }

  lemma {:induction false} SplitFirst(p: string, c: char, rest: string)
    requires Free(p, c)
    ensures Split(p + [c] + rest, c) == [p] + Split(rest, c)
  {
    var s := p + [c] + rest;
    assert s[..|p|] == p && s[|p| + 1..] == rest;
    FindIs(s, c, |p|);
  }

  lemma {:induction false} SplitJoin(ps: seq<string>, c: char)
    requires ps != [] && forall k :: 0 <= k < |ps| ==> Free(ps[k], c)
    ensures Split(Join(ps, [c]), c) == ps
  {
    hide Find;
    var s := Join(ps, [c]);
    if |ps| == 1 {
      assert s[..|s|] == ps[0];
      FindIs(s, c, |s|);
    } else {
      SplitFirst(ps[0], c, Join(ps[1..], [c]));
      SplitJoin(ps[1..], c);
      assert ps == [ps[0]] + ps[1..];
    }
  }
}

/**
 The string operations of Python that the ingestion handler relies on, over
 strings as sequences of code points: `str.isspace`, `str.strip`, a
 filter on `strip()` truthiness, `str.join`, ASCII `str.lower` and `str(n)`.
 */
module Strings {

  /** The characters Python's `str.isspace` (and hence `str.strip()`) treats as whitespace. */
  predicate IsWhitespace(c: char) {
    var x := c as int;
    || 0x09 <= x <= 0x0D
    || 0x1C <= x <= 0x20
    || x == 0x85 || x == 0xA0 || x == 0x1680
    || 0x2000 <= x <= 0x200A
    || x == 0x2028 || x == 0x2029 || x == 0x202F || x == 0x205F || x == 0x3000
  }

  /** Every character is whitespace (the empty string included). */
  ghost predicate IsBlank(s: string) {
    forall i :: 0 <= i < |s| ==> IsWhitespace(s[i])
  }

  /** `s.lstrip()`: drops the leading whitespace. */
  function StripLeading(s: string): (r: string)
    ensures |r| <= |s| && r == s[|s| - |r|..]
    ensures forall i :: 0 <= i < |s| - |r| ==> IsWhitespace(s[i])
    ensures |r| > 0 ==> !IsWhitespace(r[0])
  {
    if |s| > 0 && IsWhitespace(s[0]) then StripLeading(s[1..]) else s
  }

  /** `s.rstrip()`: drops the trailing whitespace. */
  function StripTrailing(s: string): (r: string)
    ensures |r| <= |s| && r == s[..|r|]
    ensures forall i :: |r| <= i < |s| ==> IsWhitespace(s[i])
    ensures |r| > 0 ==> !IsWhitespace(r[|r| - 1])
  {
    if |s| > 0 && IsWhitespace(s[|s| - 1]) then StripTrailing(s[..|s| - 1]) else s
  }

  /** `s.strip()`: empty exactly when `s` has no non-whitespace character. */
  function Strip(s: string): (r: string)
    ensures |r| <= |s|
    ensures r == "" <==> IsBlank(s)
  {
    var l := StripLeading(s);
    var r := StripTrailing(l);
    assert r == "" ==> IsBlank(l);
    r
  }

  /** Python truthiness of `s.strip()`, decided without building the stripped string. */
  predicate NonBlank(s: string) {
    if |s| == 0 then false else !IsWhitespace(s[0]) || NonBlank(s[1..])
  }

  /** `NonBlank` is exactly the truthiness of `strip()`. */
  lemma {:induction false} NonBlankIsStripTruthy(s: string)
    ensures NonBlank(s) <==> Strip(s) != ""
  {
    if |s| > 0 {
      NonBlankIsStripTruthy(s[1..]);
      assert IsBlank(s) <==> IsWhitespace(s[0]) && IsBlank(s[1..]) by {
        assert forall i :: 0 < i < |s| ==> s[i] == s[1..][i - 1];
      }
    }
  }

  /** A string is non-blank exactly when some character of it is not whitespace. */
  lemma {:induction false} NonBlankIff(s: string)
    ensures NonBlank(s) <==> !IsBlank(s)
  {
    if |s| > 0 {
      NonBlankIff(s[1..]);
      assert forall i :: 0 < i < |s| ==> s[i] == s[1..][i - 1];
    }
  }

  /** The parts whose `strip()` is truthy, in their original order and unstripped. */
  function KeepNonBlank(parts: seq<string>): (r: seq<string>)
    ensures |r| <= |parts|
  {
    if |parts| == 0 then []
    else
      var init := parts[..|parts| - 1];
      var last := parts[|parts| - 1];
      KeepNonBlank(init) + (if NonBlank(last) then [last] else [])
  }

  /** Every kept part is non-blank. */
  lemma {:induction false} KeptAreNonBlank(parts: seq<string>)
    ensures forall j :: 0 <= j < |KeepNonBlank(parts)| ==> NonBlank(KeepNonBlank(parts)[j])
  {
    if |parts| > 0 {
      KeptAreNonBlank(parts[..|parts| - 1]);
    }
  }

  /** Nothing is kept exactly when every part is blank. */
  lemma {:induction false} KeepNonBlankEmptyIff(parts: seq<string>)
    ensures KeepNonBlank(parts) == [] <==> forall k :: 0 <= k < |parts| ==> !NonBlank(parts[k])
  {
    if |parts| > 0 {
      var n := |parts| - 1;
      KeepNonBlankEmptyIff(parts[..n]);
      assert forall k :: 0 <= k < n ==> parts[..n][k] == parts[k];
    }
  }

  /** Filtering one more part appends it exactly when it is non-blank. */
  lemma KeepNonBlankSnoc(parts: seq<string>, p: string)
    ensures KeepNonBlank(parts + [p]) == KeepNonBlank(parts) + (if NonBlank(p) then [p] else [])
  {
    assert (parts + [p])[..|parts|] == parts;
  }

  /** The positions of the parts that `KeepNonBlank` keeps, in increasing order. */
  function KeptIndices(parts: seq<string>): (idx: seq<nat>)
    ensures |idx| == |KeepNonBlank(parts)|
    ensures forall j :: 0 <= j < |idx| ==> idx[j] < |parts|
  {
    if |parts| == 0 then []
    else
      var n := |parts| - 1;
      KeptIndices(parts[..n]) + (if NonBlank(parts[n]) then [n] else [])
  }

  /** The j-th kept part is the part at the j-th kept position. */
  lemma {:induction false} KeptElements(parts: seq<string>)
    ensures forall j :: 0 <= j < |KeptIndices(parts)| ==> KeepNonBlank(parts)[j] == parts[KeptIndices(parts)[j]]
  {
    if |parts| > 0 {
      var n := |parts| - 1;
      var init := parts[..n];
      KeptElements(init);
      var keep := NonBlank(parts[n]);
      assert KeptIndices(parts) == KeptIndices(init) + (if keep then [n] else []);
      assert KeepNonBlank(parts) == KeepNonBlank(init) + (if keep then [parts[n]] else []);
    }
  }

  /** The kept positions are strictly increasing, so the filter preserves order. */
  lemma {:induction false} KeptIncreasing(parts: seq<string>)
    ensures forall j, j' :: 0 <= j < j' < |KeptIndices(parts)| ==> KeptIndices(parts)[j] < KeptIndices(parts)[j']
  {
    if |parts| > 0 {
      var n := |parts| - 1;
      KeptIncreasing(parts[..n]);
    }
  }

  /** Part k is kept exactly when it is non-blank. */
  lemma {:induction false} KeptIff(parts: seq<string>)
    ensures forall k :: 0 <= k < |parts| ==> (k in KeptIndices(parts) <==> NonBlank(parts[k]))
  {
    if |parts| > 0 {
      var n := |parts| - 1;
      var init := parts[..n];
      KeptIff(init);
      var rest := KeptIndices(init);
      var idx := KeptIndices(parts);
      assert idx == rest + (if NonBlank(parts[n]) then [n] else []);
      forall k | 0 <= k < |parts|
        ensures k in idx <==> NonBlank(parts[k])
      {
        if k < n {
          assert parts[k] == init[k];
          assert k in idx <==> k in rest;
        } else {
          assert n !in rest;
        }
      }
    }
  }

  /** Sum of the lengths of the parts. */
  function TotalLength(parts: seq<string>): nat {
    if |parts| == 0 then 0 else |parts[0]| + TotalLength(parts[1..])
  }

  /** `sep.join(parts)`. */
  function Join(sep: string, parts: seq<string>): (r: string)
    ensures |parts| == 0 ==> r == ""
    ensures |parts| > 0 ==> |r| == TotalLength(parts) + |sep| * (|parts| - 1)
    ensures |parts| > 0 ==> r[..|parts[0]|] == parts[0]
  {
    if |parts| == 0 then ""
    else if |parts| == 1 then parts[0]
    else parts[0] + sep + Join(sep, parts[1..])
  }

  /** Where part j starts in `sep.join(parts)`: after the earlier parts, each followed by a separator. */
  function JoinOffset(sep: string, parts: seq<string>, j: nat): nat
    requires j <= |parts|
  {
    if j == 0 then 0 else |parts[0]| + |sep| + JoinOffset(sep, parts[1..], j - 1)
  }

  /** The offset of part j is the length of the parts before it plus j separators. */
  lemma {:induction false} JoinOffsetValue(sep: string, parts: seq<string>, j: nat)
    requires j <= |parts|
    ensures JoinOffset(sep, parts, j) == TotalLength(parts[..j]) + j * |sep|
  {
    if j > 0 {
      JoinOffsetValue(sep, parts[1..], j - 1);
      assert parts[..j][1..] == parts[1..][..j - 1];
      assert j * |sep| == (j - 1) * |sep| + |sep|;
    } else {
      assert parts[..0] == [];
    }
  }

  /** In `sep.join(parts)`, part j sits at its offset, right after a separator when j > 0. */
  lemma {:induction false} JoinPlacement(sep: string, parts: seq<string>, j: nat)
    requires j < |parts|
    ensures var r := Join(sep, parts);
            var o := JoinOffset(sep, parts, j);
            && o + |parts[j]| <= |r| && r[o .. o + |parts[j]|] == parts[j]
            && (j > 0 ==> |sep| <= o && r[o - |sep| .. o] == sep)
  {
    if j > 0 {
      var head := parts[0] + sep;
      var rest := Join(sep, parts[1..]);
      assert Join(sep, parts) == head + rest;
      JoinPlacement(sep, parts[1..], j - 1);
      var o' := JoinOffset(sep, parts[1..], j - 1);
      assert parts[1..][j - 1] == parts[j];
      SliceOfConcat(head, rest, o', o' + |parts[j]|);
      if j > 1 {
        SliceOfConcat(head, rest, o' - |sep|, o');
      } else {
        assert (head + rest)[|parts[0]| .. |head|] == sep;
      }
    }
  }

  /** A slice of `a + b` lying past `a` is the matching slice of `b`. */
  lemma SliceOfConcat(a: string, b: string, lo: nat, hi: nat)
    requires lo <= hi <= |b|
    ensures (a + b)[|a| + lo .. |a| + hi] == b[lo .. hi]
  {
  }

  /** `s.find(c)`: the first position of `c` in `s`, or -1. */
  function IndexOf(s: string, c: char): (i: int)
    ensures -1 <= i < |s|
    ensures i >= 0 ==> s[i] == c
    ensures forall t :: 0 <= t < |s| && (i < 0 || t < i) ==> s[t] != c
  {
    if |s| == 0 then -1
    else if s[0] == c then 0
    else
      var j := IndexOf(s[1..], c);
      if j < 0 then -1 else j + 1
  }

  /** A position holding the first occurrence of `c` is what `IndexOf` finds. */
  lemma IndexOfFirst(s: string, c: char, i: nat)
    requires i < |s| && s[i] == c
    requires forall t :: 0 <= t < i ==> s[t] != c
    ensures IndexOf(s, c) == i
  {
  }

  /** `s.rfind(c)`: the last position of `c` in `s`, or -1. */
  function LastIndexOf(s: string, c: char): (i: int)
    ensures -1 <= i < |s|
    ensures i >= 0 ==> s[i] == c
    ensures forall t :: i < t < |s| ==> s[t] != c
  {
    if |s| == 0 then -1
    else if s[|s| - 1] == c then |s| - 1
    else LastIndexOf(s[..|s| - 1], c)
  }

  /** A position holding the last occurrence of `c` is what `LastIndexOf` finds. */
  lemma LastIndexOfLast(s: string, c: char, i: int)
    requires -1 <= i < |s| && (i >= 0 ==> s[i] == c)
    requires forall t :: i < t < |s| ==> s[t] != c
    ensures LastIndexOf(s, c) == i
  {
  }

  /** `s.split(c)`: the pieces between the occurrences of `c`; never empty. */
  function Split(s: string, c: char): (parts: seq<string>)
    ensures |parts| > 0
    decreases |s|
  {
    var i := IndexOf(s, c);
    if i < 0 then [s] else [s[..i]] + Split(s[i + 1..], c)
  }

  /** Splitting a join at a separator no part contains gives back the parts. */
  lemma {:induction false} SplitJoin(parts: seq<string>, c: char)
    requires |parts| > 0
    requires forall k, t :: 0 <= k < |parts| && 0 <= t < |parts[k]| ==> parts[k][t] != c
    ensures Split(Join([c], parts), c) == parts
  {
    if |parts| > 1 {
      var rest := Join([c], parts[1..]);
      var s := parts[0] + [c] + rest;
      assert Join([c], parts) == s;
      assert forall t :: 0 <= t < |parts[0]| ==> s[t] == parts[0][t];
      assert s[|parts[0]|] == c;
      IndexOfFirst(s, c, |parts[0]|);
      assert s[..|parts[0]|] == parts[0];
      assert s[|parts[0]| + 1..] == rest;
      SplitJoin(parts[1..], c);
      assert [parts[0]] + parts[1..] == parts;
    }
  }

  /** ASCII `str.lower()`. */
  function AsciiLower(s: string): string {
    seq(|s|, i requires 0 <= i < |s| => if 'A' <= s[i] <= 'Z' then (s[i] as int + 32) as char else s[i])
  }

  /** Python `s[:n]` for n >= 0. */
  function Prefix(s: string, n: nat): (r: string)
    ensures |r| <= n && |r| <= |s| && r == s[..|r|]
    ensures |s| <= n ==> r == s
  {
    if |s| <= n then s else s[..n]
  }

  predicate IsDigit(c: char) {
    '0' <= c <= '9'
  }

  predicate IsDecimal(s: string) {
    forall i :: 0 <= i < |s| ==> IsDigit(s[i])
  }

  function DigitChar(d: nat): (c: char)
    requires d < 10
    ensures IsDigit(c)
  {
    ('0' as int + d) as char
  }

  /** The value of a string of decimal digits. */
  function ParseNat(s: string): nat
    requires IsDecimal(s)
  {
    if |s| == 0 then 0 else ParseNat(s[..|s| - 1]) * 10 + (s[|s| - 1] as int - '0' as int)
  }

  /** `str(n)`: the canonical decimal numeral of n, which parses back to n. */
  function NatToString(n: nat): (s: string)
    ensures |s| > 0 && IsDecimal(s)
    ensures |s| > 1 ==> s[0] != '0'
    ensures ParseNat(s) == n
  {
    if n < 10 then [DigitChar(n)]
    else
      var t := NatToString(n / 10);
      var s := t + [DigitChar(n % 10)];
      assert s[..|s| - 1] == t;
      s
  }
}

/** The few Python `str` operations the core relies on, with the semantics of
    CPython 3: `strip()`, `startswith`, `sep in s`, `s.split(sep)`,
    `sep.join(parts)`, slicing `s[:n]`, `lower()` (as far as matching an ASCII
    word goes) and `str(n)` for a natural number. */
module Text {
  import opened Wrappers

  /** Python's `str.isspace()` for a single character: the whitespace that
      `strip()` removes. */
  predicate IsSpace(c: char) {
    || c == ' ' || c == '\t' || c == '\n' || c == '\r'
    || c == '\U{000B}' || c == '\U{000C}'
    || ('\U{001C}' <= c <= '\U{001F}')
    || c == '\U{0085}' || c == '\U{00A0}' || c == '\U{1680}'
    || ('\U{2000}' <= c <= '\U{200A}')
    || c == '\U{2028}' || c == '\U{2029}' || c == '\U{202F}'
    || c == '\U{205F}' || c == '\U{3000}'
  }

  predicate AllSpace(s: string) {
    forall i :: 0 <= i < |s| ==> IsSpace(s[i])
  }

  /** Number of whitespace characters at the start of `s`. */
  function LeadingSpaces(s: string): (k: nat)
    ensures k <= |s|
    ensures AllSpace(s[..k])
    ensures k < |s| ==> !IsSpace(s[k])
  {
    if |s| > 0 && IsSpace(s[0]) then 1 + LeadingSpaces(s[1..]) else 0
  }

  /** Number of whitespace characters at the end of `s`. */
  function TrailingSpaces(s: string): (k: nat)
    ensures k <= |s|
    ensures AllSpace(s[|s| - k..])
    ensures k < |s| ==> !IsSpace(s[|s| - 1 - k])
  {
    if |s| > 0 && IsSpace(s[|s| - 1]) then 1 + TrailingSpaces(s[..|s| - 1]) else 0
  }

  /** Python's `s.strip()`: the result neither starts nor ends with
      whitespace (see `StripPads` for what was removed). */
  function Strip(s: string): (r: string)
    ensures |r| <= |s|
    ensures r == [] || (!IsSpace(r[0]) && !IsSpace(r[|r| - 1]))
  {
    var a := LeadingSpaces(s);
    var t := s[a..];
    t[..|t| - TrailingSpaces(t)]
  }

  /** Cutting a sequence at two points and gluing the pieces back. */
  lemma {:induction false} ThreePieces<T>(s: seq<T>, a: nat, j: nat)
    requires a <= j <= |s|
    ensures s == s[..a] + s[a..j] + s[j..]
  {
  }

  /** Slicing a suffix is slicing the whole. */
  lemma {:induction false} SliceOfSuffix<T>(s: seq<T>, a: nat, m: nat, e: nat)
    requires a <= |s| && m <= e <= |s| - a
    ensures s[a..][m..e] == s[a + m..a + e]
    ensures s[a..][m..] == s[a + m..]
  {
  }

  /** A prefix of a suffix is a slice of the whole. */
  lemma {:induction false} PrefixOfSuffix<T>(s: seq<T>, a: nat, m: nat, r: seq<T>)
    requires a <= |s| && m <= |s| - a && r == s[a..][..m]
    ensures a + |r| <= |s| && r == s[a..a + |r|]
  {
  }

  /** `Strip(s)` is the slice of `s` between the leading and the trailing
      whitespace. */
  lemma {:induction false} StripSlice(s: string)
    ensures LeadingSpaces(s) + |Strip(s)| <= |s|
    ensures Strip(s) == s[LeadingSpaces(s)..LeadingSpaces(s) + |Strip(s)|]
  {
    var a := LeadingSpaces(s);
    var t := s[a..];
    PrefixOfSuffix(s, a, |t| - TrailingSpaces(t), Strip(s));
  }

  /** Everything after the stripped text is whitespace. */
  lemma {:induction false} StripTrailing(s: string)
    ensures LeadingSpaces(s) + |Strip(s)| <= |s|
    ensures AllSpace(s[LeadingSpaces(s) + |Strip(s)|..])
  {
    var a := LeadingSpaces(s);
    var t := s[a..];
    var b := TrailingSpaces(t);
    var m := |t| - b;
    assert Strip(s) == t[..m];
    var rest := t[m..];
    assert AllSpace(rest);
    SliceOfSuffix(s, a, m, m);
    assert s[a + m..] == rest;
  }

  /** What `strip()` removes is whitespace only, on both sides: the leading
      whitespace, the stripped text and the trailing whitespace make up `s`. */
  lemma {:induction false} StripPads(s: string)
    ensures LeadingSpaces(s) + |Strip(s)| <= |s|
    ensures s == s[..LeadingSpaces(s)] + Strip(s) + s[LeadingSpaces(s) + |Strip(s)|..]
    ensures AllSpace(s[..LeadingSpaces(s)]) && AllSpace(s[LeadingSpaces(s) + |Strip(s)|..])
  {
    StripSlice(s);
    StripTrailing(s);
    ThreePieces(s, LeadingSpaces(s), LeadingSpaces(s) + |Strip(s)|);
  }

  /** Stripping twice changes nothing more. */
  lemma {:induction false} StripIdempotent(s: string)
    ensures Strip(Strip(s)) == Strip(s)
  {
    var r := Strip(s);
    assert LeadingSpaces(r) == 0;
    assert TrailingSpaces(r) == 0;
  }

  /** Python's `s.startswith(p)` */
  predicate StartsWith(s: string, p: string) {
    |p| <= |s| && s[..|p|] == p
  }

  /** Python's `s.endswith(p)` */
  predicate EndsWith(s: string, p: string) {
    |p| <= |s| && s[|s| - |p|..] == p
  }

  lemma {:induction false} AppendAssoc(a: string, b: string, c: string)
    ensures a + (b + c) == a + b + c
  {
  }

  /** Where the three parts of a concatenation start and end. */
  lemma {:induction false} ThreeParts(a: string, b: string, c: string)
    ensures StartsWith(a + b + c, a) && StartsWith(a + b + c, a + b)
    ensures (a + b + c)[|a|..] == b + c
    ensures EndsWith(a + b + c, c)
  {
    var s := a + b + c;
    assert s[..|a|] == a;
    assert s[..|a + b|] == a + b;
    assert s[|s| - |c|..] == c;
  }

  /** `sep` occurs in `s` starting at index `i` */
  predicate OccursAt(s: string, sep: string, i: nat) {
    i + |sep| <= |s| && s[i..i + |sep|] == sep
  }

  /** Python's `s.find(sep)`, with `None` for -1: the leftmost occurrence. */
  function IndexOf(s: string, sep: string): (r: Option<nat>)
    ensures r.Some? ==> OccursAt(s, sep, r.value)
    ensures r.Some? ==> forall j: nat :: j < r.value ==> !OccursAt(s, sep, j)
    ensures r.None? ==> forall j: nat :: !OccursAt(s, sep, j)
    decreases |s|
  {
    if |s| < |sep| then None
    else if s[..|sep|] == sep then Some(0)
    else
      assert !OccursAt(s, sep, 0) by { assert s[..|sep|] == s[0..|sep|]; }
      assert forall j: nat :: 0 < j ==> (OccursAt(s, sep, j) <==> OccursAt(s[1..], sep, j - 1)) by {
        forall j: nat | 0 < j
          ensures OccursAt(s, sep, j) <==> OccursAt(s[1..], sep, j - 1)
        {
          if j + |sep| <= |s| {
            assert s[1..][j - 1..j - 1 + |sep|] == s[j..j + |sep|];
          }
        }
      }
      match IndexOf(s[1..], sep)
      case None => None
      case Some(i) => Some(i + 1)
  }

  /** Python's `sep in s` */
  predicate Contains(s: string, sep: string) {
    IndexOf(s, sep).Some?
  }

  /** An occurrence at any index is enough for `sep in s`. */
  lemma {:induction false} ContainsAt(s: string, sep: string, i: nat)
    requires OccursAt(s, sep, i)
    ensures Contains(s, sep)
  {
  }

  /** Text found in `s` is still found once more text follows `s`. */
  lemma {:induction false} ContainsLeft(s: string, b: string, sep: string)
    requires Contains(s, sep)
    ensures Contains(s + b, sep)
  {
    var i := IndexOf(s, sep).value;
    assert (s + b)[i..i + |sep|] == s[i..i + |sep|];
    ContainsAt(s + b, sep, i);
  }

  /** Text found in `s` is still found once more text precedes `s`. */
  lemma {:induction false} ContainsRight(a: string, s: string, sep: string)
    requires Contains(s, sep)
    ensures Contains(a + s, sep)
  {
    var i := IndexOf(s, sep).value;
    assert (a + s)[|a| + i..|a| + i + |sep|] == s[i..i + |sep|];
    ContainsAt(a + s, sep, |a| + i);
  }

  /** Text found in `m` is found in any text that has `m` as a piece. */
  lemma {:induction false} ContainsPiece(a: string, m: string, b: string, sep: string)
    requires Contains(m, sep)
    ensures Contains(a + m + b, sep)
  {
    ContainsRight(a, m, sep);
    ContainsLeft(a + m, b, sep);
  }

  /** Texts all found in `m` are all found in any text ending with `m`. */
  lemma {:induction false} AllInRight(a: string, m: string, ts: seq<string>)
    requires forall k :: 0 <= k < |ts| ==> Contains(m, ts[k])
    ensures forall k :: 0 <= k < |ts| ==> Contains(a + m, ts[k])
  {
    forall k | 0 <= k < |ts|
      ensures Contains(a + m, ts[k])
    {
      ContainsRight(a, m, ts[k]);
    }
  }

  /** Texts all found in `m` are all found in any text with `m` as a piece. */
  lemma {:induction false} AllInPiece(a: string, m: string, b: string, ts: seq<string>)
    requires forall k :: 0 <= k < |ts| ==> Contains(m, ts[k])
    ensures forall k :: 0 <= k < |ts| ==> Contains(a + m + b, ts[k])
  {
    forall k | 0 <= k < |ts|
      ensures Contains(a + m + b, ts[k])
    {
      ContainsPiece(a, m, b, ts[k]);
    }
  }

  /** The middle piece of a concatenation can be cut back out. */
  lemma {:induction false} MiddleOf<T>(a: seq<T>, x: seq<T>, b: seq<T>)
    ensures (a + x + b)[|a|..|a| + |x|] == x
  {
  }

  /** Every string contains itself. */
  lemma {:induction false} ContainsSelf(s: string)
    ensures Contains(s, s)
  {
    assert s[0..|s|] == s;
    ContainsAt(s, s, 0);
  }

  /** For a one-character separator, `sep in s` is character membership. */
  lemma {:induction false} ContainsChar(s: string, c: char)
    ensures Contains(s, [c]) <==> c in s
  {
    if c in s {
      var j :| 0 <= j < |s| && s[j] == c;
      assert OccursAt(s, [c], j);
    }
    if Contains(s, [c]) {
      var i := IndexOf(s, [c]).value;
      assert s[i..i + 1] == [c];
      assert s[i] == c;
    }
  }

  /** Python's `s.rfind(c)` for one character, with `None` for -1: the
      rightmost occurrence. */
  function LastIndexOf(s: string, c: char): (r: Option<nat>)
    ensures r.Some? ==> r.value < |s| && s[r.value] == c && c !in s[r.value + 1..]
    ensures r.None? ==> c !in s
  {
    if |s| == 0 then None
    else if s[|s| - 1] == c then Some(|s| - 1)
    else
      var r := LastIndexOf(s[..|s| - 1], c);
      assert s == s[..|s| - 1] + [s[|s| - 1]];
      if r.Some? then
        assert s[r.value + 1..] == s[..|s| - 1][r.value + 1..] + [s[|s| - 1]];
        r
      else r
  }

  /** Python's `s.split(sep)` for a non-empty separator: the pieces between the
      leftmost non-overlapping occurrences of `sep` (see `SplitPieces` and
      `SplitCutsLeftmost`). */
  function Split(s: string, sep: string): (parts: seq<string>)
    requires |sep| > 0
    ensures |parts| >= 1
    decreases |s|
  {
    match IndexOf(s, sep)
    case None => [s]
    case Some(i) => [s[..i]] + Split(s[i + |sep|..], sep)
  }

  /** The text before the leftmost occurrence does not contain `sep`. */
  lemma {:induction false} BeforeFirstAvoids(s: string, sep: string, i: nat)
    requires |sep| > 0 && IndexOf(s, sep) == Some(i)
    ensures !Contains(s[..i], sep)
  {
    var head := s[..i];
    forall j: nat | j + |sep| <= |head|
      ensures !OccursAt(head, sep, j)
    {
      assert !OccursAt(s, sep, j);
      assert head[j..j + |sep|] == s[j..j + |sep|];
    }
  }

  /** No piece of a split contains the separator. */
  lemma {:induction false} SplitPieces(s: string, sep: string)
    requires |sep| > 0
    ensures forall k :: 0 <= k < |Split(s, sep)| ==> !Contains(Split(s, sep)[k], sep)
    decreases |s|
  {
    match IndexOf(s, sep)
    case None =>
    case Some(i) =>
      var rest := s[i + |sep|..];
      var parts := Split(rest, sep);
      BeforeFirstAvoids(s, sep, i);
      SplitPieces(rest, sep);
      assert Split(s, sep) == [s[..i]] + parts;
      assert forall k :: 0 < k < |parts| + 1 ==> ([s[..i]] + parts)[k] == parts[k - 1];
  }

  /** Each cut of a split is at the leftmost occurrence of `sep` in what is
      left: the text from piece `k` on starts its first occurrence right
      after piece `k`. With `JoinSplit` and `SplitPieces` this fixes the
      pieces completely ("a===b" splits at "==" into "a" and "=b"). */
  lemma {:induction false} SplitCutsLeftmost(s: string, sep: string)
    requires |sep| > 0
    ensures forall k :: 0 <= k < |Split(s, sep)| - 1 ==>
              IndexOf(Join(Split(s, sep)[k..], sep), sep) == Some(|Split(s, sep)[k]|)
    decreases |s|
  {
    match IndexOf(s, sep)
    case None =>
    case Some(i) =>
      var rest := s[i + |sep|..];
      var parts := Split(rest, sep);
      var all := [s[..i]] + parts;
      assert Split(s, sep) == all;
      SplitCutsLeftmost(rest, sep);
      forall k | 0 <= k < |all| - 1
        ensures IndexOf(Join(all[k..], sep), sep) == Some(|all[k]|)
      {
        if k == 0 {
          JoinSplit(s, sep);
          assert all[0..] == all;
        } else {
          assert all[k..] == parts[k - 1..];
          assert all[k] == parts[k - 1];
        }
      }
  }

  /** Python's `sep.join(parts)` */
  function Join(parts: seq<string>, sep: string): string {
    if |parts| == 0 then ""
    else if |parts| == 1 then parts[0]
    else parts[0] + sep + Join(parts[1..], sep)
  }

  lemma {:induction false} JoinCons(head: string, tail: seq<string>, sep: string)
    requires |tail| >= 1
    ensures Join([head] + tail, sep) == head + sep + Join(tail, sep)
  {
    assert ([head] + tail)[1..] == tail;
  }

  /** Joining the pieces of a split with the same separator gives back the
      original text. */
  lemma {:induction false} JoinSplit(s: string, sep: string)
    requires |sep| > 0
    ensures Join(Split(s, sep), sep) == s
    decreases |s|
  {
    var found := IndexOf(s, sep);
    if found.Some? {
      var i := found.value;
      var rest := s[i + |sep|..];
      assert Split(s, sep) == [s[..i]] + Split(rest, sep);
      JoinSplit(rest, sep);
      JoinCons(s[..i], Split(rest, sep), sep);
      assert s == s[..i] + sep + rest;
    }
  }

  /** Splitting a join gives back the pieces, provided no piece holds the
      first character of the separator (so no occurrence can start inside a
      piece). */
  lemma {:induction false} SplitJoin(parts: seq<string>, sep: string)
    requires |parts| >= 1 && |sep| > 0
    requires forall k :: 0 <= k < |parts| ==> sep[0] !in parts[k]
    ensures Split(Join(parts, sep), sep) == parts
  {
    if |parts| == 1 {
      forall j: nat | j + |sep| <= |parts[0]|
        ensures !OccursAt(parts[0], sep, j)
      {
        assert parts[0][j..j + |sep|][0] == parts[0][j];
      }
    } else {
      var p := parts[0];
      var rest := Join(parts[1..], sep);
      var s := p + sep + rest;
      assert OccursAt(s, sep, |p|);
      forall j: nat | j < |p|
        ensures !OccursAt(s, sep, j)
      {
        assert s[j] == p[j];
      }
      assert Join(parts, sep) == s;
      assert IndexOf(s, sep) == Some(|p|);
      assert s[..|p|] == p;
      assert s[|p| + |sep|..] == rest;
      assert Split(s, sep) == [p] + Split(rest, sep);
      SplitJoin(parts[1..], sep);
      assert parts == [p] + parts[1..];
    }
  }

  /** Python's slice `s[:n]` */
  function Take<T>(s: seq<T>, n: nat): (r: seq<T>)
    ensures |r| == if |s| <= n then |s| else n
    ensures r == s[..|r|]
  {
    if |s| <= n then s else s[..n]
  }

  /** Lower-casing as far as comparison with an ASCII word is concerned:
      `c.lower()` is ASCII for exactly the ASCII characters and the Kelvin
      sign (which lowers to 'k'); every other character lowers to text
      containing a non-ASCII character, which no ASCII word contains. */
  function LowerChar(c: char): char {
    if 'A' <= c <= 'Z' then (c as int + 32) as char
    else if c == '\U{212A}' then 'k'
    else c
  }

  function Lower(s: string): (r: string)
    ensures |r| == |s|
    ensures forall i :: 0 <= i < |s| ==> r[i] == LowerChar(s[i])
  {
    seq(|s|, i requires 0 <= i < |s| => LowerChar(s[i]))
  }

  function DigitChar(d: nat): char
    requires d < 10
  {
    ('0' as int + d) as char
  }

  predicate IsDigit(c: char) {
    '0' <= c <= '9'
  }

  /** Python's `str(n)` for `n >= 0`: decimal digits without leading zeros. */
  function NatToString(n: nat): (s: string)
    ensures |s| >= 1
    ensures forall i :: 0 <= i < |s| ==> IsDigit(s[i])
    ensures s[0] == '0' ==> n == 0
    decreases n
  {
    if n < 10 then [DigitChar(n)] else NatToString(n / 10) + [DigitChar(n % 10)]
  }

  /** The number a string of decimal digits denotes (Python's `int(s)`). */
  function DecimalValue(s: string): nat
    requires forall i :: 0 <= i < |s| ==> IsDigit(s[i])
  {
    if s == [] then 0
    else
      assert IsDigit(s[|s| - 1]);
      DecimalValue(s[..|s| - 1]) * 10 + (s[|s| - 1] as int - '0' as int)
  }

  /** `int(str(n)) == n`: the rendering of a count loses nothing. */
  lemma {:induction false} DecimalRoundTrip(n: nat)
    ensures DecimalValue(NatToString(n)) == n
    decreases n
  {
    var s := NatToString(n);
    if n >= 10 {
      var front := NatToString(n / 10);
      DecimalRoundTrip(n / 10);
      assert s == front + [DigitChar(n % 10)];
      assert s[..|s| - 1] == front;
      assert DecimalValue(s) == DecimalValue(front) * 10 + n % 10;
    } else {
      assert s == [DigitChar(n)];
      assert s[..|s| - 1] == [];
    }
  }
}

/** The few .NET string operations the resolution-naming code relies on,
    written out over `seq<char>` with ordinal (culture-free) comparison:
    `Replace`, `StartsWith`, `EndsWith`, `LastIndexOf`, `TrimStart`,
    `Split(char)`, `string.Join` and `int.TryParse`, plus `int.ToString`
    for stating round trips. */
module Text {
  import opened Common

  // ---------------------------------------------------------------------
  // Character replacement, prefixes and suffixes
  // ---------------------------------------------------------------------

  /** `s.Replace(from, to)`: every `from` becomes `to`, nothing else moves. */
  function Replace(s: string, from: char, to: char): (r: string)
    ensures |r| == |s|
    ensures forall i :: 0 <= i < |s| ==> r[i] == (if s[i] == from then to else s[i])
    ensures from != to ==> from !in r
  {
    if s == [] then []
    else [if s[0] == from then to else s[0]] + Replace(s[1..], from, to)
  }

  /** Text without `from` is left as it is. */
  lemma ReplaceAbsent(s: string, from: char, to: char)
    requires from !in s
    ensures Replace(s, from, to) == s
  {
    var r := Replace(s, from, to);
    forall i | 0 <= i < |s|
      ensures r[i] == s[i]
    {
      assert s[i] != from;
    }
  }

  /** Replacing in a concatenation replaces in both parts. */
  lemma {:induction false} ReplaceAppend(a: string, b: string, from: char, to: char)
    ensures Replace(a + b, from, to) == Replace(a, from, to) + Replace(b, from, to)
    decreases |a|
  {
    if a != [] {
      assert (a + b)[1..] == a[1..] + b;
      ReplaceAppend(a[1..], b, from, to);
    } else {
      assert a + b == b;
    }
  }

  predicate StartsWith(s: string, prefix: string) {
    |prefix| <= |s| && s[..|prefix|] == prefix
  }

  predicate EndsWith(s: string, suffix: string) {
    |suffix| <= |s| && s[|s| - |suffix|..] == suffix
  }

  /** A prefix of a prefix is a prefix. */
  lemma StartsWithTransitive(s: string, t: string, u: string)
    requires StartsWith(s, t) && StartsWith(t, u)
    ensures StartsWith(s, u)
  {
    assert s[..|u|] == s[..|t|][..|u|];
  }

  lemma EndsWithAppended(a: string, suffix: string)
    ensures EndsWith(a + suffix, suffix)
  {
    assert (a + suffix)[|a|..] == suffix;
  }

  /** `s.LastIndexOf(c)`: the index of the last `c`, or -1 when there is none. */
  function LastIndexOf(s: string, c: char): (r: int)
    ensures -1 <= r < |s|
    ensures 0 <= r ==> s[r] == c
    ensures forall i :: r < i < |s| ==> s[i] != c
  {
    LastIndexBelow(s, c, |s|)
  }

  /** The last `c` among the first `n` characters, scanning down from `n`. */
  function LastIndexBelow(s: string, c: char, n: nat): (r: int)
    requires n <= |s|
    ensures -1 <= r < n
    ensures 0 <= r ==> s[r] == c
    ensures forall i :: r < i < n ==> s[i] != c
  {
    if n == 0 then -1
    else if s[n - 1] == c then n - 1
    else LastIndexBelow(s, c, n - 1)
  }

  /** `s.TrimStart(c)`: drops the leading run of `c`. */
  function TrimStart(s: string, c: char): (r: string)
    ensures |r| <= |s| && r == s[|s| - |r|..]
    ensures r == [] || r[0] != c
    ensures forall i :: 0 <= i < |s| - |r| ==> s[i] == c
  {
    if s != [] && s[0] == c then TrimStart(s[1..], c) else s
  }

  /** `LastIndexOf` finds nothing exactly when the character is absent. */
  lemma LastIndexOfNone(s: string, c: char)
    ensures LastIndexOf(s, c) < 0 <==> c !in s
  {
    var r := LastIndexOf(s, c);
    assert r >= 0 ==> s[r] == c;
  }

  /** A separator with no other separator after it is the last one. */
  lemma LastIndexOfAround(a: string, c: char, b: string)
    requires c !in b
    ensures LastIndexOf(a + [c] + b, c) == |a|
  {
    var s := a + [c] + b;
    assert s[|a|] == c;
    forall i | |a| < i < |s|
      ensures s[i] != c
    {
      assert s[i] == b[i - |a| - 1];
    }
  }

  /** Text appended without the character cannot hold its last position. */
  lemma LastIndexOfAppend(a: string, b: string, c: char)
    requires c !in b
    ensures LastIndexOf(a + b, c) < |a|
  {
    var s := a + b;
    forall i | |a| <= i < |s|
      ensures s[i] != c
    {
      assert s[i] == b[i - |a|];
    }
  }

  /** Text put in front of one holding the character shifts its last position. */
  lemma LastIndexOfShift(a: string, b: string, c: char)
    requires LastIndexOf(b, c) >= 0
    ensures LastIndexOf(a + b, c) == |a| + LastIndexOf(b, c)
  {
    var s, k := a + b, LastIndexOf(b, c);
    assert s[|a| + k] == c;
    forall i | |a| + k < i < |s|
      ensures s[i] != c
    {
      assert s[i] == b[i - |a|];
    }
  }

  // ---------------------------------------------------------------------
  // Split on one character, and Join
  // ---------------------------------------------------------------------

  /** `s.Split(sep)`: the pieces between separators, at least one piece.
      Written from the end: the pieces before the last separator, then the
      text after it. */
  function Split(s: string, sep: char): (r: seq<string>)
    ensures |r| >= 1
    decreases |s|
  {
    var k := LastIndexOf(s, sep);
    if k < 0 then [s] else Split(s[..k], sep) + [s[k + 1..]]
  }

  /** `string.Join(sep, tokens)`. */
  function Join(sep: char, tokens: seq<string>): string {
    if tokens == [] then ""
    else if |tokens| == 1 then tokens[0]
    else Join(sep, tokens[..|tokens| - 1]) + [sep] + tokens[|tokens| - 1]
  }

  /** Text without the separator is one piece, and text with it is several. */
  lemma SplitSingle(s: string, sep: char)
    ensures sep !in s ==> Split(s, sep) == [s]
    ensures sep in s ==> |Split(s, sep)| >= 2
  {
    LastIndexOfNone(s, sep);
  }

  /** Joining the pieces with the separator gives the text back. */
  lemma {:induction false} JoinSplit(s: string, sep: char)
    ensures Join(sep, Split(s, sep)) == s
    decreases |s|
  {
    var k := LastIndexOf(s, sep);
    if k >= 0 {
      var tokens := Split(s, sep);
      JoinSplit(s[..k], sep);
      assert tokens[..|tokens| - 1] == Split(s[..k], sep);
      assert s == s[..k] + [sep] + s[k + 1..];
    }
  }

  /** A separator splits the text into the pieces before and after it. */
  lemma {:induction false} SplitAround(a: string, sep: char, b: string)
    ensures Split(a + [sep] + b, sep) == Split(a, sep) + Split(b, sep)
    decreases |b|
  {
    var kb := LastIndexOf(b, sep);
    if kb < 0 {
      SplitAroundLast(a, sep, b);
    } else {
      SplitAroundStep(a, sep, b);
      SplitAround(a, sep, b[..kb]);
      assert Split(a, sep) + Split(b[..kb], sep) + [b[kb + 1..]]
          == Split(a, sep) + (Split(b[..kb], sep) + [b[kb + 1..]]);
    }
  }

  /** When the separator is the last one, the text after it is the last piece. */
  lemma SplitAroundLast(a: string, sep: char, b: string)
    requires LastIndexOf(b, sep) < 0
    ensures Split(a + [sep] + b, sep) == Split(a, sep) + Split(b, sep)
  {
    var s := a + [sep] + b;
    LastIndexOfNone(b, sep);
    LastIndexOfAround(a, sep, b);
    assert s[..|a|] == a && s[|a| + 1..] == b;
  }

  /** Otherwise the last piece is the text after the last separator of `b`. */
  lemma SplitAroundStep(a: string, sep: char, b: string)
    requires LastIndexOf(b, sep) >= 0
    ensures var kb := LastIndexOf(b, sep);
            && Split(a + [sep] + b, sep) == Split(a + [sep] + b[..kb], sep) + [b[kb + 1..]]
            && Split(b, sep) == Split(b[..kb], sep) + [b[kb + 1..]]
  {
    var s := a + [sep] + b;
    var kb := LastIndexOf(b, sep);
    var k := |a| + 1 + kb;
    assert LastIndexOf(s, sep) == k by {
      assert s == (a + [sep]) + b;
      LastIndexOfShift(a + [sep], b, sep);
    }
    assert s[..k] == a + [sep] + b[..kb];
    assert s[k + 1..] == b[kb + 1..];
  }

  /** Everything but the last piece, joined again, is the text before the last
      separator; the last piece is the text after it. */
  lemma JoinAllButLast(s: string, sep: char)
    requires |Split(s, sep)| >= 2
    ensures var tokens := Split(s, sep);
            var k := LastIndexOf(s, sep);
            k >= 0
            && Join(sep, tokens[..|tokens| - 1]) == s[..k]
            && tokens[|tokens| - 1] == s[k + 1..]
  {
    var k := LastIndexOf(s, sep);
    var tokens := Split(s, sep);
    assert tokens[..|tokens| - 1] == Split(s[..k], sep);
    JoinSplit(s[..k], sep);
  }

  /** `s.Split(sep)` has exactly two pieces when `s` holds exactly one
      separator, and then they are the text before and after it. */
  lemma SplitInTwo(s: string, sep: char)
    ensures var k := LastIndexOf(s, sep);
            |Split(s, sep)| == 2 <==> (k >= 0 && sep !in s[..k])
    ensures var k := LastIndexOf(s, sep);
            k >= 0 && sep !in s[..k] ==> Split(s, sep) == [s[..k], s[k + 1..]]
  {
    var k := LastIndexOf(s, sep);
    if k >= 0 {
      SplitSingle(s[..k], sep);
    }
  }

  // ---------------------------------------------------------------------
  // int.TryParse and int.ToString
  // ---------------------------------------------------------------------

  predicate IsDigit(c: char) { '0' <= c <= '9' }

  predicate AllDigits(s: string) { forall i :: 0 <= i < |s| ==> IsDigit(s[i]) }

  /** The value of a run of decimal digits, most significant first. */
  function DigitsValue(s: string): nat
    requires AllDigits(s)
  {
    DigitsValueBelow(s, |s|)
  }

  /** The value of the first `n` digits of `s`. */
  function DigitsValueBelow(s: string, n: nat): nat
    requires n <= |s| && AllDigits(s)
  {
    if n == 0 then 0
    else DigitsValueBelow(s, n - 1) * 10 + (s[n - 1] as int - '0' as int)
  }

  /** The value of a prefix depends only on the digits in it. */
  lemma {:induction false} DigitsValueBelowPrefix(s: string, t: string, n: nat)
    requires n <= |s| && n <= |t| && AllDigits(s) && AllDigits(t)
    requires s[..n] == t[..n]
    ensures DigitsValueBelow(s, n) == DigitsValueBelow(t, n)
  {
    if n > 0 {
      assert s[n - 1] == s[..n][n - 1] == t[..n][n - 1] == t[n - 1];
      assert s[..n - 1] == s[..n][..n - 1];
      assert t[..n - 1] == t[..n][..n - 1];
      DigitsValueBelowPrefix(s, t, n - 1);
    }
  }

  /** `int.TryParse(s, out v)` restricted to an optional sign and ASCII digits:
      `None` for anything else or for a value outside the 32-bit range. */
  function TryParse(s: string): (r: Option<int>)
    ensures r.Some? ==> IsInt32(r.value)
    ensures r.Some? ==> |s| >= 1
  {
    var negative := |s| > 0 && s[0] == '-';
    var digits := if |s| > 0 && (s[0] == '-' || s[0] == '+') then s[1..] else s;
    if |digits| == 0 || !AllDigits(digits) then None
    else
      var v: int := if negative then -(DigitsValue(digits) as int) else DigitsValue(digits);
      if IsInt32(v) then Some(v) else None
  }

  function DigitChar(d: nat): char
    requires d < 10
  {
    ('0' as int + d) as char
  }

  /** The decimal digits of `n`, without leading zeros. */
  function NatToString(n: nat): (r: string)
    ensures |r| >= 1 && AllDigits(r)
  {
    if n < 10 then [DigitChar(n)] else NatToString(n / 10) + [DigitChar(n % 10)]
  }

  /** `n.ToString()` for an `int`. */
  function IntToString(n: int): (r: string) {
    if n < 0 then "-" + NatToString(-n) else NatToString(n)
  }

  lemma {:induction false} DigitsOfNat(n: nat)
    ensures DigitsValue(NatToString(n)) == n
  {
    var s := NatToString(n);
    if n >= 10 {
      var init := NatToString(n / 10);
      DigitsOfNat(n / 10);
      assert s[..|s| - 1] == init;
      DigitsValueBelowPrefix(s, init, |init|);
      assert DigitsValue(s) == DigitsValueBelow(s, |init|) * 10 + n % 10;
    } else {
      assert DigitsValue(s) == DigitsValueBelow(s, 0) * 10 + n;
    }
  }

  /** A rendered integer has no character other than a sign and digits. */
  lemma IntToStringChars(n: int, c: char)
    requires c != '-' && !IsDigit(c)
    ensures c !in IntToString(n)
  {
  }

  /** Parsing what `ToString` printed gives the number back. */
  lemma TryParseIntToString(n: int)
    requires IsInt32(n)
    ensures TryParse(IntToString(n)) == Some(n)
  {
    var s := IntToString(n);
    if n < 0 {
      DigitsOfNat(-n);
      assert s[0] == '-' && s[1..] == NatToString(-n);
    } else {
      DigitsOfNat(n);
      assert IsDigit(s[0]);
    }
  }
}

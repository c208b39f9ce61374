/** String operations the server relies on, over sequences of Unicode scalar values, and shared basics. */
module Text {

  const U64_MAX: nat := 0xFFFF_FFFF_FFFF_FFFF

  datatype Option<+T> = None | Some(value: T)

  /** `u8::is_ascii_whitespace`: what the expression cursor skips. */
  predicate IsAsciiWhitespace(c: char) {
    c == ' ' || c == '\t' || c == '\n' || c == '\r' || c as int == 0x0C
  }

  /** The Unicode White_Space property: what `str::trim` removes. */
  predicate IsWhitespace(c: char) {
    var n := c as int;
    0x09 <= n <= 0x0D || n == 0x20 || n == 0x85 || n == 0xA0 || n == 0x1680 || 0x2000 <= n <= 0x200A
    || n == 0x2028 || n == 0x2029 || n == 0x202F || n == 0x205F || n == 0x3000
  }

  predicate AllAsciiWhitespace(s: string) {
    forall i :: 0 <= i < |s| ==> IsAsciiWhitespace(s[i])
  }

  function TrimStart(s: string): string {
    if s != [] && IsWhitespace(s[0]) then TrimStart(s[1..]) else s
  }

  function TrimEnd(s: string): string {
    if s != [] && IsWhitespace(s[|s| - 1]) then TrimEnd(s[..|s| - 1]) else s
  }

  function Trim(s: string): string {
    TrimEnd(TrimStart(s))
  }

  /** Neither end of `s` is whitespace. */
  predicate IsTrimmed(s: string) {
    s == [] || (!IsWhitespace(s[0]) && !IsWhitespace(s[|s| - 1]))
  }

  lemma TrimEndIsPrefix(s: string)
    ensures TrimEnd(s) <= s
  {
  }

  lemma TrimIsTrimmed(s: string)
    ensures IsTrimmed(Trim(s))
  {
    var t := TrimStart(s);
    assert t == [] || !IsWhitespace(t[0]) by { TrimStartStops(s); }
    TrimEndStops(t);
  }

  lemma TrimStartStops(s: string)
    ensures TrimStart(s) == [] || !IsWhitespace(TrimStart(s)[0])
  {
  }

  lemma TrimEndStops(s: string)
    ensures TrimEnd(s) == [] || (!IsWhitespace(TrimEnd(s)[|TrimEnd(s)| - 1]) && TrimEnd(s)[0] == s[0])
  {
  }

  lemma TrimOfTrimmed(s: string)
    requires IsTrimmed(s)
    ensures Trim(s) == s
  {
  }

  /** Trimming removes ASCII whitespace that follows an already trimmed text. */
  lemma {:induction false} TrimDropsPadding(s: string, padding: string)
    requires IsTrimmed(s) && AllAsciiWhitespace(padding)
    ensures Trim(s + padding) == s
    decreases |padding|
  {
    if padding == [] {
      assert s + padding == s;
      TrimOfTrimmed(s);
    } else if s == [] {
      assert s + padding == padding;
      assert IsWhitespace(padding[0]);
      assert TrimStart(padding) == TrimStart(padding[1..]);
      TrimDropsPadding(s, padding[1..]);
      assert s + padding[1..] == padding[1..];
    } else {
      var whole := s + padding;
      var last := |padding| - 1;
      assert TrimStart(whole) == whole;
      assert whole[..|whole| - 1] == s + padding[..last];
      TrimDropsPadding(s, padding[..last]);
      assert TrimStart(s + padding[..last]) == s + padding[..last];
    }
  }

  predicate AllWhitespace(s: string) {
    forall i :: 0 <= i < |s| ==> IsWhitespace(s[i])
  }

  /** Trimming removes whitespace around an already trimmed text. */
  lemma TrimDropsBoth(lead: string, s: string, trail: string)
    requires AllWhitespace(lead) && AllWhitespace(trail) && IsTrimmed(s) && s != []
    ensures Trim(lead + s + trail) == s
  {
    assert lead + s + trail == lead + (s + trail);
    TrimStartDrops(lead, s + trail);
    TrimEndDrops(s, trail);
  }

  lemma {:induction false} TrimStartDrops(lead: string, rest: string)
    requires AllWhitespace(lead) && rest != [] && !IsWhitespace(rest[0])
    ensures TrimStart(lead + rest) == rest
    decreases |lead|
  {
    hide IsWhitespace;
    if lead == [] {
      assert lead + rest == rest;
    } else {
      assert (lead + rest)[1..] == lead[1..] + rest;
      TrimStartDrops(lead[1..], rest);
    }
  }

  lemma {:induction false} TrimEndDrops(s: string, trail: string)
    requires AllWhitespace(trail) && s != [] && !IsWhitespace(s[|s| - 1])
    ensures TrimEnd(s + trail) == s
    decreases |trail|
  {
    hide IsWhitespace;
    if trail == [] {
      assert s + trail == s;
    } else {
      var whole := s + trail;
      assert whole[..|whole| - 1] == s + trail[..|trail| - 1];
      TrimEndDrops(s, trail[..|trail| - 1]);
    }
  }

  function StripPrefix(s: string, prefix: string): (r: Option<string>)
    ensures r.Some? ==> s == prefix + r.value
    ensures r.Some? <==> prefix <= s
  {
    if prefix <= s then Some(s[|prefix|..]) else None
  }

  function StripSuffix(s: string, suffix: string): (r: Option<string>)
    ensures r.Some? <==> |suffix| <= |s| && s[|s| - |suffix|..] == suffix
    ensures r.Some? ==> s == r.value + suffix
  {
    if |suffix| <= |s| && s[|s| - |suffix|..] == suffix then Some(s[..|s| - |suffix|]) else None
  }

  /** `pattern` occurs in `s` starting at index `i`. */
  predicate OccursAt(s: string, pattern: string, i: int) {
    0 <= i && i + |pattern| <= |s| && s[i..i + |pattern|] == pattern
  }

  predicate Contains(s: string, pattern: string) {
    exists i :: 0 <= i <= |s| && OccursAt(s, pattern, i)
  }

  /** `str::find`: the first occurrence. */
  function Find(s: string, pattern: string): (r: Option<nat>)
    ensures r.Some? ==> OccursAt(s, pattern, r.value) && forall j :: 0 <= j < r.value ==> !OccursAt(s, pattern, j)
    ensures r.None? <==> !Contains(s, pattern)
  {
    FindFrom(s, pattern, 0)
  }

  function FindFrom(s: string, pattern: string, from: nat): (r: Option<nat>)
    requires from <= |s|
    ensures r.Some? ==> from <= r.value && OccursAt(s, pattern, r.value)
                        && forall j :: from <= j < r.value ==> !OccursAt(s, pattern, j)
    ensures r.None? ==> forall j :: from <= j ==> !OccursAt(s, pattern, j)
    decreases |s| - from
  {
    if OccursAt(s, pattern, from) then Some(from)
    else if from == |s| then None
    else FindFrom(s, pattern, from + 1)
  }

  /** A first occurrence is unique. */
  lemma FindIs(s: string, pattern: string, i: nat)
    requires OccursAt(s, pattern, i)
    requires forall j :: 0 <= j < i ==> !OccursAt(s, pattern, j)
    ensures Find(s, pattern) == Some(i)
  {
    assert Contains(s, pattern);
  }

  lemma OccursChars(s: string, pattern: string, i: int)
    requires OccursAt(s, pattern, i)
    ensures forall k :: i <= k < i + |pattern| ==> s[k] == pattern[k - i]
    ensures |pattern| > 0 ==> s[i] == pattern[0]
    ensures |pattern| > 1 ==> s[i + 1] == pattern[1]
    ensures |pattern| > 2 ==> s[i + 2] == pattern[2]
    ensures |pattern| > 3 ==> s[i + 3] == pattern[3]
  {
    forall k | i <= k < i + |pattern| ensures s[k] == pattern[k - i] {
      assert s[i..i + |pattern|][k - i] == pattern[k - i];
    }
  }

  /** An occurrence that ends inside a prefix is an occurrence in the prefix. */
  lemma OccursInPrefix(s: string, prefix: string, pattern: string, i: int)
    requires prefix <= s && OccursAt(s, pattern, i) && i + |pattern| <= |prefix|
    ensures OccursAt(prefix, pattern, i) && Contains(prefix, pattern)
  {
    assert prefix[i..i + |pattern|] == s[i..i + |pattern|];
    assert OccursAt(prefix, pattern, i);
  }

  /** An occurrence inside a slice is an occurrence in the slice. */
  lemma OccursInSlice(s: string, from: nat, to: nat, pattern: string, i: int)
    requires from <= to <= |s| && OccursAt(s, pattern, i) && from <= i && i + |pattern| <= to
    ensures Contains(s[from..to], pattern)
  {
    var t, k := s[from..to], i - from;
    OccursChars(s, pattern, i);
    assert forall x :: 0 <= x < |t| ==> t[x] == s[from + x];
    assert t[k..k + |pattern|] == pattern;
    assert OccursAt(t, pattern, k);
  }

  /** An occurrence in a slice is an occurrence in the whole. */
  lemma OccursInWhole(s: string, from: nat, to: nat, pattern: string, i: int)
    requires from <= to <= |s| && OccursAt(s[from..to], pattern, i)
    ensures OccursAt(s, pattern, from + i) && Contains(s, pattern)
  {
    OccursChars(s[from..to], pattern, i);
    assert forall x :: from <= x < to ==> s[x] == s[from..to][x - from];
    assert s[from + i..from + i + |pattern|] == pattern;
    assert OccursAt(s, pattern, from + i);
  }

  /** Texts in the order of their characters. */
  predicate LexLe(a: string, b: string) {
    a == [] || (b != [] && (a[0] < b[0] || (a[0] == b[0] && LexLe(a[1..], b[1..]))))
  }

  lemma LexTotal(a: string, b: string)
    ensures LexLe(a, b) || LexLe(b, a)
  {
  }

  lemma {:induction false} LexAntisymmetric(a: string, b: string)
    requires LexLe(a, b) && LexLe(b, a)
    ensures a == b
    decreases |a|
  {
    if a != [] && b != [] {
      LexAntisymmetric(a[1..], b[1..]);
      assert a == [a[0]] + a[1..] && b == [b[0]] + b[1..];
    }
  }

  lemma {:induction false} LexTransitive(a: string, b: string, c: string)
    requires LexLe(a, b) && LexLe(b, c)
    ensures LexLe(a, c)
    decreases |a|
  {
    if a != [] && a[0] == b[0] && b[0] == c[0] {
      LexTransitive(a[1..], b[1..], c[1..]);
    }
  }

  lemma Associate(a: string, b: string, c: string)
    ensures a + b + c == a + (b + c)
  {
  }
}

/** The handful of Ruby `String` operations the authentication code relies on:
    `downcase`, `strip`, `start_with?`, `split(" ")` with `last`, and
    ActiveSupport's `blank?` / `present?`. */
module Text {

  /** Whitespace as `String#split` with the pattern " " sees it: ASCII space, \t, \n, \v, \f, \r. */
  predicate IsAsciiSpace(c: char) {
    c == ' ' || c == '\t' || c == '\n' || c == '\U{B}' || c == '\U{C}' || c == '\r'
  }

  /** What `String#strip` removes at either end: ASCII whitespace and NUL. */
  predicate IsStripSpace(c: char) {
    IsAsciiSpace(c) || c == '\0'
  }

  /** The class [[:space:]] that `String#blank?` tests: ASCII whitespace and Unicode White_Space. */
  predicate IsBlankSpace(c: char) {
    || IsAsciiSpace(c)
    || c == '\U{85}' || c == '\U{A0}' || c == '\U{1680}'
    || ('\U{2000}' <= c <= '\U{200A}')
    || c == '\U{2028}' || c == '\U{2029}' || c == '\U{202F}' || c == '\U{205F}' || c == '\U{3000}'
  }

  predicate AllAsciiSpace(s: string) {
    forall i :: 0 <= i < |s| ==> IsAsciiSpace(s[i])
  }

  predicate NoAsciiSpace(s: string) {
    forall i :: 0 <= i < |s| ==> !IsAsciiSpace(s[i])
  }

  /** `s.blank?`: empty or made only of whitespace. */
  predicate Blank(s: string) {
    forall i :: 0 <= i < |s| ==> IsBlankSpace(s[i])
  }

  /** `s.present?`, the negation of `blank?`. */
  predicate Present(s: string) {
    !Blank(s)
  }

  predicate StartsWith(s: string, prefix: string) {
    |prefix| <= |s| && s[..|prefix|] == prefix
  }

  // ---------------------------------------------------------------- downcase

  predicate IsUpper(c: char) {
    'A' <= c <= 'Z'
  }

  /** ASCII case mapping: A-Z become a-z, every other character is kept. */
  function DowncaseChar(c: char): char {
    if IsUpper(c) then (c as int + 32) as char else c
  }

  function Downcase(s: string): string {
    seq(|s|, i requires 0 <= i < |s| => DowncaseChar(s[i]))
  }

  predicate IsLowercase(s: string) {
    forall i :: 0 <= i < |s| ==> !IsUpper(s[i])
  }

  /** The result of `downcase` holds no upper-case letter. */
  lemma DowncaseIsLowercase(s: string)
    ensures IsLowercase(Downcase(s))
  {
  }

  /** `downcase` leaves a string without upper-case letters as it is; in particular it is idempotent. */
  lemma DowncaseOfLowercase(s: string)
    requires IsLowercase(s)
    ensures Downcase(s) == s
  {
  }

  lemma DowncaseIdempotent(s: string)
    ensures Downcase(Downcase(s)) == Downcase(s)
  {
    DowncaseIsLowercase(s);
    DowncaseOfLowercase(Downcase(s));
  }

  // ------------------------------------------------------------------- strip

  /** `lstrip`: drops the leading whitespace and NUL characters. */
  function TrimStart(s: string): (r: string)
    ensures |r| <= |s| && r == s[|s| - |r|..]
    ensures r == [] || !IsStripSpace(r[0])
    ensures forall i :: 0 <= i < |s| - |r| ==> IsStripSpace(s[i])
    decreases |s|
  {
    if s != [] && IsStripSpace(s[0]) then
      var r := TrimStart(s[1..]);
      assert forall i :: 1 <= i < |s| ==> s[i] == s[1..][i - 1];
      r
    else
      s
  }

  /** `rstrip`: drops the trailing whitespace and NUL characters. */
  function TrimEnd(s: string): (r: string)
    ensures |r| <= |s| && r == s[..|r|]
    ensures r == [] || !IsStripSpace(r[|r| - 1])
    ensures forall i :: |r| <= i < |s| ==> IsStripSpace(s[i])
    decreases |s|
  {
    if s != [] && IsStripSpace(s[|s| - 1]) then
      var r := TrimEnd(s[..|s| - 1]);
      assert forall i :: 0 <= i < |s| - 1 ==> s[i] == s[..|s| - 1][i];
      r
    else
      s
  }

  /** `strip`: the longest slice of `s` that neither starts nor ends with whitespace or NUL. */
  function Strip(s: string): string {
    TrimEnd(TrimStart(s))
  }

  /** What `strip` keeps is the slice `s[i..j]`, and everything it cut off is whitespace. */
  lemma StripSlice(s: string) returns (i: nat, j: nat)
    ensures i <= j <= |s| && Strip(s) == s[i..j]
    ensures forall k :: 0 <= k < i ==> IsStripSpace(s[k])
    ensures forall k :: j <= k < |s| ==> IsStripSpace(s[k])
  {
    var t := TrimStart(s);
    var r := TrimEnd(t);
    i := |s| - |t|;
    j := i + |r|;
    SliceOfSuffix(s, i, |r|);
    forall k | j <= k < |s| ensures IsStripSpace(s[k]) {
      assert s[k] == t[k - i];
    }
  }

  /** What `strip` returns neither starts nor ends with whitespace or NUL. */
  lemma StripEdges(s: string)
    ensures Strip(s) == [] || (!IsStripSpace(Strip(s)[0]) && !IsStripSpace(Strip(s)[|Strip(s)| - 1]))
  {
    var t := TrimStart(s);
    var r := TrimEnd(t);
    if r != [] {
      assert r[0] == t[0];
    }
  }

  /** What `strip` returns is the slice `s[i..j]` with no whitespace at either end,
      and everything it cut off is whitespace. */
  lemma StripIsTrimmedSlice(s: string) returns (i: nat, j: nat)
    ensures i <= j <= |s| && Strip(s) == s[i..j]
    ensures forall k :: 0 <= k < i ==> IsStripSpace(s[k])
    ensures forall k :: j <= k < |s| ==> IsStripSpace(s[k])
    ensures Strip(s) == [] || (!IsStripSpace(Strip(s)[0]) && !IsStripSpace(Strip(s)[|Strip(s)| - 1]))
  {
    i, j := StripSlice(s);
    StripEdges(s);
  }

  lemma SliceOfSuffix(s: string, i: nat, n: nat)
    requires i + n <= |s|
    ensures s[i..][..n] == s[i..i + n]
  {
  }

  lemma {:induction false} TrimStartNoop(s: string)
    requires s == [] || !IsStripSpace(s[0])
    ensures TrimStart(s) == s
  {
  }

  lemma {:induction false} TrimEndNoop(s: string)
    requires s == [] || !IsStripSpace(s[|s| - 1])
    ensures TrimEnd(s) == s
  {
  }

  /** `strip` is idempotent. */
  lemma StripIdempotent(s: string)
    ensures Strip(Strip(s)) == Strip(s)
  {
    var r := Strip(s);
    var _, _ := StripIsTrimmedSlice(s);
    TrimStartNoop(r);
    TrimEndNoop(r);
  }

  /** `downcase` maps whitespace and NUL to themselves and nothing else to them. */
  lemma DowncaseCharKeepsStripSpace(c: char)
    ensures IsStripSpace(DowncaseChar(c)) <==> IsStripSpace(c)
  {
  }

  lemma {:induction false} DowncaseTrimStart(s: string)
    ensures Downcase(TrimStart(s)) == TrimStart(Downcase(s))
    decreases |s|
  {
    if s != [] {
      DowncaseCharKeepsStripSpace(s[0]);
      if IsStripSpace(s[0]) {
        assert Downcase(s)[1..] == Downcase(s[1..]);
        DowncaseTrimStart(s[1..]);
      }
    }
  }

  lemma {:induction false} DowncaseTrimEnd(s: string)
    ensures Downcase(TrimEnd(s)) == TrimEnd(Downcase(s))
    decreases |s|
  {
    if s != [] {
      DowncaseCharKeepsStripSpace(s[|s| - 1]);
      if IsStripSpace(s[|s| - 1]) {
        assert Downcase(s)[..|s| - 1] == Downcase(s[..|s| - 1]);
        DowncaseTrimEnd(s[..|s| - 1]);
      }
    }
  }

  /** `downcase` and `strip` commute. */
  lemma DowncaseStrip(s: string)
    ensures Downcase(Strip(s)) == Strip(Downcase(s))
  {
    DowncaseTrimEnd(TrimStart(s));
    DowncaseTrimStart(s);
  }

  // ----------------------------------------------------- split(" ").last

  /** Leading ASCII whitespace removed (the awk-style `split` ignores it). */
  function DropLeadingSpace(s: string): (r: string)
    ensures |r| <= |s| && r == s[|s| - |r|..]
    ensures r == [] || !IsAsciiSpace(r[0])
    ensures forall i :: 0 <= i < |s| - |r| ==> IsAsciiSpace(s[i])
    decreases |s|
  {
    if s != [] && IsAsciiSpace(s[0]) then
      var r := DropLeadingSpace(s[1..]);
      assert forall i :: 1 <= i < |s| ==> s[i] == s[1..][i - 1];
      r
    else
      s
  }

  /** The longest prefix of `s` without whitespace. */
  function LeadingWord(s: string): (w: string)
    ensures |w| <= |s| && w == s[..|w|]
    ensures NoAsciiSpace(w)
    ensures |w| < |s| ==> IsAsciiSpace(s[|w|])
    decreases |s|
  {
    if s != [] && !IsAsciiSpace(s[0]) then [s[0]] + LeadingWord(s[1..]) else []
  }

  /** Every element is a non-empty run without whitespace. */
  predicate AreWords(fs: seq<string>) {
    forall k :: 0 <= k < |fs| ==> fs[k] != [] && NoAsciiSpace(fs[k])
  }

  lemma ConsWords(w: string, fs: seq<string>)
    requires w != [] && NoAsciiSpace(w) && AreWords(fs)
    ensures AreWords([w] + fs)
  {
    forall k | 0 <= k < |[w] + fs| ensures ([w] + fs)[k] != [] && NoAsciiSpace(([w] + fs)[k]) {
      if k > 0 {
        assert ([w] + fs)[k] == fs[k - 1];
      }
    }
  }

  /** `s.split(" ")`: the maximal runs of non-whitespace characters, in order. */
  function Fields(s: string): (fs: seq<string>)
    ensures AreWords(fs)
    ensures fs == [] <==> AllAsciiSpace(s)
    decreases |s|
  {
    var t := DropLeadingSpace(s);
    if t == [] then
      []
    else
      var w := LeadingWord(t);
      assert |w| >= 1;
      assert s[|s| - |t|] == t[0];
      var rest := Fields(t[|w|..]);
      ConsWords(w, rest);
      [w] + rest
  }

  /** Trailing ASCII whitespace removed. */
  function DropTrailingSpace(s: string): (r: string)
    ensures |r| <= |s| && r == s[..|r|]
    ensures r == [] || !IsAsciiSpace(r[|r| - 1])
    ensures forall i :: |r| <= i < |s| ==> IsAsciiSpace(s[i])
    decreases |s|
  {
    if s != [] && IsAsciiSpace(s[|s| - 1]) then
      var r := DropTrailingSpace(s[..|s| - 1]);
      assert forall i :: 0 <= i < |s| - 1 ==> s[i] == s[..|s| - 1][i];
      r
    else
      s
  }

  /** The longest suffix of `s` without whitespace. */
  function TrailingWord(s: string): (w: string)
    ensures |w| <= |s| && w == s[|s| - |w|..]
    ensures NoAsciiSpace(w)
    ensures |w| < |s| ==> IsAsciiSpace(s[|s| - |w| - 1])
    decreases |s|
  {
    if s != [] && !IsAsciiSpace(s[|s| - 1]) then TrailingWord(s[..|s| - 1]) + [s[|s| - 1]] else []
  }

  /** The last whitespace-separated field of `s`, read from the end. */
  function LastField(s: string): string {
    TrailingWord(DropTrailingSpace(s))
  }

  lemma DropLastOfConcat(a: string, b: string)
    requires b != []
    ensures (a + b)[..|a + b| - 1] == a + b[..|b| - 1]
  {
  }

  lemma {:induction false} DropTrailingAllSpace(a: string, b: string)
    requires AllAsciiSpace(b)
    ensures DropTrailingSpace(a + b) == DropTrailingSpace(a)
    decreases |b|
  {
    if b != [] {
      DropLastOfConcat(a, b);
      DropTrailingAllSpace(a, b[..|b| - 1]);
    } else {
      assert a + b == a;
    }
  }

  lemma {:induction false} DropTrailingAppend(a: string, b: string)
    requires !AllAsciiSpace(b)
    ensures DropTrailingSpace(a + b) == a + DropTrailingSpace(b)
    decreases |b|
  {
    if IsAsciiSpace(b[|b| - 1]) {
      DropLastOfConcat(a, b);
      DropTrailingAppend(a, b[..|b| - 1]);
    }
  }

  /** The trailing word of a string with whitespace at `k` does not reach
      past `k`, so a prefix does not change it. */
  lemma {:induction false} TrailingWordAppend(a: string, d: string, k: nat)
    requires k < |d| && IsAsciiSpace(d[k])
    ensures TrailingWord(a + d) == TrailingWord(d)
    decreases |d|
  {
    var n := |d| - 1;
    if !IsAsciiSpace(d[n]) {
      DropLastOfConcat(a, d);
      assert d[..n][k] == d[k];
      TrailingWordAppend(a, d[..n], k);
    }
  }

  lemma {:induction false} TrailingWordAfterSpace(a: string, w: string)
    requires NoAsciiSpace(w)
    requires a == [] || IsAsciiSpace(a[|a| - 1])
    ensures TrailingWord(a + w) == w
    decreases |w|
  {
    if w == [] {
      assert a + w == a;
    } else {
      DropLastOfConcat(a, w);
      TrailingWordAfterSpace(a, w[..|w| - 1]);
    }
  }

  /** Cutting a suffix `t` of `s` at `n` puts the string back together. */
  lemma Reassemble(s: string, m: nat, n: nat)
    requires m <= |s| && n <= |s| - m
    ensures s == (s[..m] + s[m..][..n]) + s[m..][n..]
  {
    assert s[m..] == s[m..][..n] + s[m..][n..];
    assert s == s[..m] + s[m..];
  }

  /** The first field `w` of a string that is not all whitespace, with the
      whitespace `sp` before it and the remainder `rest` after it. */
  lemma SplitHead(s: string) returns (sp: string, w: string, rest: string)
    requires !AllAsciiSpace(s)
    ensures w == LeadingWord(DropLeadingSpace(s)) && rest == DropLeadingSpace(s)[|w|..]
    ensures s == (sp + w) + rest
    ensures AllAsciiSpace(sp) && w != [] && NoAsciiSpace(w)
    ensures rest == [] || IsAsciiSpace(rest[0])
  {
    var t := DropLeadingSpace(s);
    w := LeadingWord(t);
    rest := t[|w|..];
    var m := |s| - |t|;
    sp := s[..m];
    Reassemble(s, m, |w|);
    assert AllAsciiSpace(sp) by {
      forall i | 0 <= i < |sp| ensures IsAsciiSpace(sp[i]) {
        assert sp[i] == s[i];
      }
    }
  }

  /** A word between whitespace runs is the last field. */
  lemma LastFieldOfLoneWord(sp: string, w: string, rest: string)
    requires AllAsciiSpace(sp) && w != [] && NoAsciiSpace(w) && AllAsciiSpace(rest)
    ensures LastField((sp + w) + rest) == w
  {
    DropTrailingAllSpace(sp + w, rest);
    assert DropTrailingSpace(sp + w) == sp + w;
    TrailingWordAfterSpace(sp, w);
  }

  /** Whatever precedes a whitespace-led string that is not all whitespace does
      not change its last field. */
  lemma LastFieldSkipsPrefix(a: string, rest: string)
    requires !AllAsciiSpace(rest) && IsAsciiSpace(rest[0])
    ensures LastField(a + rest) == LastField(rest)
  {
    DropTrailingAppend(a, rest);
    var d := DropTrailingSpace(rest);
    assert d[0] == rest[0];
    TrailingWordAppend(a, d, 0);
  }

  /** One step of `split`: the first field `w` is followed by `rest`, and the last field of the
      whole string is `w` when `rest` is blank, the last field of `rest` otherwise. */
  lemma LastFieldStep(s: string) returns (w: string, rest: string)
    requires !AllAsciiSpace(s)
    ensures w == LeadingWord(DropLeadingSpace(s)) && rest == DropLeadingSpace(s)[|w|..]
    ensures AllAsciiSpace(rest) ==> LastField(s) == w
    ensures !AllAsciiSpace(rest) ==> LastField(s) == LastField(rest)
  {
    var sp;
    sp, w, rest := SplitHead(s);
    if AllAsciiSpace(rest) {
      LastFieldOfLoneWord(sp, w, rest);
    } else {
      LastFieldSkipsPrefix(sp + w, rest);
    }
  }

  /** The reading from the end agrees with `split(" ").last`. */
  lemma {:induction false} LastOfFields(s: string)
    requires !AllAsciiSpace(s)
    ensures Fields(s) != [] && Fields(s)[|Fields(s)| - 1] == LastField(s)
    decreases |s|
  {
    var w, rest := LastFieldStep(s);
    assert Fields(s) == [w] + Fields(rest);
    if !AllAsciiSpace(rest) {
      LastOfFields(rest);
    }
  }

  /** A string that starts with a non-space character has at least one field. */
  lemma FieldsOfNonSpaceStart(s: string)
    requires s != [] && !IsAsciiSpace(s[0])
    ensures Fields(s) != []
  {
  }

  /** A space-free word after a prefix ending in a space is the last field. */
  lemma LastFieldAfterSpace(prefix: string, word: string)
    requires word != [] && NoAsciiSpace(word)
    requires prefix != [] && IsAsciiSpace(prefix[|prefix| - 1])
    ensures LastField(prefix + word) == word
  {
    assert DropTrailingSpace(prefix + word) == prefix + word;
    TrailingWordAfterSpace(prefix, word);
  }
}

/** Character classes, searches and conversions on strings that the
    regular expressions and the Ruby core library calls of the labelling
    engine rely on. */
module Text {

  datatype Option<+T> = None | Some(value: T)

  /** Ruby's `\s`: space, tab, line feed, vertical tab, form feed, carriage return. */
  predicate IsSpace(c: char) {
    c == ' ' || c == '\t' || c == '\n' || c == '\U{000B}' || c == '\U{000C}' || c == '\r'
  }

  /** Ruby's `\w` on a pattern without the Unicode option: ASCII letters, digits and `_`. */
  predicate IsWordChar(c: char) {
    ('a' <= c <= 'z') || ('A' <= c <= 'Z') || ('0' <= c <= '9') || c == '_'
  }

  /** The two character classes that regular expressions of the engine repeat. */
  datatype CharClass = Space | Word

  predicate InClass(cls: CharClass, c: char) {
    match cls
    case Space => IsSpace(c)
    case Word => IsWordChar(c)
  }

  predicate AllIn(cls: CharClass, s: string) {
    forall i :: 0 <= i < |s| ==> InClass(cls, s[i])
  }

  /** `String#downcase` restricted to what it does on ASCII. */
  function LowerChar(c: char): (r: char)
    ensures 'A' <= c <= 'Z' ==> r as int == c as int + 32
    ensures !('A' <= c <= 'Z') ==> r == c
  {
    if 'A' <= c <= 'Z' then (c as int + 32) as char else c
  }

  function Lower(s: string): (r: string)
    ensures |r| == |s|
    ensures forall i :: 0 <= i < |s| ==> r[i] == LowerChar(s[i])
  {
    seq(|s|, i requires 0 <= i < |s| => LowerChar(s[i]))
  }

  /** Lower-casing is idempotent: a lower-cased name is its own lower case. */
  lemma LowerIdempotent(s: string)
    ensures Lower(Lower(s)) == Lower(s)
  {
  }

  /** Lower-casing keeps word characters word characters. */
  lemma LowerKeepsWord(s: string)
    requires AllIn(Word, s)
    ensures AllIn(Word, Lower(s))
  {
  }

  /** The end of the longest run of `cls` characters in `t` that starts at `i`:
      a greedy `\s*` or `\w*` that starts at `i` stops there. */
  function Span(t: string, i: nat, cls: CharClass): (j: nat)
    requires i <= |t|
    ensures i <= j <= |t|
    ensures forall k :: i <= k < j ==> InClass(cls, t[k])
    ensures j == |t| || !InClass(cls, t[j])
    decreases |t| - i
  {
    if i < |t| && InClass(cls, t[i]) then Span(t, i + 1, cls) else i
  }

  /** The first position at or after `i` that holds `c`, or `|t|` if there is none:
      a greedy `[^c]*` that starts at `i` stops there. */
  function FindChar(t: string, i: nat, c: char): (j: nat)
    requires i <= |t|
    ensures i <= j <= |t|
    ensures forall k :: i <= k < j ==> t[k] != c
    ensures j < |t| ==> t[j] == c
    decreases |t| - i
  {
    if i < |t| && t[i] != c then FindChar(t, i + 1, c) else i
  }

  /** A run of `cls` from `i` that stops at `j` is what `Span` finds. */
  lemma SpanIs(t: string, i: nat, j: nat, cls: CharClass)
    requires i <= j <= |t|
    requires forall k :: i <= k < j ==> InClass(cls, t[k])
    requires j == |t| || !InClass(cls, t[j])
    ensures Span(t, i, cls) == j
  {
  }

  /** No `c` from `i` up to `j`, and `c` or the end at `j`. */
  lemma FindCharIs(t: string, i: nat, j: nat, c: char)
    requires i <= j <= |t|
    requires forall k :: i <= k < j ==> t[k] != c
    requires j == |t| || t[j] == c
    ensures FindChar(t, i, c) == j
  {
  }

  lemma AppendAssociative(a: string, b: string, c: string)
    ensures (a + b) + c == a + (b + c)
  {
  }

  /** `lit` occurs in `t` at position `i`. */
  predicate StartsAt(t: string, i: nat, lit: string) {
    i + |lit| <= |t| && t[i..i + |lit|] == lit
  }

  /** `a` at `i` and `b` right after it: `a + b` at `i`. */
  lemma StartsAtConcat(t: string, i: nat, a: string, b: string)
    requires StartsAt(t, i, a) && StartsAt(t, i + |a|, b)
    ensures StartsAt(t, i, a + b)
  {
    assert t[i..i + |a| + |b|] == t[i..i + |a|] + t[i + |a|..i + |a| + |b|];
  }

  /** An occurrence inside `t[i..e]` is an occurrence in the slice. */
  lemma StartsAtSlice(t: string, i: nat, e: nat, k: nat, lit: string)
    requires i <= k && k + |lit| <= e <= |t| && StartsAt(t, k, lit)
    ensures StartsAt(t[i..e], k - i, lit)
  {
    var s, u := t[i..e][k - i..k - i + |lit|], t[k..k + |lit|];
    forall j | 0 <= j < |lit| ensures s[j] == u[j] {
      assert s[j] == t[k + j];
    }
    assert s == u;
  }

  /** `a + b` at `i`: `a` at `i` and `b` right after it. */
  lemma StartsAtSplit(t: string, i: nat, a: string, b: string)
    requires StartsAt(t, i, a + b)
    ensures StartsAt(t, i, a) && StartsAt(t, i + |a|, b)
  {
    var s := t[i..i + |a| + |b|];
    assert t[i..i + |a|] == s[..|a|] && t[i + |a|..i + |a| + |b|] == s[|a|..];
  }

  /** A character of `t` that differs from the one of `lit` at the same
      offset: `lit` does not occur at `i`. */
  lemma NotStartsAt(t: string, i: nat, lit: string, m: nat)
    requires m < |lit| && (i + m < |t| ==> t[i + m] != lit[m])
    ensures !StartsAt(t, i, lit)
  {
    if i + |lit| <= |t| {
      assert t[i..i + |lit|][m] == t[i + m];
    }
  }

  /** An occurrence as a slice. */
  lemma StartsAtIs(t: string, i: nat, j: nat, lit: string)
    requires StartsAt(t, i, lit) && j == i + |lit|
    ensures t[i..j] == lit
  {
  }

  /** One character of an occurrence. */
  lemma CharAt(t: string, i: nat, s: string, m: nat)
    requires StartsAt(t, i, s) && m < |s|
    ensures t[i + m] == s[m]
  {
    assert t[i..i + |s|][m] == t[i + m];
  }

  /** An occurrence read character by character. */
  lemma StartsAtChars(t: string, i: nat, s: string)
    requires StartsAt(t, i, s)
    ensures forall m :: 0 <= m < |s| ==> t[i + m] == s[m]
  {
    forall m | 0 <= m < |s| ensures t[i + m] == s[m] {
      assert t[i..i + |s|][m] == t[i + m];
    }
  }

  /** A suffix of `t` that is `x + y`: `x` occurs where the suffix starts
      and `y` is the suffix after it. */
  lemma SuffixSplit(t: string, j: nat, x: string, y: string)
    requires j <= |t| && t[j..] == x + y
    ensures StartsAt(t, j, x) && t[j + |x|..] == y
  {
    assert t[j..j + |x|] == t[j..][..|x|];
    assert t[j + |x|..] == t[j..][|x|..];
  }

  /** The first position at or after `i` where `lit` occurs: what a lazy `.*?`
      followed by `lit` settles on. */
  function FindLit(t: string, i: nat, lit: string): (r: Option<nat>)
    requires i <= |t|
    ensures r.Some? ==> i <= r.value && StartsAt(t, r.value, lit)
    ensures r.Some? ==> forall k :: i <= k < r.value ==> !StartsAt(t, k, lit)
    ensures r.None? ==> forall k :: i <= k <= |t| ==> !StartsAt(t, k, lit)
    decreases |t| - i
  {
    if StartsAt(t, i, lit) then Some(i)
    else if i == |t| then None
    else FindLit(t, i + 1, lit)
  }

  /** The search for `lit` passes over a stretch `x` that does not hold the
      first character of `lit`. */
  lemma {:induction false} FindLitSkip(t: string, i: nat, x: string, lit: string)
    requires StartsAt(t, i, x) && lit != [] && lit[0] !in x
    ensures FindLit(t, i, lit) == FindLit(t, i + |x|, lit)
    decreases |x|
  {
    if x != [] {
      StartsAtChars(t, i, x);
      assert t[i] == x[0];
      NotStartsAt(t, i, lit, 0);
      StartsAtSplit(t, i, [x[0]], x[1..]);
      assert [x[0]] + x[1..] == x;
      FindLitSkip(t, i + 1, x[1..], lit);
    }
  }

  /** The search for `lit` passes over a position where a character of
      `lit` is missing. */
  lemma FindLitPast(t: string, i: nat, lit: string, m: nat)
    requires i < |t| && m < |lit| && (i + m < |t| ==> t[i + m] != lit[m])
    ensures FindLit(t, i, lit) == FindLit(t, i + 1, lit)
  {
    NotStartsAt(t, i, lit, m);
  }

  /** `Array#to_h` on key-value pairs: the pairs are entered in order, so a later
      pair overwrites an earlier pair with the same key. */
  function ToMap<K, V>(ps: seq<(K, V)>): (m: map<K, V>)
    ensures m.Keys == set i | 0 <= i < |ps| :: ps[i].0
    decreases |ps|
  {
    if ps == [] then map[]
    else
      var m := ToMap(ps[..|ps| - 1]);
      assert forall i :: 0 <= i < |ps| - 1 ==> ps[..|ps| - 1][i] == ps[i];
      m[ps[|ps| - 1].0 := ps[|ps| - 1].1]
  }

  /** `to_h` of one more pair: the map so far with that pair entered. */
  lemma ToMapSnoc<K, V>(ps: seq<(K, V)>, p: (K, V))
    ensures ToMap(ps + [p]) == ToMap(ps)[p.0 := p.1]
  {
    assert (ps + [p])[..|ps|] == ps;
  }

  /** The value `to_h` keeps for a key is the one of the LAST pair with that key. */
  lemma {:induction false} ToMapLastWins<K, V>(ps: seq<(K, V)>, i: nat)
    requires i < |ps|
    requires forall j :: i < j < |ps| ==> ps[j].0 != ps[i].0
    ensures ps[i].0 in ToMap(ps) && ToMap(ps)[ps[i].0] == ps[i].1
    decreases |ps|
  {
    if i < |ps| - 1 {
      var front := ps[..|ps| - 1];
      assert front[i] == ps[i];
      ToMapLastWins(front, i);
    }
  }

  /** Every value in the result of `to_h` is the value of some pair with its key. */
  lemma {:induction false} ToMapValueFrom<K, V>(ps: seq<(K, V)>, k: K)
    requires k in ToMap(ps)
    ensures exists i :: 0 <= i < |ps| && ps[i].0 == k && ps[i].1 == ToMap(ps)[k]
    decreases |ps|
  {
    var last := |ps| - 1;
    if ps[last].0 != k {
      var front := ps[..last];
      ToMapValueFrom(front, k);
      var i :| 0 <= i < |front| && front[i].0 == k && front[i].1 == ToMap(front)[k];
      assert ps[i] == front[i];
    }
  }

  function Digit(d: nat): (c: char)
    requires d < 10
    ensures '0' <= c <= '9' && c as int - '0' as int == d
  {
    (d + '0' as int) as char
  }

  /** `Integer#to_s` for a non-negative integer: its decimal digits, no leading zero. */
  function NatToString(n: nat): (s: string)
    ensures |s| >= 1
    ensures forall i :: 0 <= i < |s| ==> '0' <= s[i] <= '9'
    ensures n > 0 ==> s[0] != '0'
    decreases n
  {
    if n < 10 then [Digit(n)] else NatToString(n / 10) + [Digit(n % 10)]
  }

  /** The value of a string of decimal digits. */
  function DigitsValue(s: string): nat
    requires forall i :: 0 <= i < |s| ==> '0' <= s[i] <= '9'
    decreases |s|
  {
    if s == [] then 0
    else DigitsValue(s[..|s| - 1]) * 10 + (s[|s| - 1] as int - '0' as int)
  }

  /** Reading back the decimal text of `n` gives `n`. */
  lemma {:induction false} DecimalRoundTrip(n: nat)
    ensures DigitsValue(NatToString(n)) == n
    decreases n
  {
    if n >= 10 {
      var s := NatToString(n);
      assert s[..|s| - 1] == NatToString(n / 10);
      DecimalRoundTrip(n / 10);
    }
  }
}

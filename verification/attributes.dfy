/** parse_attributes (lib/markupfilter.rb:94-97): the attribute list of an
    opening tag read as a map from lower-cased attribute name to value. */
module Attributes {
  import opened Text
  import opened Patterns

  /** The scan matches as (lower-cased name, value) pairs. */
  function NamedValues(gs: seq<seq<string>>): (ps: seq<(string, string)>)
    requires forall i :: 0 <= i < |gs| ==> Captures(Attribute, gs[i])
    ensures |ps| == |gs|
    ensures forall i :: 0 <= i < |gs| ==> |gs[i]| == 2 && ps[i] == (Lower(gs[i][0]), gs[i][1])
  {
    assert forall i :: 0 <= i < |gs| ==> |gs[i]| == 2 by {
      forall i | 0 <= i < |gs| ensures |gs[i]| == 2 { assert Captures(Attribute, gs[i]); }
    }
    seq(|gs|, i requires 0 <= i < |gs| =>
      assert Captures(Attribute, gs[i]); (Lower(gs[i][0]), gs[i][1]))
  }

  /** Every `name="value"` pair of the list, scanned left to right, with the
      name lower-cased; a later pair overrides an earlier one of the same name. */
  function ParseAttributes(attributeList: string): map<string, string> {
    ToMap(NamedValues(Scan(Attribute, attributeList)))
  }

  /** The keys of the parsed map are exactly the lower-cased names the scan
      found. */
  lemma ParsedKeys(attributeList: string, k: string)
    ensures var gs := Scan(Attribute, attributeList);
      k in ParseAttributes(attributeList) <==> exists i :: 0 <= i < |gs| && Lower(gs[i][0]) == k
  {
    var gs := Scan(Attribute, attributeList);
    var ps := NamedValues(gs);
    assert ParseAttributes(attributeList) == ToMap(ps);
    assert k in ToMap(ps) ==> exists i :: 0 <= i < |gs| && Lower(gs[i][0]) == k by {
      if k in ToMap(ps) {
        var i :| 0 <= i < |ps| && ps[i].0 == k;
        assert Lower(gs[i][0]) == k;
      }
    }
    assert (exists i :: 0 <= i < |gs| && Lower(gs[i][0]) == k) ==> k in ToMap(ps) by {
      if exists i :: 0 <= i < |gs| && Lower(gs[i][0]) == k {
        var i :| 0 <= i < |gs| && Lower(gs[i][0]) == k;
        assert ps[i].0 == k;
      }
    }
  }

  /** Every entry of the parsed map is a word-character name in lower case
      bound to a non-empty value without `"`. */
  lemma ParsedEntry(attributeList: string, k: string)
    requires k in ParseAttributes(attributeList)
    ensures k != [] && AllIn(Word, k) && Lower(k) == k
    ensures ParseAttributes(attributeList)[k] != [] && NoQuote(ParseAttributes(attributeList)[k])
  {
    var gs := Scan(Attribute, attributeList);
    var ps := NamedValues(gs);
    assert ParseAttributes(attributeList) == ToMap(ps);
    ToMapValueFrom(ps, k);
    var i :| 0 <= i < |ps| && ps[i].0 == k && ps[i].1 == ToMap(ps)[k];
    assert Captures(Attribute, gs[i]);
    LowerIdempotent(gs[i][0]);
    LowerKeepsWord(gs[i][0]);
  }

  /** When a name occurs more than once (in any letter case), the value of
      its last occurrence is the one kept. */
  lemma LaterAttributeWins(attributeList: string, i: nat)
    requires i < |Scan(Attribute, attributeList)|
    requires var gs := Scan(Attribute, attributeList);
      forall j :: i < j < |gs| ==> Lower(gs[j][0]) != Lower(gs[i][0])
    ensures var gs := Scan(Attribute, attributeList);
      Lower(gs[i][0]) in ParseAttributes(attributeList)
      && ParseAttributes(attributeList)[Lower(gs[i][0])] == gs[i][1]
  {
    ToMapLastWins(NamedValues(Scan(Attribute, attributeList)), i);
  }

  // ------------------------------------------------------- what is not read

  /** Without a `"` the pattern cannot match anywhere: values in single
      quotes or without quotes are not read. */
  lemma {:induction false} ScanWithoutQuote(t: string, i: nat)
    requires i <= |t| && NoQuote(t)
    ensures ScanFrom(Attribute, t, i) == []
    decreases |t| - i
  {
    if i < |t| {
      forall l | 0 <= l < |t| ensures t[l] != '"' {
        assert t[l] in t;
      }
      assert AttributeAt(t, i) == None;
      ScanWithoutQuote(t, i + 1);
    }
  }

  /** parse_attributes of a list without `"` is empty. */
  lemma UnquotedIgnored(attributeList: string)
    requires NoQuote(attributeList)
    ensures ParseAttributes(attributeList) == map[]
  {
    ScanWithoutQuote(attributeList, 0);
  }

  /** `class='listing'` and `class=listing` give no class. */
  lemma SingleQuotedIgnored()
    ensures Scan(Attribute, " class='listing'") == []
    ensures ParseAttributes(" class='listing'") == map[] && ParseAttributes(" class=listing") == map[]
  {
    ScanWithoutQuote(" class='listing'", 0);
    UnquotedIgnored(" class='listing'");
    UnquotedIgnored(" class=listing");
  }

  /** The characters of whitespace, a name and `=""`. */
  lemma EmptyValueChars(t: string, w: string, name: string)
    requires t == w + name + "=\"\"" && AllIn(Space, w) && AllIn(Word, name)
    ensures var m := |w| + |name|;
      && |t| == m + 3 && t[m] == '=' && t[m + 1] == '"' && t[m + 2] == '"'
      && (forall k :: 0 <= k < |w| ==> IsSpace(t[k]))
      && (forall k :: |w| <= k < m ==> IsWordChar(t[k]))
  {
    assert forall k :: 0 <= k < |w| ==> t[k] == w[k];
    assert forall k :: |w| <= k < |w| + |name| ==> t[k] == name[k - |w|];
  }

  /** In a pair with an empty value, the pattern matches at no position of
      the whitespace and the name: the `"` right after `="` leaves `[^"]+`
      nothing. */
  lemma EmptyValueBefore(t: string, i: nat, w: string, name: string)
    requires t == w + name + "=\"\"" && AllIn(Space, w) && name != [] && AllIn(Word, name)
    requires i < |w| + |name|
    ensures AttributeAt(t, i) == None
  {
    var m := |w| + |name|;
    EmptyValueChars(t, w, name);
    var n := if i < |w| then |w| else i;
    SpanIs(t, i, n, Space);
    SpanIs(t, n, m, Word);
    SpanIs(t, m, m, Space);
    SpanIs(t, m + 1, m + 1, Space);
    FindCharIs(t, m + 2, m + 2, '"');
  }

  /** Nor at `=` or either `"`, where no name starts. */
  lemma EmptyValueAfter(t: string, i: nat, w: string, name: string)
    requires t == w + name + "=\"\"" && AllIn(Space, w) && AllIn(Word, name)
    requires |w| + |name| <= i < |t|
    ensures AttributeAt(t, i) == None
  {
    EmptyValueChars(t, w, name);
    SpanIs(t, i, i, Space);
    SpanIs(t, i, i, Word);
  }

  /** The scan finds nothing in a pair with an empty value. */
  lemma {:induction false} EmptyValueScan(t: string, i: nat, w: string, name: string)
    requires t == w + name + "=\"\"" && AllIn(Space, w) && name != [] && AllIn(Word, name) && i <= |t|
    ensures ScanFrom(Attribute, t, i) == []
    decreases |t| - i
  {
    if i < |t| {
      if i < |w| + |name| {
        EmptyValueBefore(t, i, w, name);
      } else {
        EmptyValueAfter(t, i, w, name);
      }
      EmptyValueScan(t, i + 1, w, name);
    }
  }

  /** A pair whose value is empty, `name=""`, gives no entry. */
  lemma EmptyValueIgnored(w: string, name: string)
    requires AllIn(Space, w) && name != [] && AllIn(Word, name)
    ensures ParseAttributes(w + name + "=\"\"") == map[]
  {
    EmptyValueScan(w + name + "=\"\"", 0, w, name);
  }

  // ------------------------------------------------- rendering and reading back

  /** Attribute pairs a templating stage can write: word-character names,
      non-empty values without `"`. */
  predicate Writable(ps: seq<(string, string)>) {
    forall i :: 0 <= i < |ps| ==>
      ps[i].0 != [] && AllIn(Word, ps[i].0) && ps[i].1 != [] && NoQuote(ps[i].1)
  }

  function AttributeText(name: string, value: string): string {
    name + "=\"" + value + "\""
  }

  /** The pairs written as `name="value"`, each followed by its own gap,
      which may be empty. */
  function Render(ps: seq<(string, string)>, gaps: seq<string>): string
    requires |gaps| == |ps|
    decreases |ps|
  {
    if ps == [] then "" else AttributeText(ps[0].0, ps[0].1) + gaps[0] + Render(ps[1..], gaps[1..])
  }

  /** Gaps of whitespace: spaces, tabs, line breaks, or nothing. */
  predicate Blank(gaps: seq<string>) {
    forall k :: 0 <= k < |gaps| ==> AllIn(Space, gaps[k])
  }

  /** The groups the scan yields for written pairs: the names as written. */
  function GroupsOf(ps: seq<(string, string)>): seq<seq<string>> {
    seq(|ps|, i requires 0 <= i < |ps| => [ps[i].0, ps[i].1])
  }

  /** The first written pair and what follows it: its gap and the
      remaining pairs. */
  lemma RenderFirst(ps: seq<(string, string)>, gaps: seq<string>)
    requires ps != [] && |gaps| == |ps|
    ensures Render(ps, gaps)
         == ps[0].0 + ("=\"" + (ps[0].1 + ("\"" + (gaps[0] + Render(ps[1..], gaps[1..])))))
  {
    var name, value, z := ps[0].0, ps[0].1, gaps[0] + Render(ps[1..], gaps[1..]);
    calc {
      Render(ps, gaps);
      (AttributeText(name, value) + gaps[0]) + Render(ps[1..], gaps[1..]);
      { AppendAssociative(AttributeText(name, value), gaps[0], Render(ps[1..], gaps[1..])); }
      AttributeText(name, value) + z;
      (((name + "=\"") + value) + "\"") + z;
      { AppendAssociative((name + "=\"") + value, "\"", z); }
      ((name + "=\"") + value) + ("\"" + z);
      { AppendAssociative(name + "=\"", value, "\"" + z); }
      (name + "=\"") + (value + ("\"" + z));
      { AppendAssociative(name, "=\"", value + ("\"" + z)); }
      name + ("=\"" + (value + ("\"" + z)));
    }
  }

  /** The same, character by character. */
  lemma RenderFirstChars(ps: seq<(string, string)>, gaps: seq<string>)
    requires ps != [] && |gaps| == |ps|
    ensures var r, n, v := Render(ps, gaps), |ps[0].0|, |ps[0].1|;
      && n + 2 + v < |r| && r[..n] == ps[0].0 && r[n] == '=' && r[n + 1] == '"'
      && r[n + 2..n + 2 + v] == ps[0].1 && r[n + 2 + v] == '"'
      && r[n + 3 + v..] == gaps[0] + Render(ps[1..], gaps[1..])
  {
    RenderFirst(ps, gaps);
    PairChars(Render(ps, gaps), ps[0].0, ps[0].1, gaps[0] + Render(ps[1..], gaps[1..]));
  }

  /** `name="value"` followed by `rest`, character by character. */
  lemma PairChars(r: string, name: string, value: string, rest: string)
    requires r == name + ("=\"" + (value + ("\"" + rest)))
    ensures var n, v := |name|, |value|;
      && n + 2 + v < |r| && r[..n] == name && r[n] == '=' && r[n + 1] == '"'
      && r[n + 2..n + 2 + v] == value && r[n + 2 + v] == '"' && r[n + 3 + v..] == rest
  {
  }

  /** A slice of a suffix of `t` is a slice of `t`. */
  lemma SuffixSlice(t: string, j: nat, a: nat, b: nat)
    requires j <= |t| && a <= b <= |t| - j
    ensures t[j..][a..b] == t[j + a..j + b]
  {
  }

  /** The first written pair, when the pairs start at `j`: its name runs from
      `j` to `m` and is followed by `="`. */
  lemma LayoutName(t: string, j: nat, m: nat, ps: seq<(string, string)>, gaps: seq<string>)
    requires |gaps| == |ps| && j <= |t| && t[j..] == Render(ps, gaps) && ps != [] && Writable(ps)
    requires m == j + |ps[0].0|
    ensures j < m && m + 1 < |t| && t[j..m] == ps[0].0
    ensures forall k :: j <= k < m ==> IsWordChar(t[k])
    ensures t[m] == '=' && t[m + 1] == '"'
  {
    RenderFirstChars(ps, gaps);
    SuffixSlice(t, j, 0, m - j);
    forall k | j <= k < m ensures IsWordChar(t[k]) {
      assert t[k] == t[j..m][k - j];
    }
  }

  /** Its value runs from `m + 2` to the closing `"` at `c`. */
  lemma LayoutValue(t: string, j: nat, m: nat, c: nat, ps: seq<(string, string)>, gaps: seq<string>)
    requires |gaps| == |ps| && j <= |t| && t[j..] == Render(ps, gaps) && ps != [] && Writable(ps)
    requires m == j + |ps[0].0| && c == m + 2 + |ps[0].1|
    ensures c < |t| && t[m + 2..c] == ps[0].1 && t[c] == '"'
    ensures forall k :: m + 2 <= k < c ==> t[k] != '"'
  {
    RenderFirstChars(ps, gaps);
    SuffixSlice(t, j, m + 2 - j, c - j);
    forall k | m + 2 <= k < c ensures t[k] != '"' {
      assert t[k] == t[m + 2..c][k - m - 2];
    }
  }

  /** After the closing `"` comes the pair's gap, which ends at `e`, where
      the text ends or the next name starts. */
  lemma LayoutRest(t: string, j: nat, c: nat, e: nat, ps: seq<(string, string)>, gaps: seq<string>)
    requires |gaps| == |ps| && j <= |t| && t[j..] == Render(ps, gaps) && ps != [] && Writable(ps) && Blank(gaps)
    requires c == j + |ps[0].0| + 2 + |ps[0].1| && e == c + 1 + |gaps[0]|
    ensures c < e <= |t| && forall k :: c < k < e ==> IsSpace(t[k])
    ensures e == |t| || !IsSpace(t[e])
    ensures t[e..] == Render(ps[1..], gaps[1..])
  {
    var rest := Render(ps[1..], gaps[1..]);
    LayoutGap(t, j, c, e, ps, gaps);
    WritableTail(ps, gaps);
    RenderStart(ps[1..], gaps[1..]);
    if e < |t| {
      assert t[e] == t[e..][0];
    }
  }

  /** The gap itself, and the remaining pairs after it. */
  lemma LayoutGap(t: string, j: nat, c: nat, e: nat, ps: seq<(string, string)>, gaps: seq<string>)
    requires |gaps| == |ps| && j <= |t| && t[j..] == Render(ps, gaps) && ps != [] && Writable(ps) && Blank(gaps)
    requires c == j + |ps[0].0| + 2 + |ps[0].1| && e == c + 1 + |gaps[0]|
    ensures c < e <= |t| && forall k :: c < k < e ==> IsSpace(t[k])
    ensures t[e..] == Render(ps[1..], gaps[1..])
  {
    RenderFirstChars(ps, gaps);
    assert t[c + 1..] == t[j..][c + 1 - j..];
    SuffixSplit(t, c + 1, gaps[0], Render(ps[1..], gaps[1..]));
    StartsAtChars(t, c + 1, gaps[0]);
  }

  /** Written pairs are empty or start with a word character. */
  lemma RenderStart(ps: seq<(string, string)>, gaps: seq<string>)
    requires |gaps| == |ps| && Writable(ps)
    ensures ps == [] <==> Render(ps, gaps) == []
    ensures ps != [] ==> IsWordChar(Render(ps, gaps)[0])
  {
    if ps != [] {
      RenderFirstChars(ps, gaps);
      assert Render(ps, gaps)[0] == Render(ps, gaps)[..|ps[0].0|][0];
    }
  }

  /** The attribute pattern read off the positions of its parts. */
  lemma AttributeAtIs(t: string, i: nat, j: nat, m: nat, c: nat, e: nat, name: string, value: string)
    requires i <= j < m && m + 2 < c < |t| && t[j..m] == name && t[m + 2..c] == value
    requires Span(t, i, Space) == j && Span(t, j, Word) == m
    requires Span(t, m, Space) == m && t[m] == '='
    requires Span(t, m + 1, Space) == m + 1 && t[m + 1] == '"'
    requires FindChar(t, m + 2, '"') == c && Span(t, c + 1, Space) == e
    ensures AttributeAt(t, i) == Some(Hit(e, [name, value]))
  {
  }

  /** Whitespace from `i` to `j`, a word from `j` to `m`, `="`, a value
      without `"` up to `c`, `"` and whitespace up to `e`: the attribute
      pattern matches at `i`, up to `e`. */
  lemma PairAt(t: string, i: nat, j: nat, m: nat, c: nat, e: nat, name: string, value: string)
    requires i <= j < m && m + 2 < c < |t| && t[j..m] == name && t[m + 2..c] == value
    requires forall k :: i <= k < j ==> IsSpace(t[k])
    requires forall k :: j <= k < m ==> IsWordChar(t[k])
    requires t[m] == '=' && t[m + 1] == '"' && t[c] == '"'
    requires forall k :: m + 2 <= k < c ==> t[k] != '"'
    requires c < e <= |t| && (forall k :: c < k < e ==> IsSpace(t[k])) && (e == |t| || !IsSpace(t[e]))
    ensures AttributeAt(t, i) == Some(Hit(e, [name, value]))
  {
    assert Span(t, i, Space) == j by { SpanIs(t, i, j, Space); }
    assert Span(t, j, Word) == m by { SpanIs(t, j, m, Word); }
    assert Span(t, m, Space) == m by { SpanIs(t, m, m, Space); }
    assert Span(t, m + 1, Space) == m + 1 by { SpanIs(t, m + 1, m + 1, Space); }
    assert FindChar(t, m + 2, '"') == c by { FindCharIs(t, m + 2, c, '"'); }
    assert Span(t, c + 1, Space) == e by { SpanIs(t, c + 1, e, Space); }
    AttributeAtIs(t, i, j, m, c, e, name, value);
  }

  /** One match of the attribute pattern at `i`, then the scan goes on at `e`. */
  lemma PairScan(t: string, i: nat, j: nat, m: nat, c: nat, e: nat, name: string, value: string)
    requires i <= j < m && m + 2 < c < |t| && t[j..m] == name && t[m + 2..c] == value
    requires forall k :: i <= k < j ==> IsSpace(t[k])
    requires forall k :: j <= k < m ==> IsWordChar(t[k])
    requires t[m] == '=' && t[m + 1] == '"' && t[c] == '"'
    requires forall k :: m + 2 <= k < c ==> t[k] != '"'
    requires c < e <= |t| && (forall k :: c < k < e ==> IsSpace(t[k])) && (e == |t| || !IsSpace(t[e]))
    ensures ScanFrom(Attribute, t, i) == [[name, value]] + ScanFrom(Attribute, t, e)
  {
    PairAt(t, i, j, m, c, e, name, value);
    ScanHit(Attribute, t, i, Hit(e, [name, value]));
  }

  /** The scan finds nothing in whitespace. */
  lemma {:induction false} ScanBlank(t: string, i: nat)
    requires i <= |t| && forall k :: i <= k < |t| ==> IsSpace(t[k])
    ensures ScanFrom(Attribute, t, i) == []
    decreases |t| - i
  {
    if i < |t| {
      SpanIs(t, i, |t|, Space);
      assert AttributeAt(t, i) == None;
      ScanBlank(t, i + 1);
    }
  }

  /** The scan reads the first written pair and goes on at `e`, where the
      remaining pairs are written. */
  lemma FirstPairScan(t: string, i: nat, j: nat, ps: seq<(string, string)>, gaps: seq<string>) returns (e: nat)
    requires i <= j <= |t| && forall k :: i <= k < j ==> IsSpace(t[k])
    requires |gaps| == |ps| && t[j..] == Render(ps, gaps) && Writable(ps) && Blank(gaps) && ps != []
    ensures e <= |t| && t[e..] == Render(ps[1..], gaps[1..])
    ensures ScanFrom(Attribute, t, i) == [[ps[0].0, ps[0].1]] + ScanFrom(Attribute, t, e)
  {
    var m := j + |ps[0].0|;
    var c := m + 2 + |ps[0].1|;
    e := c + 1 + |gaps[0]|;
    LayoutName(t, j, m, ps, gaps);
    LayoutValue(t, j, m, c, ps, gaps);
    LayoutRest(t, j, c, e, ps, gaps);
    PairScan(t, i, j, m, c, e, ps[0].0, ps[0].1);
  }

  lemma GroupsOfFirst(ps: seq<(string, string)>)
    requires ps != []
    ensures GroupsOf(ps) == [[ps[0].0, ps[0].1]] + GroupsOf(ps[1..])
  {
    var g, r := GroupsOf(ps), [[ps[0].0, ps[0].1]] + GroupsOf(ps[1..]);
    assert |g| == |r|;
    forall k | 0 <= k < |g| ensures g[k] == r[k] {
      if k > 0 {
        assert ps[1..][k - 1] == ps[k];
      }
    }
  }

  lemma WritableTail(ps: seq<(string, string)>, gaps: seq<string>)
    requires Writable(ps) && Blank(gaps) && ps != [] && gaps != []
    ensures Writable(ps[1..]) && Blank(gaps[1..])
  {
    forall i | 0 <= i < |ps[1..]| ensures ps[1..][i] == ps[i + 1] { }
    forall i | 0 <= i < |gaps[1..]| ensures gaps[1..][i] == gaps[i + 1] { }
  }

  /** Reading written pairs back: scanning whitespace followed by the text of
      writable pairs, with any whitespace after each, yields exactly those
      pairs, in order. */
  lemma {:induction false} ScanRendered(t: string, i: nat, j: nat, ps: seq<(string, string)>, gaps: seq<string>)
    requires i <= j <= |t| && forall k :: i <= k < j ==> IsSpace(t[k])
    requires |gaps| == |ps| && t[j..] == Render(ps, gaps) && Writable(ps) && Blank(gaps)
    ensures ScanFrom(Attribute, t, i) == GroupsOf(ps)
    decreases |ps|
  {
    if ps == [] {
      assert j == |t|;
      ScanBlank(t, i);
    } else {
      var e := FirstPairScan(t, i, j, ps, gaps);
      WritableTail(ps, gaps);
      ScanRendered(t, e, e, ps[1..], gaps[1..]);
      GroupsOfFirst(ps);
    }
  }

  /** The (lower-cased name, value) pairs of written attributes. */
  function Lowered(ps: seq<(string, string)>): seq<(string, string)> {
    seq(|ps|, i requires 0 <= i < |ps| => (Lower(ps[i].0), ps[i].1))
  }

  /** parse_attributes on whitespace followed by written pairs, each with
      any whitespace after it: the map `to_h` builds from the pairs with
      lower-cased names. */
  lemma ParseRendered(w: string, ps: seq<(string, string)>, gaps: seq<string>)
    requires AllIn(Space, w) && Writable(ps) && |gaps| == |ps| && Blank(gaps)
    ensures ParseAttributes(w + Render(ps, gaps)) == ToMap(Lowered(ps))
  {
    var t := w + Render(ps, gaps);
    assert t[|w|..] == Render(ps, gaps);
    ScanRendered(t, 0, |w|, ps, gaps);
    assert NamedValues(GroupsOf(ps)) == Lowered(ps);
  }
}
